/** `ValidationException`: field-keyed validation messages for SDK authors. */
module ValidationErrors {
  import opened Wrappers
  import opened Php
  import opened PhpArrays

  /** The field name to its ordered list of messages. */
  type FieldErrors = PhpArray<string, seq<string>>

  datatype ValidationException = ValidationException(message: string, errors: FieldErrors) {
    function GetMessage(): string { message }

    function GetErrors(): FieldErrors { errors }

    /** `$errors[$field] ?? []`. */
    function GetFieldErrors(field: string): (r: seq<string>)
      ensures field !in Keys(errors) ==> r == []
      ensures forall i :: 0 <= i < |errors| && errors[i].0 == field ==> r == errors[i].1
    {
      forall i | 0 <= i < |errors| && errors[i].0 == field ensures Lookup(errors, field) == Some(errors[i].1) {
        LookupEntry(errors, i);
      }
      match Lookup(errors, field)
      case Some(messages) => messages
      case None => []
    }

    /** `isset($errors[$field]) && !empty($errors[$field])`. */
    predicate HasFieldError(field: string): (r: bool)
      ensures r <==> GetFieldErrors(field) != []
    {
      match Lookup(errors, field)
      case Some(messages) => messages != []
      case None => false
    }
  }

  /** The message both factories build around a field name. */
  function RequiredMessage(field: string): string {
    "The " + field + " field is required"
  }

  function InvalidMessage(field: string, reason: string): string {
    "The " + field + " field is invalid: " + reason
  }

  /** `ValidationException::required($field)`. */
  function Required(field: string): (e: ValidationException)
    ensures e.GetMessage() == RequiredMessage(field)
    ensures e.HasFieldError(field) && e.GetFieldErrors(field) == [e.GetMessage()]
    ensures forall other :: other != field ==> e.GetFieldErrors(other) == [] && !e.HasFieldError(other)
    ensures e.GetErrors() == [(field, [e.GetMessage()])]
  {
    var errors: FieldErrors := [(field, [RequiredMessage(field)])];
    KeysCons(errors[0], []);
    assert errors == [errors[0]] + [];
    ValidationException(RequiredMessage(field), errors)
  }

  /** `ValidationException::invalid($field, $reason)`. */
  function Invalid(field: string, reason: string): (e: ValidationException)
    ensures e.GetMessage() == InvalidMessage(field, reason)
    ensures e.HasFieldError(field) && e.GetFieldErrors(field) == [reason]
    ensures forall other :: other != field ==> e.GetFieldErrors(other) == [] && !e.HasFieldError(other)
    ensures e.GetErrors() == [(field, [reason])]
  {
    var errors: FieldErrors := [(field, [reason])];
    KeysCons(errors[0], []);
    assert errors == [errors[0]] + [];
    ValidationException(InvalidMessage(field, reason), errors)
  }

  /** A field has errors exactly when its error list is non-empty. */
  lemma HasFieldErrorIffListed(e: ValidationException, field: string)
    ensures e.HasFieldError(field) <==> e.GetFieldErrors(field) != []
  {
  }

  /** The constructor stores the map verbatim, and every listed field reads back its list. */
  lemma ErrorsRoundTrip(message: string, errors: FieldErrors)
    ensures ValidationException(message, errors).GetErrors() == errors
    ensures ValidationException(message, errors).GetMessage() == message
    ensures forall i :: 0 <= i < |errors| ==> ValidationException(message, errors).GetFieldErrors(errors[i].0) == errors[i].1
  {
  }

  /** What the factory tests check of the messages: they name the field and the kind of failure. */
  lemma {:induction false} FactoryMessagesMentionField(field: string, reason: string)
    ensures Contains(Required(field).GetMessage(), field) && Contains(Required(field).GetMessage(), "required")
    ensures Contains(Invalid(field, reason).GetMessage(), field) && Contains(Invalid(field, reason).GetMessage(), "invalid")
  {
    var m := RequiredMessage(field);
    assert OccursAt(m, field, 4);
    assert OccursAt(m, "required", 4 + |field| + 10);
    var n := InvalidMessage(field, reason);
    assert OccursAt(n, field, 4);
    assert OccursAt(n, "invalid", 4 + |field| + 10);
  }
}

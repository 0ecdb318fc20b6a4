/** `HttpResponse`: an immutable response value with its status classes and header lookup. */
module Responses {
  import opened Wrappers
  import opened Php
  import opened PhpArrays
  import opened JsonValues

  /** Response headers, in the order the transport produced them. */
  type Headers = PhpArray<string, string>

  /** Header `h` answers to `name`: the names agree ignoring ASCII case. */
  predicate NameMatches(h: (string, string), name: string) {
    ToLower(h.0) == ToLower(name)
  }

  /** Entry `i` is the first that answers to `name`. */
  predicate FirstMatchAt(headers: seq<(string, string)>, name: string, i: int) {
    && 0 <= i < |headers|
    && NameMatches(headers[i], name)
    && forall j :: 0 <= j < i ==> !NameMatches(headers[j], name)
  }

  /**
   * The value of the first header whose name equals `name` ignoring ASCII
   * case (field names are case-insensitive, section 5.1 of RFC 9110).
   */
  function HeaderLookup(headers: seq<(string, string)>, name: string): (r: Option<string>)
    ensures r.None? <==> forall i :: 0 <= i < |headers| ==> !NameMatches(headers[i], name)
    ensures r.Some? ==> exists i :: FirstMatchAt(headers, name, i) && r.value == headers[i].1
  {
    if headers == [] then None
    else if NameMatches(headers[0], name) then
      assert FirstMatchAt(headers, name, 0);
      Some(headers[0].1)
    else
      var r := HeaderLookup(headers[1..], name);
      assert r.Some? ==> exists i :: FirstMatchAt(headers, name, i) && r.value == headers[i].1 by {
        if r.Some? {
          var i :| FirstMatchAt(headers[1..], name, i) && r.value == headers[1..][i].1;
          forall j | 0 <= j < i + 1 ensures !NameMatches(headers[j], name) {
            if j > 0 { assert headers[j] == headers[1..][j - 1]; }
          }
          assert FirstMatchAt(headers, name, i + 1);
        }
      }
      assert r.None? ==> forall i :: 0 <= i < |headers| ==> !NameMatches(headers[i], name) by {
        if r.None? {
          forall i | 0 <= i < |headers| ensures !NameMatches(headers[i], name) {
            if i > 0 { assert headers[i] == headers[1..][i - 1]; }
          }
        }
      }
      r
  }

  /** The lookup is blind to the case of the name asked for. */
  lemma {:induction false} HeaderLookupIgnoresCase(headers: seq<(string, string)>, name: string)
    ensures HeaderLookup(headers, ToUpper(name)) == HeaderLookup(headers, name)
    ensures HeaderLookup(headers, ToLower(name)) == HeaderLookup(headers, name)
  {
    LowerIgnoresCase(name);
    if headers != [] {
      HeaderLookupIgnoresCase(headers[1..], name);
    }
  }

  datatype HttpResponse = HttpResponse(statusCode: int, body: string, headers: Headers) {
    /** 2xx. */
    predicate IsSuccessful(): (r: bool)
      ensures statusCode >= 0 ==> (r <==> statusCode / 100 == 2)
    {
      statusCode >= 200 && statusCode < 300
    }

    /** 4xx. */
    predicate IsClientError(): (r: bool)
      ensures statusCode >= 0 ==> (r <==> statusCode / 100 == 4)
      ensures r ==> !IsSuccessful()
    {
      statusCode >= 400 && statusCode < 500
    }

    /** 500 and every code above it. */
    predicate IsServerError(): (r: bool)
      ensures r <==> statusCode / 100 >= 5
      ensures r ==> !IsSuccessful() && !IsClientError()
    {
      statusCode >= 500
    }

    /** `json()`: the body decoded as a JSON array, or nothing. */
    function Json(decode: Decoder): (r: Option<Value>)
      ensures EmptyString(body) ==> r == None
      ensures r.Some? ==> IsArray(r.value) && decode(body) == r
      ensures !EmptyString(body) && decode(body).Some? && !IsArray(decode(body).value) ==> r == None
      ensures !EmptyString(body) && decode(body).Some? && IsArray(decode(body).value) ==> r == decode(body)
    {
      DecodeArray(decode, body)
    }

    /** `getHeader($name)`: a linear search that returns at the first match. */
    method GetHeader(name: string) returns (r: Option<string>)
      ensures r == HeaderLookup(headers, name)
    {
      var lowered := ToLower(name);
      var i := 0;
      while i < |headers|
        invariant 0 <= i <= |headers|
        invariant HeaderLookup(headers[i..], name) == HeaderLookup(headers, name)
      {
        if ToLower(headers[i].0) == lowered {
          assert NameMatches(headers[i..][0], name);
          return Some(headers[i].1);
        }
        assert headers[i..][1..] == headers[i + 1..];
        i := i + 1;
      }
      return None;
    }
  }

  /**
   * The three predicates are the status classes of section 15 of RFC 9110,
   * read off the hundreds digit, except that every code from 500 up counts as
   * a server error; at most one of them holds.
   */
  lemma {:induction false} StatusClasses(r: HttpResponse)
    ensures r.statusCode >= 0 ==> (r.IsSuccessful() <==> r.statusCode / 100 == 2)
    ensures r.statusCode >= 0 ==> (r.IsClientError() <==> r.statusCode / 100 == 4)
    ensures r.IsServerError() <==> r.statusCode / 100 >= 5
    ensures !(r.IsSuccessful() && r.IsClientError())
    ensures !(r.IsSuccessful() && r.IsServerError())
    ensures !(r.IsClientError() && r.IsServerError())
  {
  }
}

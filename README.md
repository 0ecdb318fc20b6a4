# API-client SDK template: response handling, transport parsing and configuration

This project models the sequential core of a PHP template for API-client SDKs
and proves properties of it in Dafny:

- `handleResponse` of the abstract base client turns a transport response into
  decoded data or an `HttpException`. It checks the status first (5xx, then
  4xx), then treats an empty body as `[]`, then requires the body to decode to
  an array. The verb helpers (`get`, `postJson`, `putJson`, `delete`) merge
  default headers with the caller's, compose the URL with an optional
  `?query`, and call the transport.
- `HttpResponse` holds the status classes, `json()` and a case-insensitive
  first-match `getHeader`.
- The native transport upper-cases the method, renders the header lines, and
  attaches a body only for POST/PUT/PATCH with a non-empty payload. It reads
  the status code out of the status line (section 4 of RFC 9112) and splits
  the `name: value` field lines (section 5 of RFC 9112) into an ordered array.
- The configuration constructor rejects a base URI that is blank after `trim`
  and stores it without trailing slashes.
- The error carriers are `HttpException` (status, raw body, decoding helper)
  and `ValidationException` (field-keyed messages and two factories).

Modules, one per source file plus PHP's run-time library:

| module | file | models |
|---|---|---|
| `Wrappers` | wrappers.dfy | `?T` results and thrown exceptions (`Option`, `Result`) |
| `Php` | php.dfy | `empty` on strings, `trim`, `rtrim`, `strtolower`/`strtoupper`, `explode(.., 2)`, `implode`, `sprintf('%d')`, `(int)` |
| `PhpArrays` | php_arrays.dfy | ordered string-keyed arrays: lookup, `$a[$k] = $v`, `array_merge` |
| `JsonValues` | json_values.dfy | decoded values, `is_array`, the decoder type |
| `HttpErrors` | http_errors.dfy | src/Exception/HttpException.php |
| `ValidationErrors` | validation_errors.dfy | src/Exception/ValidationException.php |
| `Configuration` | configuration.dfy | src/BaseConfig.php, with `ConfigException` as a datatype |
| `Responses` | responses.dfy | src/Http/HttpResponse.php |
| `NativeTransport` | native_transport.dfy | src/Http/NativeHttpClient.php |
| `Client` | client.dfy | src/BaseClient.php |

External collaborators are parameters, not part of the model:

- `json_decode` is a `Decoder` (`string -> Option<Value>`, None for text that is not JSON).
- `json_encode` is an `Encoder`.
- `http_build_query` is `buildQuery`.
- The blocking `file_get_contents` call is a `Network`: from the URL and the stream options to `Option<RawResponse>`. None stands for the `false` sentinel. A `RawResponse` holds the raw header lines that PHP puts in `$http_response_header`.

The client bundles these four as a `Runtime`.

PHP semantics that are kept:

- `empty($s)` holds for `""` and for `"0"`.
- `is_array` accepts decoded JSON lists as well as objects. A decoded list is therefore returned, not rejected.
- `trim` strips space, tab, LF, CR, NUL and vertical tab. `rtrim($u, '/')` strips only slashes, so `"///"` is accepted and stored as `""`.
- `array_merge` keeps each default header in its place and gives it the caller's value. Caller headers that are new are appended.
- `$headers[$name] = $value` overwrites an existing name in place.

The prose description of the template disagrees with the code in places, and
the model follows the code:

- The code accepts a top-level JSON array as a successful payload.
- The code treats the body `"0"` as empty.
- The code can store an empty base URI.
- `isServerError` has no upper bound (600 counts as a server error).

## Model

| member | source | states |
|---|---|---|
| `Php.Trim` | src/BaseConfig.php:48 | `trim` gives "" exactly when every character is whitespace or NUL; otherwise the result neither starts nor ends with one |
| `Php.TrimPadded` | src/BaseConfig.php:48 | `trim` removes exactly the whitespace/NUL padding around a string whose ends are not whitespace |
| `Php.RTrimChar` | src/BaseConfig.php:52 | `rtrim($s, $c)` gives a prefix of `s` not ending in `c`, and everything cut off is `c` |
| `Php.ToLower` | src/Http/HttpResponse.php:74-77 | `strtolower` keeps the length and lower-cases each ASCII letter |
| `Php.ToUpper` | src/Http/NativeHttpClient.php:41 | `strtoupper` keeps the length and upper-cases each ASCII letter |
| `Php.LowerIgnoresCase` | src/Http/HttpResponse.php:74-77 | lower-casing an upper-cased or lower-cased name gives the lower-cased name |
| `Php.SplitFirst` | src/Http/NativeHttpClient.php:114-115 | `explode(':', $line, 2)` yields two parts exactly when there is a colon; the first part has no colon and the line is `first + ":" + second` |
| `Php.NatToString` | src/BaseClient.php:178 | `%d` of a non-negative code is a non-empty run of digits with no leading zero |
| `Php.DecimalValueOfNatToString` | src/Http/NativeHttpClient.php:92 | `(int)` of the printed digits of a code gives the code back |
| `PhpArrays.Lookup` | src/Exception/ValidationException.php:47 | the lookup finds nothing exactly when the key is absent, and otherwise a stored entry for that key |
| `PhpArrays.Set` | src/Http/NativeHttpClient.php:116 | `$a[$k] = $v`: `k` now maps to `v`, no other key changes, keys keep their positions, and a new key is appended |
| `PhpArrays.Merge` | src/BaseClient.php:78 | `array_merge`: the caller's value wherever the caller has the key, the default's otherwise; keys are their union; defaults keep their positions (the order of the appended caller keys is not stated) |
| `JsonValues.DecodeArray` | src/Http/HttpResponse.php:57-63 | nothing for an empty body; nothing when the decoded value is not an array; the decoded array otherwise |
| `HttpErrors.NewHttpException` | src/Exception/HttpException.php:19-25 | the constructor stores message, status code and raw body verbatim, and the exception code equals the status code |
| `HttpErrors.HttpException.GetDecodedResponse` | src/Exception/HttpException.php:48-57 | None for an empty body (`""` or `"0"`); None when the body does not decode to an array; the decoded array otherwise |
| `ValidationErrors.ValidationException.GetFieldErrors` | src/Exception/ValidationException.php:45-48 | the list stored for the field, or the empty list when the field is absent |
| `ValidationErrors.ValidationException.HasFieldError` | src/Exception/ValidationException.php:55-58 | `hasFieldError(f)` holds exactly when `getFieldErrors(f)` is non-empty |
| `ValidationErrors.HasFieldErrorIffListed` | src/Exception/ValidationException.php:55-58 | `hasFieldError(f)` holds exactly when the field is present with a non-empty list |
| `ValidationErrors.ErrorsRoundTrip` | src/Exception/ValidationException.php:23-37 | for every map, the empty default included, `getErrors()` and `getMessage()` return what the constructor got, and each listed field reads back its own list |
| `ValidationErrors.Required` | src/Exception/ValidationException.php:65-71 | message "The f field is required"; `getErrors()` is exactly `[f => [that message]]`, so no other field has errors |
| `ValidationErrors.Invalid` | src/Exception/ValidationException.php:79-85 | message "The f field is invalid: r"; `getErrors()` is exactly `[f => [r]]`, so no other field has errors |
| `ValidationErrors.FactoryMessagesMentionField` | src/Exception/ValidationException.php:65-85 | both factory messages contain the field name, and "required" or "invalid" respectively |
| `Configuration.NormalizeBaseUri` | src/BaseConfig.php:52 | the stored URI is a prefix of the input, does not end in '/', and only slashes were removed |
| `Configuration.NormalizeIdempotent` | src/BaseConfig.php:52 | normalising a stored URI again changes nothing |
| `Configuration.NewBaseConfig` | src/BaseConfig.php:44-54 | construction fails, with "Base URI cannot be empty", exactly when `trim(baseUri)` is "" or "0"; otherwise it stores the normalised URI and the given sandbox flag |
| `Configuration.StoredBaseUri` | src/BaseConfig.php:52-62 | what `getBaseUri()` returns after a successful construction is a slash-free-ended prefix of the input and is already in normal form |
| `Configuration.OnlySlashesStoredEmpty` | src/BaseConfig.php:48-52 | "///" passes the blank check and is stored as "" |
| `Configuration.BlankRejected` | src/BaseConfig.php:48-50 | every URI made only of whitespace/NUL is rejected, and so is "0" with any such padding |
| `Configuration.TrailingSlashDropped` | src/BaseConfig.php:48-53 | a URI that is not "0", has no whitespace/NUL at either end and does not end in '/' is stored as given, and the same URI with one '/' appended is stored without it |
| `Responses.HeaderLookup` | src/Http/HttpResponse.php:72-83 | `getHeader(n)` is the value of the first entry whose lower-cased name equals lower(n), and None when no entry matches |
| `Responses.HeaderLookupIgnoresCase` | src/Http/HttpResponse.php:74-77 | header lookup gives the same answer for a name, its upper-cased and its lower-cased form |
| `Responses.HttpResponse.GetHeader` | src/Http/HttpResponse.php:72-83 | the loop with early return computes exactly that first-match lookup |
| `Responses.HttpResponse.Json` | src/Http/HttpResponse.php:55-64 | `json()`: None for an empty body, None when the decoded value is not an array, the decoded array otherwise |
| `Responses.HttpResponse.IsSuccessful` | src/Http/HttpResponse.php:28-31 | for non-negative codes, `isSuccessful()` holds exactly for the 2xx class (hundreds digit 2) |
| `Responses.HttpResponse.IsClientError` | src/Http/HttpResponse.php:36-39 | for non-negative codes, `isClientError()` holds exactly for the 4xx class; a client error is never successful |
| `Responses.HttpResponse.IsServerError` | src/Http/HttpResponse.php:44-47 | `isServerError()` holds exactly when the hundreds digit is 5 or more; a server error is neither successful nor a client error |
| `Responses.StatusClasses` | src/Http/HttpResponse.php:29-48 | for non-negative codes, successful and client error are the 2xx and 4xx classes by hundreds digit; server error is every code from 500 up; at most one of the three holds |
| `NativeTransport.HeaderLines` | src/Http/NativeHttpClient.php:44-46 | one line per header, in input order, each `"name: value"` |
| `NativeTransport.RequestOptions` | src/Http/NativeHttpClient.php:41-59 | upper-cased method; header lines joined by CRLF; the configured timeout; errors not raised; content present exactly when the body is non-empty and the method is POST, PUT or PATCH, and then it is the encoded body |
| `NativeTransport.BodyMethodsAnyCase` | src/Http/NativeHttpClient.php:57-59 | for every method name, a body is attached exactly when the payload is non-empty and the name lower-cases to post, put or patch; so never for get or delete in any case |
| `NativeTransport.FirstMatch` | src/Http/NativeHttpClient.php:91 | the search finds the leftmost position where `HTTP/\d\.\d\s+\d` matches, or reports that there is none |
| `NativeTransport.ParseStatusCode` | src/Http/NativeHttpClient.php:84-96 | 0 for an empty header list, and 0 when the pattern does not occur in the first line |
| `NativeTransport.ParseStatusCodeFirstLineOnly` | src/Http/NativeHttpClient.php:86-91 | only the first raw header line decides the code |
| `NativeTransport.ParseStatusCodeLeftmost` | src/Http/NativeHttpClient.php:91-93 | when the pattern matches, the code is the value of the digit run after `HTTP/d.d` and whitespace at the leftmost match |
| `NativeTransport.StatusLineRoundTrip` | src/Http/NativeHttpClient.php:91-93 | a status line `HTTP/x.y <code><reason>` parses back to the code it was written with, whatever lines follow |
| `NativeTransport.HeaderField` | src/Http/NativeHttpClient.php:110-117 | a line is dropped exactly when it starts with `HTTP/` or has no colon; otherwise it yields the trimmed text before the first colon and the trimmed text after it |
| `NativeTransport.ParsedHeaders` | src/Http/NativeHttpClient.php:104-121 | the header array of the raw lines has at most one entry per line; its names and values are pinned down by the lemmas below |
| `NativeTransport.SetFieldsNames` | src/Http/NativeHttpClient.php:106-121 | the parsed header names are exactly the names of the kept lines |
| `NativeTransport.SetFieldsLastWins` | src/Http/NativeHttpClient.php:114-116 | a name maps to the value of the last kept line with that name |
| `NativeTransport.ParsedHeaderLastWins` | src/Http/NativeHttpClient.php:104-121 | for the raw lines: a later duplicate name overwrites an earlier one |
| `NativeTransport.ParsedHeadersSnoc` | src/Http/NativeHttpClient.php:108-118 | one more raw line either leaves the headers alone or sets its own field |
| `NativeTransport.DroppedLine` | src/Http/NativeHttpClient.php:110-117 | a status line or a line without a colon never changes the parsed headers |
| `NativeTransport.Outcome` | src/Http/NativeHttpClient.php:35-77 | a failed call carries "Failed to connect to server"; a response's status code is never negative |
| `NativeTransport.OutcomeFailsOnlyWithoutResponse` | src/Http/NativeHttpClient.php:63-76 | the transport fails only when nothing could be read, and then with status 0, code 0 and an empty body; any status the server sent, 4xx and 5xx included, comes back as a response |
| `NativeTransport.NativeHttpClient.constructor` | src/Http/NativeHttpClient.php:27-30 | the client keeps the timeout it is given |
| `NativeTransport.NativeHttpClient.ParseHeaders` | src/Http/NativeHttpClient.php:104-121 | the loop with `continue` and overwrite computes the parsed headers of the raw lines |
| `NativeTransport.NativeHttpClient.Request` | src/Http/NativeHttpClient.php:35-77 | the request shaping, the failure sentinel and the response parsing are exactly the transport outcome above |
| `Client.HandleResponse` | src/BaseClient.php:174-207 | 5xx → "Server error (HTTP s)" and 4xx → "Client error (HTTP s)", whatever the body; below 400 an empty body gives `[]`, a body that does not decode to an array gives "Unable to decode response as JSON", otherwise the decoded value; every exception carries the response's status (also as its code) and its raw body |
| `Client.MessagesDistinct` | src/BaseClient.php:176-204 | the server, client and decode messages never coincide |
| `Client.ErrorBodyDecodesLikeResponse` | src/BaseClient.php:176-204 | the exception's `getDecodedResponse()` equals the response's `json()`, and is None for a decode error |
| `Client.NativeDefault` | src/BaseClient.php:48 | the default transport sends every request through the native client with the 30-second default timeout |
| `Client.GetUrl` | src/BaseClient.php:100-103 | `?` and the built query are appended only when the query is non-empty |
| `Client.MergedHeaders` | src/BaseClient.php:70-78 | merged headers contain every caller header with the caller's value and each default the caller did not set, and nothing else; defaults stay at the front |
| `Client.BaseClient.constructor` | src/BaseClient.php:44-49 | the client keeps its configuration and uses the given transport, or the native one with the default timeout when none is given |
| `Client.BaseClient.Send` | src/BaseClient.php:75-82 | a transport exception passes through unchanged; a response goes through `handleResponse` |
| `Client.BaseClient.Get` | src/BaseClient.php:94-113 | GET to base URI + path (+ `?query` when non-empty), with `Accept: application/json` merged under the caller's headers and no body |
| `Client.BaseClient.PostJson` | src/BaseClient.php:68-83 | POST to base URI + path with JSON content-type and accept headers merged under the caller's, and the payload |
| `Client.BaseClient.PutJson` | src/BaseClient.php:124-139 | PUT, like POST |
| `Client.BaseClient.Delete` | src/BaseClient.php:149-163 | DELETE to base URI + path with the accept header merged under the caller's and no body |

## Left out

- Network I/O is a parameter: `file_get_contents`, `stream_context_create`, the timeout's effect and how `$http_response_header` gets filled. Its outcome is an input.
- `json_decode`, `json_encode` and `http_build_query` are opaque parameters, so no JSON round trip is stated. A `json_encode` failure (`false` as content) is not modelled.
- Floating-point JSON numbers appear only as an uninterpreted `Float` case.
- NativeTransport.ParseStatusCode: the result is the unbounded value of the digit run. What PHP's `(int)` does with a run beyond the 64-bit range is not modelled. Status codes and all other integers are unbounded too.
- PHP turns decimal-integer strings used as array keys (a header named `123`) into integer keys. The model does not: `array_merge` renumbering such keys, and `strtolower` on an integer key under strict types, are not modelled.
- `strtolower`/`strtoupper` are ASCII-only, as in PHP 8.2 and later. Locale-dependent case mapping is not modelled. Strings are sequences of bytes without an encoding.
- `HttpException`, `ConfigException` and `ValidationException` are datatypes, not an inheritance chain. `previous` exceptions and stack traces are not modelled.
- A subclass that overrides `handleResponse`, and SDK subclasses that add configuration fields or endpoints, are not modelled.
- Exceptions other than `HttpException` thrown by a custom transport are not modelled.
- The Laravel service provider, the facade, config/sdk.php, and the two interfaces are left out. They are framework registration and declarations; the transport interface becomes the `Transport` function type.
- HttpErrors.HttpException: the datatype can be built directly with any `code`. Only `NewHttpException`, which every part of the model uses, ties the code to the status code.
- PhpArrays.Merge: the ensures fix the first positions (the defaults) and the set of keys, but not the relative order of the caller's new keys after them, which `array_merge` keeps in the caller's order.
- Client.Runtime and Client.Transport: the network and the transport are pure functions fixed when the client is built, so two identical calls give identical outcomes, and a stateful transport (one that records its requests, say) cannot be represented. No proved property depends on this.

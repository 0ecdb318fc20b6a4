/**
 * `NativeHttpClient`: shapes a request into stream options, hands it to the
 * network, and turns the raw status line and header lines it gets back into
 * an `HttpResponse`. The network call itself is a parameter.
 */
module NativeTransport {
  import opened Wrappers
  import opened Php
  import opened PhpArrays
  import opened JsonValues
  import opened Responses
  import opened HttpErrors

  /** The request body: a PHP array of JSON-encodable values. */
  type Body = PhpArray<Key, Value>

  /** `json_encode`, an opaque library function supplied by the caller. */
  type Encoder = Body -> string

  /** The `http` options of the stream context. */
  datatype StreamOptions = StreamOptions(
    httpMethod: string,
    header: string,
    timeout: int,
    ignoreErrors: bool,
    content: Option<string>)

  /** What the network produced: the raw header lines (status line first) and the body. */
  datatype RawResponse = RawResponse(headerLines: seq<string>, body: string)

  /**
   * The blocking fetch of `url` with the given options. None stands for the
   * `false` that signals a total failure (nothing could be read).
   */
  type Network = (string, StreamOptions) -> Option<RawResponse>

  const DefaultTimeout: int := 30

  const CRLF: string := "\r\n"

  /** The methods that carry a body. */
  const BodyMethods: seq<string> := ["POST", "PUT", "PATCH"]

  /** One header in wire form. */
  function HeaderLine(name: string, value: string): string {
    name + ": " + value
  }

  /** The headers in wire form, in their order. */
  function HeaderLines(headers: seq<(string, string)>): (lines: seq<string>)
    ensures |lines| == |headers|
    ensures forall i :: 0 <= i < |headers| ==> lines[i] == HeaderLine(headers[i].0, headers[i].1)
  {
    if headers == [] then [] else [HeaderLine(headers[0].0, headers[0].1)] + HeaderLines(headers[1..])
  }

  /** `!empty($body) && in_array($method, ['POST', 'PUT', 'PATCH'], true)` on the upper-cased method. */
  predicate SendsBody(httpMethod: string, body: Body) {
    |body| > 0 && ToUpper(httpMethod) in BodyMethods
  }

  /** The options `request` builds before the network call. */
  function RequestOptions(timeout: int, httpMethod: string, headers: seq<(string, string)>, body: Body, encode: Encoder): (o: StreamOptions)
    ensures o.httpMethod == ToUpper(httpMethod)
    ensures o.header == Implode(CRLF, HeaderLines(headers))
    ensures o.timeout == timeout && o.ignoreErrors
    ensures o.content.Some? <==> |body| > 0 && ToUpper(httpMethod) in BodyMethods
    ensures o.content.Some? ==> o.content.value == encode(body)
  {
    StreamOptions(ToUpper(httpMethod), Implode(CRLF, HeaderLines(headers)), timeout, true,
      if SendsBody(httpMethod, body) then Some(encode(body)) else None)
  }

  /**
   * A non-empty body goes out exactly when the method is post, put or patch in
   * any letter case; so never for get or delete.
   */
  lemma {:induction false} BodyMethodsAnyCase(httpMethod: string, body: Body)
    ensures SendsBody(httpMethod, body) <==>
      |body| > 0 && (ToLower(httpMethod) == "post" || ToLower(httpMethod) == "put" || ToLower(httpMethod) == "patch")
    ensures ToLower(httpMethod) == "get" || ToLower(httpMethod) == "delete" ==> !SendsBody(httpMethod, body)
  {
    assert ToLower("POST") == "post" && ToLower("PUT") == "put" && ToLower("PATCH") == "patch";
    UpperMatchesIgnoringCase(httpMethod, "POST");
    UpperMatchesIgnoringCase(httpMethod, "PUT");
    UpperMatchesIgnoringCase(httpMethod, "PATCH");
  }

  // ---- Status line -------------------------------------------------------

  /** `\s` of PCRE: space, tab, LF, vertical tab, form feed, CR. */
  predicate IsSpace(c: char) {
    c == ' ' || c == '\t' || c == '\n' || c == '\U{B}' || c == '\U{C}' || c == '\r'
  }

  /** The end of the run of whitespace starting at `i`. */
  function SpaceRunEnd(s: string, i: nat): (e: nat)
    requires i <= |s|
    ensures i <= e <= |s|
    ensures forall k :: i <= k < e ==> IsSpace(s[k])
    ensures e == |s| || !IsSpace(s[e])
    decreases |s| - i
  {
    if i < |s| && IsSpace(s[i]) then SpaceRunEnd(s, i + 1) else i
  }

  /** The end of the run of digits starting at `i`. */
  function DigitRunEnd(s: string, i: nat): (e: nat)
    requires i <= |s|
    ensures i <= e <= |s|
    ensures forall k :: i <= k < e ==> IsDigit(s[k])
    ensures e == |s| || !IsDigit(s[e])
    decreases |s| - i
  {
    if i < |s| && IsDigit(s[i]) then DigitRunEnd(s, i + 1) else i
  }

  /** The pattern `HTTP/\d\.\d\s+(\d+)` matches at position `p` of `s`. */
  predicate MatchAt(s: string, p: nat) {
    && p + 8 <= |s|
    && s[p..p + 5] == "HTTP/"
    && IsDigit(s[p + 5]) && s[p + 6] == '.' && IsDigit(s[p + 7])
    && var e := SpaceRunEnd(s, p + 8);
       e > p + 8 && e < |s| && IsDigit(s[e])
  }

  /**
   * The captured group of a match at `p`: `\s+` takes the whole run of
   * whitespace (a digit cannot be whitespace), `\d+` the whole run of digits.
   */
  function CodeDigits(s: string, p: nat): (d: string)
    requires MatchAt(s, p)
    ensures |d| > 0 && forall i :: 0 <= i < |d| ==> IsDigit(d[i])
  {
    var e := SpaceRunEnd(s, p + 8);
    s[e..DigitRunEnd(s, e)]
  }

  /** The leftmost match at or after `from`, as `preg_match` finds it. */
  function FirstMatch(s: string, from: nat): (r: Option<nat>)
    requires from <= |s|
    ensures r.Some? ==> from <= r.value < |s| && MatchAt(s, r.value)
    ensures r.Some? ==> forall q :: from <= q < r.value ==> !MatchAt(s, q)
    ensures r.None? ==> forall q :: from <= q ==> !MatchAt(s, q)
    decreases |s| - from
  {
    if from == |s| then None
    else if MatchAt(s, from) then Some(from)
    else FirstMatch(s, from + 1)
  }

  /** `parseStatusCode`: the code in the first raw header line, or 0. */
  function ParseStatusCode(headers: seq<string>): (code: nat)
    ensures headers == [] ==> code == 0
    ensures headers != [] && (forall p :: !MatchAt(headers[0], p)) ==> code == 0
  {
    if headers == [] then 0
    else match FirstMatch(headers[0], 0)
      case None => 0
      case Some(p) => DecimalValue(CodeDigits(headers[0], p))
  }

  /** Only the first line is ever inspected. */
  lemma ParseStatusCodeFirstLineOnly(headers: seq<string>, rest: seq<string>)
    requires headers != []
    ensures ParseStatusCode(headers) == ParseStatusCode([headers[0]] + rest)
  {
  }

  /** The code is the digit run of the leftmost match. */
  lemma {:induction false} ParseStatusCodeLeftmost(headers: seq<string>, p: nat)
    requires headers != [] && MatchAt(headers[0], p)
    requires forall q :: 0 <= q < p ==> !MatchAt(headers[0], q)
    ensures ParseStatusCode(headers) == DecimalValue(CodeDigits(headers[0], p))
  {
    var m := FirstMatch(headers[0], 0);
    assert m.Some?;
  }

  /** A digit run followed by a non-digit ends where the run does. */
  lemma {:induction false} DigitRunOf(s: string, i: nat, n: nat)
    requires i + n <= |s|
    requires forall k :: i <= k < i + n ==> IsDigit(s[k])
    requires i + n == |s| || !IsDigit(s[i + n])
    ensures DigitRunEnd(s, i) == i + n
    decreases n
  {
    if n > 0 { DigitRunOf(s, i + 1, n - 1); }
  }

  /**
   * A status line `HTTP/x.y <code><reason>` (section 4 of RFC 9112) reads back
   * the code it was written with, whatever header lines follow.
   */
  lemma {:induction false} StatusLineRoundTrip(major: char, minor: char, code: nat, reason: string, rest: seq<string>)
    requires IsDigit(major) && IsDigit(minor)
    requires reason == [] || !IsDigit(reason[0])
    ensures ParseStatusCode(["HTTP/" + [major, '.', minor] + " " + NatToString(code) + reason] + rest) == code
  {
    var digits := NatToString(code);
    var line := "HTTP/" + [major, '.', minor] + " " + digits + reason;
    assert line[..5] == "HTTP/";
    assert line[5] == major && line[6] == '.' && line[7] == minor && line[8] == ' ';
    assert line[9] == digits[0];
    assert !IsSpace(line[9]);
    assert SpaceRunEnd(line, 9) == 9;
    assert SpaceRunEnd(line, 8) == 9;
    assert MatchAt(line, 0);
    forall k | 9 <= k < 9 + |digits| ensures IsDigit(line[k]) {
      assert line[k] == digits[k - 9];
    }
    if reason != [] { assert line[9 + |digits|] == reason[0]; }
    DigitRunOf(line, 9, |digits|);
    assert CodeDigits(line, 0) == digits;
    DecimalValueOfNatToString(code);
    ParseStatusCodeLeftmost([line] + rest, 0);
  }

  // ---- Header lines ------------------------------------------------------

  /** Position `i` holds the first ':' of `line`. */
  predicate FirstColonAt(line: string, i: int) {
    0 <= i < |line| && line[i] == ':' && ':' !in line[..i]
  }

  /**
   * What `parseHeaders` keeps of one raw line: nothing for a status line
   * (`HTTP/...`) or a line without ':', otherwise the trimmed text before the
   * first ':' and the trimmed text after it.
   */
  function HeaderField(line: string): (r: Option<(string, string)>)
    ensures r.None? <==> StartsWith(line, "HTTP/") || ':' !in line
    ensures r.Some? ==> exists i :: FirstColonAt(line, i) && r.value == (Trim(line[..i]), Trim(line[i + 1..]))
  {
    if StartsWith(line, "HTTP/") then None
    else match SplitFirst(line, ':')
      case None => None
      case Some(parts) =>
        var i := |parts.0|;
        assert line[..i] == parts.0 && line[i + 1..] == parts.1;
        assert FirstColonAt(line, i);
        Some((Trim(parts.0), Trim(parts.1)))
  }

  /** What `parseHeaders` keeps of each raw line, in order. */
  function Fields(raw: seq<string>): (fields: seq<Option<(string, string)>>)
    ensures |fields| == |raw|
  {
    if raw == [] then [] else Fields(raw[..|raw| - 1]) + [HeaderField(raw[|raw| - 1])]
  }

  /** Entry `i` of the fields is what line `i` yields. */
  lemma {:induction false} FieldsAt(raw: seq<string>, i: nat)
    requires i < |raw|
    ensures Fields(raw)[i] == HeaderField(raw[i])
  {
    if i < |raw| - 1 {
      FieldsAt(raw[..|raw| - 1], i);
    }
  }

  /** Sets the kept fields one after the other; a later field with the same name overwrites. */
  function SetFields(fields: seq<Option<(string, string)>>): Headers
  {
    if fields == [] then []
    else
      var acc := SetFields(fields[..|fields| - 1]);
      match fields[|fields| - 1]
      case None => acc
      case Some(field) => Set(acc, field.0, field.1)
  }

  /** The headers of `raw`, read line by line. */
  function ParsedHeaders(raw: seq<string>): (h: Headers)
    ensures |h| <= |raw|
  {
    SetFieldsLength(Fields(raw));
    SetFields(Fields(raw))
  }

  /** Each kept field adds at most one entry. */
  lemma {:induction false} SetFieldsLength(fields: seq<Option<(string, string)>>)
    ensures |SetFields(fields)| <= |fields|
  {
    if fields != [] {
      SetFieldsLength(fields[..|fields| - 1]);
    }
  }

  /** Field `i` is kept and named `name`. */
  predicate FieldNamed(fields: seq<Option<(string, string)>>, i: int, name: string) {
    0 <= i < |fields| && fields[i].Some? && fields[i].value.0 == name
  }

  /** The names present are exactly the names of the kept fields. */
  lemma {:induction false} SetFieldsNames(fields: seq<Option<(string, string)>>, name: string)
    ensures name in Keys(SetFields(fields)) <==> exists i :: FieldNamed(fields, i, name)
  {
    if fields != [] {
      var n := |fields| - 1;
      var init := fields[..n];
      SetFieldsNames(init, name);
      if exists i :: FieldNamed(fields, i, name) {
        var i :| FieldNamed(fields, i, name);
        if i < n { assert FieldNamed(init, i, name); }
      }
      if exists i :: FieldNamed(init, i, name) {
        var i :| FieldNamed(init, i, name);
        assert FieldNamed(fields, i, name);
      }
      assert fields[..n] == init;
      match fields[n]
      case None =>
        assert SetFields(fields) == SetFields(init);
        assert !FieldNamed(fields, n, name);
      case Some(field) =>
        assert SetFields(fields) == Set(SetFields(init), field.0, field.1);
        assert Keys(SetFields(fields)) == Keys(SetFields(init)) + {field.0};
        assert FieldNamed(fields, n, name) <==> field.0 == name;
    }
  }

  /** A name's value comes from the last kept field with that name. */
  lemma {:induction false} SetFieldsLastWins(fields: seq<Option<(string, string)>>, i: nat)
    requires i < |fields| && fields[i].Some?
    requires forall j :: i < j < |fields| ==> !FieldNamed(fields, j, fields[i].value.0)
    ensures Lookup(SetFields(fields), fields[i].value.0) == Some(fields[i].value.1)
  {
    var n := |fields| - 1;
    if i < n {
      var init := fields[..n];
      assert !FieldNamed(fields, n, fields[i].value.0);
      forall j | i < j < |init| ensures !FieldNamed(init, j, init[i].value.0) {
        assert !FieldNamed(fields, j, fields[i].value.0);
      }
      SetFieldsLastWins(init, i);
    }
  }

  /**
   * The value stored under a name is that of the last kept line with that name:
   * a later duplicate overwrites an earlier one.
   */
  lemma {:induction false} ParsedHeaderLastWins(raw: seq<string>, i: nat, name: string, value: string)
    requires i < |raw| && HeaderField(raw[i]) == Some((name, value))
    requires forall j :: i < j < |raw| ==> !FieldNamed(Fields(raw), j, name)
    ensures Lookup(ParsedHeaders(raw), name) == Some(value)
  {
    FieldsAt(raw, i);
    SetFieldsLastWins(Fields(raw), i);
  }

  /** Reading one more line: the previous headers, with that line's field set if it is kept. */
  lemma {:induction false} ParsedHeadersSnoc(raw: seq<string>, line: string)
    ensures ParsedHeaders(raw + [line]) ==
      match HeaderField(line)
      case None => ParsedHeaders(raw)
      case Some(field) => Set(ParsedHeaders(raw), field.0, field.1)
  {
    assert (raw + [line])[..|raw|] == raw;
    assert Fields(raw + [line])[..|raw|] == Fields(raw);
  }

  /** A status line or a line without ':' leaves the parsed headers as they were. */
  lemma {:induction false} DroppedLine(raw: seq<string>, line: string)
    requires StartsWith(line, "HTTP/") || ':' !in line
    ensures ParsedHeaders(raw + [line]) == ParsedHeaders(raw)
  {
    ParsedHeadersSnoc(raw, line);
  }

  /** The response `request` returns, or the exception it throws, for one exchange. */
  function Outcome(timeout: int, network: Network, encode: Encoder,
                   httpMethod: string, url: string, headers: seq<(string, string)>, body: Body): (r: Result<HttpResponse, HttpException>)
    ensures r.Failure? ==> r.error.GetMessage() == "Failed to connect to server"
    ensures r.Success? ==> r.value.statusCode >= 0
  {
    match network(url, RequestOptions(timeout, httpMethod, headers, body, encode))
    case None => Failure(NewHttpException("Failed to connect to server", 0, ""))
    case Some(raw) => Success(HttpResponse(ParseStatusCode(raw.headerLines), raw.body, ParsedHeaders(raw.headerLines)))
  }

  /**
   * The transport throws only when the network produced nothing, and then
   * with status 0 and an empty body; any status the server sent, 4xx and 5xx
   * included, comes back as an ordinary response.
   */
  lemma OutcomeFailsOnlyWithoutResponse(timeout: int, network: Network, encode: Encoder,
                                        httpMethod: string, url: string, headers: seq<(string, string)>, body: Body)
    ensures var r := Outcome(timeout, network, encode, httpMethod, url, headers, body);
      var sent := network(url, RequestOptions(timeout, httpMethod, headers, body, encode));
      && (r.Failure? <==> sent.None?)
      && (r.Failure? ==> r.error.GetStatusCode() == 0 && r.error.GetResponseBody() == "" && r.error.GetCode() == 0)
      && (r.Success? ==> r.value.body == sent.value.body && r.value.statusCode == ParseStatusCode(sent.value.headerLines))
  {
  }

  class NativeHttpClient {
    const timeout: int

    constructor (timeout: int)
      ensures this.timeout == timeout
    {
      this.timeout := timeout;
    }

    /** `parseHeaders`: fills the header array line by line. */
    method ParseHeaders(rawHeaders: seq<string>) returns (headers: Headers)
      ensures headers == ParsedHeaders(rawHeaders)
    {
      headers := [];
      for i := 0 to |rawHeaders|
        invariant headers == ParsedHeaders(rawHeaders[..i])
      {
        assert rawHeaders[..i + 1][..i] == rawHeaders[..i];
        var header := rawHeaders[i];
        if StartsWith(header, "HTTP/") {
          continue;
        }
        var parts := SplitFirst(header, ':');
        if parts.Some? {
          headers := Set(headers, Trim(parts.value.0), Trim(parts.value.1));
        }
      }
      assert rawHeaders[..|rawHeaders|] == rawHeaders;
    }

    /** `request`: shape the options, fetch, and parse what came back. */
    method Request(httpMethod: string, url: string, headers: seq<(string, string)>, body: Body,
                   encode: Encoder, network: Network) returns (r: Result<HttpResponse, HttpException>)
      ensures r == Outcome(timeout, network, encode, httpMethod, url, headers, body)
    {
      var upper := ToUpper(httpMethod);
      var httpHeaders: seq<string> := [];
      for i := 0 to |headers|
        invariant httpHeaders == HeaderLines(headers[..i])
      {
        assert headers[..i + 1] == headers[..i] + [headers[i]];
        HeaderLinesAppend(headers[..i], headers[i]);
        httpHeaders := httpHeaders + [headers[i].0 + ": " + headers[i].1];
      }
      assert headers[..|headers|] == headers;
      var options := StreamOptions(upper, Implode(CRLF, httpHeaders), timeout, true, None);
      if |body| > 0 && upper in BodyMethods {
        options := options.(content := Some(encode(body)));
      }
      var responseBody := network(url, options);
      if responseBody.None? {
        return Failure(NewHttpException("Failed to connect to server", 0, ""));
      }
      var statusCode := ParseStatusCode(responseBody.value.headerLines);
      var responseHeaders := ParseHeaders(responseBody.value.headerLines);
      r := Success(HttpResponse(statusCode, responseBody.value.body, responseHeaders));
    }
  }

  lemma HeaderLinesAppend(headers: seq<(string, string)>, h: (string, string))
    ensures HeaderLines(headers + [h]) == HeaderLines(headers) + [HeaderLine(h.0, h.1)]
  {
  }
}

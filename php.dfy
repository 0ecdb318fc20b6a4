/**
 * The PHP string built-ins the SDK relies on. A PHP string is a sequence of
 * bytes; here each `char` stands for one byte.
 */
module Php {
  import opened Wrappers

  /** `empty($s)` on a string: true for "" and for "0". */
  predicate EmptyString(s: string) {
    s == "" || s == "0"
  }

  predicate StartsWith(s: string, prefix: string) {
    |prefix| <= |s| && s[..|prefix|] == prefix
  }

  predicate OccursAt(s: string, part: string, i: nat) {
    i + |part| <= |s| && s[i..i + |part|] == part
  }

  /** `str_contains($s, $part)`. */
  predicate Contains(s: string, part: string) {
    exists i: nat | i <= |s| :: OccursAt(s, part, i)
  }

  predicate IsDigit(c: char) {
    '0' <= c <= '9'
  }

  /** The characters `trim` strips by default: space, tab, LF, CR, NUL and vertical tab. */
  predicate IsTrimChar(c: char) {
    c == ' ' || c == '\t' || c == '\n' || c == '\r' || c == '\0' || c == '\U{B}'
  }

  /** `ltrim($s)`: drops the leading trim characters. */
  function TrimLeft(s: string): (r: string)
    ensures |r| <= |s| && r == s[|s| - |r|..]
    ensures forall i :: 0 <= i < |s| - |r| ==> IsTrimChar(s[i])
    ensures r == [] || !IsTrimChar(r[0])
  {
    if s != [] && IsTrimChar(s[0]) then TrimLeft(s[1..]) else s
  }

  /** `rtrim($s)`: drops the trailing trim characters. */
  function TrimRight(s: string): (r: string)
    ensures |r| <= |s| && r == s[..|r|]
    ensures forall i :: |r| <= i < |s| ==> IsTrimChar(s[i])
    ensures r == [] || !IsTrimChar(r[|r| - 1])
  {
    if s != [] && IsTrimChar(s[|s| - 1]) then TrimRight(s[..|s| - 1]) else s
  }

  /** `trim($s)`: drops the trim characters at both ends. */
  function Trim(s: string): (r: string)
    ensures |r| <= |s|
    ensures r == [] <==> forall i :: 0 <= i < |s| ==> IsTrimChar(s[i])
    ensures r == [] || (!IsTrimChar(r[0]) && !IsTrimChar(r[|r| - 1]))
  {
    var l := TrimLeft(s);
    assert l == [] ==> forall i :: 0 <= i < |s| ==> IsTrimChar(s[i]);
    assert l != [] ==> !IsTrimChar(s[|s| - |l|]);
    TrimRight(l)
  }

  /** A string with no trim character at either end is its own trim. */
  lemma TrimUnchanged(s: string)
    requires s == [] || (!IsTrimChar(s[0]) && !IsTrimChar(s[|s| - 1]))
    ensures Trim(s) == s
  {
    assert TrimLeft(s) == s;
  }

  /** Trim characters padded around a string with non-trim ends are exactly what `trim` removes. */
  lemma {:induction false} TrimPadded(pre: string, core: string, post: string)
    requires forall i :: 0 <= i < |pre| ==> IsTrimChar(pre[i])
    requires forall i :: 0 <= i < |post| ==> IsTrimChar(post[i])
    requires core != [] && !IsTrimChar(core[0]) && !IsTrimChar(core[|core| - 1])
    ensures Trim(pre + core + post) == core
  {
    TrimLeftPadded(pre, core + post);
    assert pre + core + post == pre + (core + post);
    TrimRightPadded(core, post);
  }

  lemma {:induction false} TrimLeftPadded(pre: string, rest: string)
    requires forall i :: 0 <= i < |pre| ==> IsTrimChar(pre[i])
    requires rest != [] && !IsTrimChar(rest[0])
    ensures TrimLeft(pre + rest) == rest
  {
    if pre != [] {
      assert (pre + rest)[1..] == pre[1..] + rest;
      TrimLeftPadded(pre[1..], rest);
    } else {
      assert pre + rest == rest;
    }
  }

  lemma {:induction false} TrimRightPadded(rest: string, post: string)
    requires forall i :: 0 <= i < |post| ==> IsTrimChar(post[i])
    requires rest != [] && !IsTrimChar(rest[|rest| - 1])
    ensures TrimRight(rest + post) == rest
  {
    if post != [] {
      var shorter := post[..|post| - 1];
      assert (rest + post)[..|rest + post| - 1] == rest + shorter;
      TrimRightPadded(rest, shorter);
    } else {
      assert rest + post == rest;
    }
  }

  /** `rtrim($s, $c)` with a single character: drops every trailing `c`. */
  function RTrimChar(s: string, c: char): (r: string)
    ensures |r| <= |s| && r == s[..|r|]
    ensures forall i :: |r| <= i < |s| ==> s[i] == c
    ensures r == [] || r[|r| - 1] != c
  {
    if s != [] && s[|s| - 1] == c then RTrimChar(s[..|s| - 1], c) else s
  }

  /** `strtolower` on one byte: only ASCII letters change. */
  function LowerChar(c: char): char {
    if 'A' <= c <= 'Z' then (c as int + 32) as char else c
  }

  /** `strtoupper` on one byte: only ASCII letters change. */
  function UpperChar(c: char): char {
    if 'a' <= c <= 'z' then (c as int - 32) as char else c
  }

  function ToLower(s: string): (r: string)
    ensures |r| == |s| && forall i :: 0 <= i < |s| ==> r[i] == LowerChar(s[i])
  {
    if s == [] then [] else [LowerChar(s[0])] + ToLower(s[1..])
  }

  function ToUpper(s: string): (r: string)
    ensures |r| == |s| && forall i :: 0 <= i < |s| ==> r[i] == UpperChar(s[i])
  {
    if s == [] then [] else [UpperChar(s[0])] + ToUpper(s[1..])
  }

  /** Lower-casing forgets exactly the case that upper- and lower-casing introduce. */
  lemma LowerIgnoresCase(s: string)
    ensures ToLower(ToUpper(s)) == ToLower(s)
    ensures ToLower(ToLower(s)) == ToLower(s)
  {
    assert forall i :: 0 <= i < |s| ==> ToLower(ToUpper(s))[i] == ToLower(s)[i];
    assert forall i :: 0 <= i < |s| ==> ToLower(ToLower(s))[i] == ToLower(s)[i];
  }

  /** A word of ASCII capital letters, such as an HTTP method name. */
  predicate IsUpperWord(w: string) {
    forall i :: 0 <= i < |w| ==> 'A' <= w[i] <= 'Z'
  }

  lemma UpperCharMatches(c: char, w: char)
    requires 'A' <= w <= 'Z'
    ensures UpperChar(c) == w <==> LowerChar(c) == LowerChar(w)
  {
  }

  /** Upper-casing gives a capital word exactly when lower-casing gives its lower-case form. */
  lemma {:induction false} UpperMatchesIgnoringCase(m: string, w: string)
    requires IsUpperWord(w)
    ensures ToUpper(m) == w <==> ToLower(m) == ToLower(w)
  {
    if |m| == |w| {
      forall i | 0 <= i < |m| ensures UpperChar(m[i]) == w[i] <==> LowerChar(m[i]) == LowerChar(w[i]) {
        UpperCharMatches(m[i], w[i]);
      }
      if ToLower(m) == ToLower(w) {
        assert forall i :: 0 <= i < |m| ==> ToUpper(m)[i] == w[i];
      }
      if ToUpper(m) == w {
        assert forall i :: 0 <= i < |m| ==> ToLower(m)[i] == ToLower(w)[i];
      }
    } else {
      assert |ToUpper(m)| != |w|;
      assert |ToLower(m)| != |ToLower(w)|;
    }
  }

  /** Position of the first `c` in `s`. */
  function IndexOf(s: string, c: char): (r: Option<nat>)
    ensures r.None? <==> c !in s
    ensures r.Some? ==> r.value < |s| && s[r.value] == c && c !in s[..r.value]
  {
    if s == [] then None
    else if s[0] == c then Some(0)
    else match IndexOf(s[1..], c)
      case None => None
      case Some(i) =>
        assert s[..i + 1] == [s[0]] + s[1..][..i];
        Some(i + 1)
  }

  /**
   * `explode($c, $s, 2)` when it yields two parts: the text before the first
   * `c` and everything after it; None when `c` does not occur (one part).
   */
  function SplitFirst(s: string, c: char): (r: Option<(string, string)>)
    ensures r.None? <==> c !in s
    ensures r.Some? ==> s == r.value.0 + [c] + r.value.1 && c !in r.value.0
  {
    match IndexOf(s, c)
    case None => None
    case Some(i) =>
      assert s == s[..i] + [c] + s[i + 1..];
      Some((s[..i], s[i + 1..]))
  }

  /** `implode($sep, $parts)`. */
  function Implode(sep: string, parts: seq<string>): string
  {
    if |parts| == 0 then ""
    else if |parts| == 1 then parts[0]
    else parts[0] + sep + Implode(sep, parts[1..])
  }

  function DigitChar(d: nat): (c: char)
    requires d < 10
    ensures IsDigit(c)
  {
    ('0' as int + d) as char
  }

  function DigitValue(c: char): nat
    requires IsDigit(c)
  {
    c as int - '0' as int
  }

  /** The decimal digits of `n`, most significant first, without leading zeros. */
  function NatToString(n: nat): (r: string)
    ensures |r| > 0 && forall i :: 0 <= i < |r| ==> IsDigit(r[i])
    ensures n > 0 ==> r[0] != '0'
  {
    if n < 10 then [DigitChar(n)] else NatToString(n / 10) + [DigitChar(n % 10)]
  }

  /** `sprintf('%d', $i)`. */
  function IntToString(i: int): string
  {
    if i < 0 then "-" + NatToString(-i) else NatToString(i)
  }

  /** `(int) $s` for a string of decimal digits (leading zeros allowed). */
  function DecimalValue(s: string): nat
    requires forall i :: 0 <= i < |s| ==> IsDigit(s[i])
  {
    if s == [] then 0 else DecimalValue(s[..|s| - 1]) * 10 + DigitValue(s[|s| - 1])
  }

  /** Printing a code with `%d` and reading it back with `(int)` gives the code. */
  lemma {:induction false} DecimalValueOfNatToString(n: nat)
    ensures DecimalValue(NatToString(n)) == n
  {
    if n >= 10 {
      var s := NatToString(n);
      assert s[..|s| - 1] == NatToString(n / 10);
      DecimalValueOfNatToString(n / 10);
    }
  }
}

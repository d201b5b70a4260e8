/**
 * The JavaScript string operations the services and the client rely on,
 * over Dafny strings (sequences of Unicode scalar values).
 */
module Text {
  import opened Wrappers

  function Min(a: int, b: int): (r: int)
    ensures r <= a && r <= b && (r == a || r == b)
  {
    if a <= b then a else b
  }

  function Max(a: int, b: int): (r: int)
    ensures a <= r && b <= r && (r == a || r == b)
  {
    if a <= b then b else a
  }

  /** `s.substring(0, n)`: the first `n` characters, or all of `s` when it is shorter. */
  function Take(s: string, n: nat): (r: string)
    ensures r <= s
    ensures |r| == Min(|s|, n)
  {
    if |s| <= n then s else s[..n]
  }

  // ---------------------------------------------------------------------
  // Decimal numerals (Number.prototype.toString on integers)
  // ---------------------------------------------------------------------

  predicate IsDigit(c: char) { '0' <= c <= '9' }

  predicate AllDigits(s: string) { forall i :: 0 <= i < |s| ==> IsDigit(s[i]) }

  function DigitValue(c: char): (d: nat)
    requires IsDigit(c)
    ensures d < 10
  {
    (c as int) - ('0' as int)
  }

  function DigitChar(d: nat): (c: char)
    requires d < 10
    ensures IsDigit(c) && DigitValue(c) == d
  {
    (('0' as int) + d) as char
  }

  /** A canonical decimal numeral: only digits, and no leading zero unless it is "0". */
  predicate IsNumeral(s: string)
  {
    |s| >= 1 && AllDigits(s) && (s[0] == '0' ==> |s| == 1)
  }

  /**
   * `n.toString()` for a non-negative integer: its shortest decimal numeral.
   * Numbers from 10^21 on, which JavaScript prints with an exponent, are not modelled.
   */
  function NatToString(n: nat): (r: string)
    ensures IsNumeral(r)
    ensures r == "0" <==> n == 0
    decreases n
  {
    if n < 10 then [DigitChar(n)] else NatToString(n / 10) + [DigitChar(n % 10)]
  }

  /** The value of a string of decimal digits. */
  function ParseDigits(s: string): (r: nat)
    requires AllDigits(s)
    decreases |s|
  {
    if s == [] then 0 else 10 * ParseDigits(s[..|s| - 1]) + DigitValue(s[|s| - 1])
  }

  /** Reading a rendered number back gives the number. */
  lemma {:induction false} ParseNatToString(n: nat)
    ensures ParseDigits(NatToString(n)) == n
  {
    if n >= 10 {
      var s := NatToString(n);
      assert s[..|s| - 1] == NatToString(n / 10);
      ParseNatToString(n / 10);
    }
  }

  lemma {:induction false} ParseDigitsPositive(s: string)
    requires |s| >= 1 && AllDigits(s) && s[0] != '0'
    ensures ParseDigits(s) >= 1
  {
    if |s| > 1 {
      ParseDigitsPositive(s[..|s| - 1]);
    }
  }

  /** Rendering the value of a canonical numeral gives the numeral back. */
  lemma {:induction false} NatToStringParse(s: string)
    requires IsNumeral(s)
    ensures NatToString(ParseDigits(s)) == s
  {
    var last := s[|s| - 1];
    if |s| == 1 {
      assert DigitChar(DigitValue(last)) == last;
    } else {
      var init := s[..|s| - 1];
      ParseDigitsPositive(init);
      NatToStringParse(init);
      var n := ParseDigits(s);
      assert n / 10 == ParseDigits(init) && n % 10 == DigitValue(last);
      assert DigitChar(DigitValue(last)) == last;
      assert s == init + [last];
    }
  }

  /** `i.toString()` for any integer: a minus sign before the magnitude when negative. */
  function IntToString(i: int): (r: string)
    ensures i >= 0 ==> r == NatToString(i)
    ensures i < 0 ==> r == "-" + NatToString(-i)
  {
    if i < 0 then "-" + NatToString(-i) else NatToString(i)
  }

  /** `s.padStart(len, fill)` with a one-character pad string. */
  function PadStart(s: string, len: nat, fill: char): (r: string)
    ensures |r| == Max(|s|, len)
    ensures r[|r| - |s|..] == s
    ensures forall i :: 0 <= i < |r| - |s| ==> r[i] == fill
  {
    if |s| >= len then s else seq(len - |s|, _ => fill) + s
  }

  // ---------------------------------------------------------------------
  // String.prototype.trim
  // ---------------------------------------------------------------------

  /** ECMAScript WhiteSpace and LineTerminator code points, which `trim` removes. */
  predicate IsJsWhitespace(c: char)
  {
    || c == '\t' || c == '\n' || c == '\U{000B}' || c == '\U{000C}' || c == '\r'
    || c == ' ' || c == '\U{00A0}' || c == '\U{1680}'
    || ('\U{2000}' <= c <= '\U{200A}')
    || c == '\U{2028}' || c == '\U{2029}' || c == '\U{202F}' || c == '\U{205F}'
    || c == '\U{3000}' || c == '\U{FEFF}'
  }

  predicate AllWhitespace(s: string) { forall i :: 0 <= i < |s| ==> IsJsWhitespace(s[i]) }

  /** Drops the leading whitespace: what remains starts with a non-whitespace character. */
  function TrimStart(s: string): (r: string)
    ensures |r| <= |s| && r == s[|s| - |r|..]
    ensures AllWhitespace(s[..|s| - |r|])
    ensures r != [] ==> !IsJsWhitespace(r[0])
    decreases |s|
  {
    if s != [] && IsJsWhitespace(s[0]) then TrimStart(s[1..]) else s
  }

  /** Drops the trailing whitespace: what remains ends with a non-whitespace character. */
  function TrimEnd(s: string): (r: string)
    ensures r <= s
    ensures AllWhitespace(s[|r|..])
    ensures r != [] ==> !IsJsWhitespace(r[|r| - 1])
    decreases |s|
  {
    if s != [] && IsJsWhitespace(s[|s| - 1]) then TrimEnd(s[..|s| - 1]) else s
  }

  /** `s.trim()`: neither end of what remains is whitespace. */
  function Trim(s: string): (r: string)
    ensures |r| <= |s|
    ensures r != [] ==> !IsJsWhitespace(r[0]) && !IsJsWhitespace(r[|r| - 1])
  {
    TrimEnd(TrimStart(s))
  }

  /** `s.trim()` is empty, the falsy case of `!s.trim()`, exactly when `s` is all whitespace. */
  lemma TrimEmptyIffBlank(s: string)
    ensures Trim(s) == [] <==> AllWhitespace(s)
  {
    var t := TrimStart(s);
    if !AllWhitespace(s) {
      var k :| 0 <= k < |s| && !IsJsWhitespace(s[k]);
      assert t[k - (|s| - |t|)] == s[k];
    }
  }

  // ---------------------------------------------------------------------
  // Searching, replacing, splitting
  // ---------------------------------------------------------------------

  /** True when `pat` occurs in `s` at position `k`. */
  predicate OccursAt(s: string, pat: string, k: nat)
  {
    k + |pat| <= |s| && s[k..k + |pat|] == pat
  }

  /** `s.indexOf(pat, from)`: the first position at or after `from` where `pat` occurs. */
  function IndexOf(s: string, pat: string, from: nat): (r: Option<nat>)
    ensures r.Some? ==> from <= r.value && OccursAt(s, pat, r.value)
    ensures forall k :: from <= k && (r.None? || k < r.value) ==> !OccursAt(s, pat, k)
    decreases |s| - from
  {
    if from + |pat| > |s| then None
    else if s[from..from + |pat|] == pat then Some(from)
    else IndexOf(s, pat, from + 1)
  }

  /** `s.replace(pat, '')`: removes the first occurrence of `pat`, if any. */
  function RemoveFirst(s: string, pat: string): (r: string)
    ensures IndexOf(s, pat, 0).None? ==> r == s
    ensures IndexOf(s, pat, 0).Some? ==>
      var i := IndexOf(s, pat, 0).value; |r| == |s| - |pat| && r[..i] == s[..i] && r[i..] == s[i + |pat|..]
  {
    match IndexOf(s, pat, 0)
    case None => s
    case Some(i) => s[..i] + s[i + |pat|..]
  }

  /** When `s` starts with `pat`, `replace` removes exactly that prefix. */
  lemma RemoveFirstOfPrefix(s: string, pat: string)
    requires pat <= s
    ensures RemoveFirst(s, pat) == s[|pat|..]
  {
    assert OccursAt(s, pat, 0);
  }

  /**
   * The last element of `s.split(':')`: the text after the final colon,
   * or all of `s` when it has none.
   */
  function LastField(s: string): (r: string)
    ensures ':' !in r
    ensures |r| <= |s| && r == s[|s| - |r|..]
    ensures |r| < |s| ==> s[|s| - |r| - 1] == ':'
    decreases |s|
  {
    if s == [] || s[|s| - 1] == ':' then [] else LastField(s[..|s| - 1]) + [s[|s| - 1]]
  }

  /** A colon-free tail after a colon is exactly the last field, whatever precedes it. */
  lemma LastFieldAfterColon(x: string, y: string)
    requires ':' !in y
    ensures LastField(x + ":" + y) == y
  {
    var s := x + ":" + y;
    assert s[|s| - |y| - 1] == ':';
    assert s[|s| - |y|..] == y;
  }
}

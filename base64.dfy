/**
 * Base64 as the browser's `btoa` and `atob` implement it: `Encode` is the
 * padded encoding of section 4 of RFC 4648; `Decode` is the WHATWG
 * "forgiving-base64 decode" that `atob` runs, which skips ASCII whitespace,
 * accepts the input with or without its padding and ignores the unused low
 * bits of the last character.
 */
module Base64 {
  import opened Wrappers
  import opened Bytes

  /** The 64 characters of the RFC 4648 section 4 alphabet. */
  predicate InAlphabet(c: char)
  {
    ('A' <= c <= 'Z') || ('a' <= c <= 'z') || ('0' <= c <= '9') || c == '+' || c == '/'
  }

  predicate AllInAlphabet(s: string) { forall i :: 0 <= i < |s| ==> InAlphabet(s[i]) }

  /** The character for a six-bit value: A-Z, a-z, 0-9, '+', '/'. */
  function CharOf(v: nat): (c: char)
    requires v < 64
    ensures InAlphabet(c)
  {
    if v < 26 then (('A' as int) + v) as char
    else if v < 52 then (('a' as int) + v - 26) as char
    else if v < 62 then (('0' as int) + v - 52) as char
    else if v == 62 then '+'
    else '/'
  }

  /** The six-bit value of an alphabet character: the inverse of `CharOf`. */
  function ValueOf(c: char): (v: nat)
    requires InAlphabet(c)
    ensures v < 64 && CharOf(v) == c
  {
    if 'A' <= c <= 'Z' then (c as int) - ('A' as int)
    else if 'a' <= c <= 'z' then (c as int) - ('a' as int) + 26
    else if '0' <= c <= '9' then (c as int) - ('0' as int) + 52
    else if c == '+' then 62
    else 63
  }

  lemma ValueOfCharOf(v: nat)
    requires v < 64
    ensures ValueOf(CharOf(v)) == v
  {
  }

  /** Four characters for every three bytes, then two for one more byte or three for two more. */
  function UnpaddedLength(n: nat): (k: nat)
    ensures k % 4 == (if n % 3 == 0 then 0 else n % 3 + 1)
    ensures k == 0 <==> n == 0
  {
    if n == 0 then 0 else if n == 1 then 2 else if n == 2 then 3 else 4 + UnpaddedLength(n - 3)
  }

  /** The four characters for three bytes: their 24 bits, six at a time. */
  function EncodeTriple(b0: Byte, b1: Byte, b2: Byte): (r: string)
    ensures |r| == 4 && AllInAlphabet(r)
  {
    [CharOf(b0 / 4), CharOf(b0 % 4 * 16 + b1 / 16), CharOf(b1 % 16 * 4 + b2 / 64), CharOf(b2 % 64)]
  }

  /** The two characters for a last single byte: its eight bits, then four zero bits. */
  function EncodeSingle(b0: Byte): (r: string)
    ensures |r| == 2 && AllInAlphabet(r)
    ensures ValueOf(r[1]) % 16 == 0
  {
    [CharOf(b0 / 4), CharOf(b0 % 4 * 16)]
  }

  /** The three characters for a last pair of bytes: their sixteen bits, then two zero bits. */
  function EncodePair(b0: Byte, b1: Byte): (r: string)
    ensures |r| == 3 && AllInAlphabet(r)
    ensures ValueOf(r[2]) % 4 == 0
  {
    [CharOf(b0 / 4), CharOf(b0 % 4 * 16 + b1 / 16), CharOf(b1 % 16 * 4)]
  }

  /**
   * The characters of the encoding without its '=' padding: four for every
   * three bytes, then two for a last single byte or three for a last pair.
   */
  function EncodeUnpadded(b: seq<Byte>): (r: string)
    ensures AllInAlphabet(r)
    ensures |r| == UnpaddedLength(|b|)
    ensures |b| % 3 == 1 ==> ValueOf(r[|r| - 1]) % 16 == 0
    ensures |b| % 3 == 2 ==> ValueOf(r[|r| - 1]) % 4 == 0
    decreases |b|
  {
    if |b| == 0 then []
    else if |b| == 1 then EncodeSingle(b[0])
    else if |b| == 2 then EncodePair(b[0], b[1])
    else EncodeTriple(b[0], b[1], b[2]) + EncodeUnpadded(b[3..])
  }

  /** The '=' characters that complete the last group of four. */
  function Padding(n: nat): (r: string)
    ensures (UnpaddedLength(n) + |r|) % 4 == 0
    ensures forall i :: 0 <= i < |r| ==> r[i] == '='
  {
    if n % 3 == 1 then "==" else if n % 3 == 2 then "=" else ""
  }

  /** `btoa` on a binary string: the padded base64 encoding of its bytes. */
  function Encode(b: seq<Byte>): (r: string)
    ensures |r| % 4 == 0
    ensures forall i :: 0 <= i < |r| ==> InAlphabet(r[i]) || r[i] == '='
  {
    var u, p := EncodeUnpadded(b), Padding(|b|);
    assert forall i :: |u| <= i < |u| + |p| ==> (u + p)[i] == p[i - |u|];
    u + p
  }

  /** The ASCII whitespace that forgiving-base64 decoding skips. */
  predicate IsAsciiWhitespace(c: char)
  {
    c == '\t' || c == '\n' || c == '\U{000C}' || c == '\r' || c == ' '
  }

  /** The input with its ASCII whitespace left out and every other character kept, in order. */
  function RemoveWhitespace(s: string): (r: string)
    ensures forall c :: c in r <==> c in s && !IsAsciiWhitespace(c)
    ensures (forall i :: 0 <= i < |s| ==> !IsAsciiWhitespace(s[i])) ==> r == s
    decreases |s|
  {
    if s == [] then []
    else if IsAsciiWhitespace(s[0]) then RemoveWhitespace(s[1..])
    else [s[0]] + RemoveWhitespace(s[1..])
  }

  /** Whitespace removal works piecewise, so the kept characters stay in their order. */
  lemma {:induction false} RemoveWhitespaceAppend(a: string, b: string)
    ensures RemoveWhitespace(a + b) == RemoveWhitespace(a) + RemoveWhitespace(b)
    decreases |a|
  {
    if a == [] {
      assert a + b == b;
    } else {
      assert (a + b)[0] == a[0];
      assert (a + b)[1..] == a[1..] + b;
      RemoveWhitespaceAppend(a[1..], b);
    }
  }

  /** A single character is dropped exactly when it is ASCII whitespace. */
  lemma RemoveWhitespaceOne(c: char)
    ensures RemoveWhitespace([c]) == if IsAsciiWhitespace(c) then [] else [c]
  {
  }

  /** `atob` reads a text with whitespace inserted anywhere as the text without it. */
  lemma DecodeSkipsWhitespace(a: string, w: char, b: string)
    requires IsAsciiWhitespace(w)
    ensures Decode(a + [w] + b) == Decode(a + b)
  {
    RemoveWhitespaceSkips(a, w, b);
  }

  /** Removing whitespace from a text with one more whitespace character gives the same result. */
  lemma RemoveWhitespaceSkips(a: string, w: char, b: string)
    requires IsAsciiWhitespace(w)
    ensures RemoveWhitespace(a + [w] + b) == RemoveWhitespace(a + b)
  {
    RemoveWhitespaceAppend(a + [w], b);
    RemoveWhitespaceAppend(a, [w]);
    RemoveWhitespaceOne(w);
    assert RemoveWhitespace(a) + [] == RemoveWhitespace(a);
    RemoveWhitespaceAppend(a, b);
  }

  /** When the length is a multiple of four, one or two trailing '=' are dropped. */
  function StripPadding(d: string): (r: string)
    ensures r <= d && |d| - 2 <= |r|
    ensures forall i :: |r| <= i < |d| ==> d[i] == '='
    ensures |d| % 4 != 0 ==> r == d
  {
    if |d| % 4 != 0 then d
    else if |d| >= 2 && d[|d| - 2..] == "==" then d[..|d| - 2]
    else if |d| >= 1 && d[|d| - 1] == '=' then d[..|d| - 1]
    else d
  }

  /** The byte of a last pair of characters; the four leftover bits are dropped. */
  function DecodeDuo(d: string): (r: seq<Byte>)
    requires |d| == 2 && AllInAlphabet(d)
    ensures |r| == 1
  {
    [ValueOf(d[0]) * 4 + ValueOf(d[1]) / 16]
  }

  /** The two bytes of a last triple of characters; the two leftover bits are dropped. */
  function DecodeTrio(d: string): (r: seq<Byte>)
    requires |d| == 3 && AllInAlphabet(d)
    ensures |r| == 2
  {
    [ValueOf(d[0]) * 4 + ValueOf(d[1]) / 16, ValueOf(d[1]) % 16 * 16 + ValueOf(d[2]) / 4]
  }

  /** The three bytes of a group of four alphabet characters. */
  function DecodeQuad(d: string): (r: seq<Byte>)
    requires |d| == 4 && AllInAlphabet(d)
    ensures |r| == 3
  {
    [ValueOf(d[0]) * 4 + ValueOf(d[1]) / 16,
     ValueOf(d[1]) % 16 * 16 + ValueOf(d[2]) / 4,
     ValueOf(d[2]) % 4 * 64 + ValueOf(d[3])]
  }

  /**
   * The bytes of alphabet characters, six bits each: three bytes per group of
   * four, one byte from a last pair and two from a last triple (the leftover
   * low bits are discarded).
   */
  function DecodeGroups(d: string): (r: seq<Byte>)
    requires AllInAlphabet(d) && |d| % 4 != 1
    ensures |r| == |d| / 4 * 3 + (if |d| % 4 == 0 then 0 else |d| % 4 - 1)
    decreases |d|
  {
    if |d| == 0 then []
    else if |d| == 2 then DecodeDuo(d)
    else if |d| == 3 then DecodeTrio(d)
    else DecodeQuad(d[..4]) + DecodeGroups(d[4..])
  }

  /**
   * `atob`: the bytes a base64 text stands for, or None (a thrown
   * InvalidCharacterError) when, once whitespace and padding are gone, a
   * character is outside the alphabet or the length leaves a remainder of one.
   */
  function Decode(s: string): (r: Option<seq<Byte>>)
    ensures r.None? <==>
      var d := StripPadding(RemoveWhitespace(s)); |d| % 4 == 1 || !AllInAlphabet(d)
  {
    var d := StripPadding(RemoveWhitespace(s));
    if |d| % 4 == 1 || !AllInAlphabet(d) then None else Some(DecodeGroups(d))
  }

  /** The six-bit values of three bytes put back together give the bytes. */
  lemma RejoinSixBitValues(b0: Byte, b1: Byte, b2: Byte)
    ensures var v0, v1, v2, v3 := b0 / 4, b0 % 4 * 16 + b1 / 16, b1 % 16 * 4 + b2 / 64, b2 % 64;
      && v0 * 4 + v1 / 16 == b0
      && v1 % 16 * 16 + v2 / 4 == b1
      && v2 % 4 * 64 + v3 == b2
  {
  }

  /** One group of three bytes survives the trip through four characters. */
  lemma DecodeEncodeTriple(b0: Byte, b1: Byte, b2: Byte)
    ensures DecodeQuad(EncodeTriple(b0, b1, b2)) == [b0, b1, b2]
  {
    var v0, v1, v2, v3 := b0 / 4, b0 % 4 * 16 + b1 / 16, b1 % 16 * 4 + b2 / 64, b2 % 64;
    var e := EncodeTriple(b0, b1, b2);
    ValueOfCharOf(v0);
    ValueOfCharOf(v1);
    ValueOfCharOf(v2);
    ValueOfCharOf(v3);
    assert ValueOf(e[0]) == v0 && ValueOf(e[1]) == v1 && ValueOf(e[2]) == v2 && ValueOf(e[3]) == v3;
    RejoinSixBitValues(b0, b1, b2);
  }

  lemma DecodeGroupsOfEncodedGroup(b0: Byte, b1: Byte, b2: Byte, rest: string)
    requires AllInAlphabet(rest) && |rest| % 4 != 1
    ensures var g := EncodeTriple(b0, b1, b2);
      AllInAlphabet(g + rest) && |g + rest| % 4 != 1 &&
      DecodeGroups(g + rest) == [b0, b1, b2] + DecodeGroups(rest)
  {
    var g := EncodeTriple(b0, b1, b2);
    assert (g + rest)[..4] == g && (g + rest)[4..] == rest;
    DecodeEncodeTriple(b0, b1, b2);
  }

  lemma DecodeEncodeSingle(b0: Byte)
    ensures DecodeDuo(EncodeSingle(b0)) == [b0]
  {
    ValueOfCharOf(b0 / 4);
    ValueOfCharOf(b0 % 4 * 16);
  }

  lemma DecodeEncodePair(b0: Byte, b1: Byte)
    ensures DecodeTrio(EncodePair(b0, b1)) == [b0, b1]
  {
    ValueOfCharOf(b0 / 4);
    ValueOfCharOf(b0 % 4 * 16 + b1 / 16);
    ValueOfCharOf(b1 % 16 * 4);
  }

  lemma SplitThree(b: seq<Byte>)
    requires |b| >= 3
    ensures b == [b[0], b[1], b[2]] + b[3..]
  {
  }

  /** The unpadded characters decode back to the bytes. */
  lemma {:induction false} DecodeEncodeGroups(b: seq<Byte>)
    ensures DecodeGroups(EncodeUnpadded(b)) == b
    decreases |b|
  {
    if |b| == 1 {
      assert b == [b[0]];
      DecodeEncodeSingle(b[0]);
    } else if |b| == 2 {
      assert b == [b[0], b[1]];
      DecodeEncodePair(b[0], b[1]);
    } else if |b| >= 3 {
      DecodeEncodeGroups(b[3..]);
      DecodeGroupsOfEncodedGroup(b[0], b[1], b[2], EncodeUnpadded(b[3..]));
      SplitThree(b);
    }
  }

  lemma StripNoPadding(u: string)
    requires AllInAlphabet(u) && |u| % 4 == 0
    ensures StripPadding(u) == u
  {
    if |u| > 0 {
      assert InAlphabet(u[|u| - 1]) && InAlphabet(u[|u| - 2]);
    }
  }

  lemma StripOnePad(u: string)
    requires AllInAlphabet(u) && |u| % 4 == 3
    ensures StripPadding(u + "=") == u
  {
    var e := u + "=";
    assert e[|e| - 2] == u[|u| - 1] && InAlphabet(u[|u| - 1]);
    assert e[..|e| - 1] == u;
  }

  lemma StripTwoPads(u: string)
    requires |u| % 4 == 2
    ensures StripPadding(u + "==") == u
  {
    var e := u + "==";
    assert e[|e| - 2..] == "==";
    assert e[..|e| - 2] == u;
  }

  /** Removing the padding of an encoding leaves its unpadded characters. */
  lemma StripPaddingOfEncode(b: seq<Byte>)
    ensures StripPadding(Encode(b)) == EncodeUnpadded(b)
  {
    var u := EncodeUnpadded(b);
    if |b| % 3 == 0 {
      assert Encode(b) == u + "" == u;
      StripNoPadding(u);
    } else if |b| % 3 == 1 {
      StripTwoPads(u);
    } else {
      StripOnePad(u);
    }
  }

  /** `atob(btoa(x)) == x`: decoding an encoding gives the bytes back. */
  lemma DecodeEncode(b: seq<Byte>)
    ensures Decode(Encode(b)) == Some(b)
  {
    var e := Encode(b);
    assert RemoveWhitespace(e) == e;
    StripPaddingOfEncode(b);
    DecodeEncodeGroups(b);
  }

  /** No encoding contains a colon, so it is always a single ':'-separated field. */
  lemma EncodeHasNoColon(b: seq<Byte>)
    ensures ':' !in Encode(b)
  {
  }
}

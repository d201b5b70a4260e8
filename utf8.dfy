/**
 * UTF-8 (section 3 of RFC 3629) over Unicode scalar values.
 *
 * The crypto layer turns text into bytes with `unescape(encodeURIComponent(t))`
 * and back with `decodeURIComponent(escape(b))`; on text of scalar values the
 * first is `Encode` and the second is `Decode`, which refuses (JavaScript
 * throws a URIError) overlong forms, surrogates, values above U+10FFFF, bad
 * lead or continuation bytes and truncated sequences.
 */
module Utf8 {
  import opened Wrappers
  import opened Bytes

  /** A continuation byte: 10xxxxxx. */
  predicate IsContinuation(b: Byte) { 0x80 <= b < 0xC0 }

  /** The six payload bits of a continuation byte. */
  function Low6(b: Byte): (r: int)
    ensures IsContinuation(b) ==> 0 <= r < 64
  {
    b as int - 0x80
  }

  /** A code point that a `char` can hold: not a surrogate, at most U+10FFFF. */
  predicate IsScalar(cp: int) { 0 <= cp < 0xD800 || 0xE000 <= cp < 0x11_0000 }

  /** The bytes of one character: one to four, by the size of its code point. */
  function EncodeChar(c: char): (r: seq<Byte>)
    ensures 1 <= |r| <= 4
    ensures |r| == 1 <==> c as int < 0x80
  {
    var cp := c as int;
    if cp < 0x80 then
      [cp]
    else if cp < 0x800 then
      [0xC0 + cp / 64, 0x80 + cp % 64]
    else if cp < 0x1_0000 then
      [0xE0 + cp / 4096, 0x80 + cp / 64 % 64, 0x80 + cp % 64]
    else
      [0xF0 + cp / 262144, 0x80 + cp / 4096 % 64, 0x80 + cp / 64 % 64, 0x80 + cp % 64]
  }

  /** The UTF-8 form of a text: its characters' bytes, in order. */
  function Encode(s: string): (r: seq<Byte>)
    ensures |s| <= |r| <= 4 * |s|
    ensures (forall i :: 0 <= i < |s| ==> s[i] as int < 0x80) ==> |r| == |s|
    decreases |s|
  {
    if s == [] then [] else EncodeChar(s[0]) + Encode(s[1..])
  }

  /**
   * Reads the character at the head of `b`: the character and how many bytes
   * it took, or None when those bytes are not the UTF-8 form of a character.
   */
  function DecodeChar(b: seq<Byte>): (r: Option<(char, nat)>)
    requires |b| >= 1
    ensures r.Some? ==> 1 <= r.value.1 <= |b|
  {
    var b0 := b[0] as int;
    if b0 < 0x80 then
      Some((b0 as char, 1))
    else if 0xC0 <= b0 < 0xE0 then
      if |b| < 2 || !IsContinuation(b[1]) then None
      else
        var cp := (b0 - 0xC0) * 64 + Low6(b[1]);
        if cp < 0x80 then None else Some((cp as char, 2))
    else if 0xE0 <= b0 < 0xF0 then
      if |b| < 3 || !IsContinuation(b[1]) || !IsContinuation(b[2]) then None
      else
        var cp := (b0 - 0xE0) * 4096 + Low6(b[1]) * 64 + Low6(b[2]);
        if cp < 0x800 || !IsScalar(cp) then None else Some((cp as char, 3))
    else if 0xF0 <= b0 < 0xF8 then
      if |b| < 4 || !IsContinuation(b[1]) || !IsContinuation(b[2]) || !IsContinuation(b[3]) then None
      else
        var cp := (b0 - 0xF0) * 262144 + Low6(b[1]) * 4096 + Low6(b[2]) * 64 + Low6(b[3]);
        if cp < 0x1_0000 || !IsScalar(cp) then None else Some((cp as char, 4))
    else
      None
  }

  /** Decodes a whole byte sequence, or None when any part of it is not UTF-8. */
  function Decode(b: seq<Byte>): (r: Option<string>)
    ensures r.Some? ==> |r.value| <= |b|
    decreases |b|
  {
    if b == [] then Some([])
    else
      match DecodeChar(b)
      case None => None
      case Some((c, n)) =>
        match Decode(b[n..])
        case None => None
        case Some(rest) => Some([c] + rest)
  }

  /** The head of a character's encoding decodes to that character, whatever follows. */
  lemma DecodeEncodeChar(c: char, rest: seq<Byte>)
    ensures DecodeChar(EncodeChar(c) + rest) == Some((c, |EncodeChar(c)|))
  {
    var cp := c as int;
    if cp < 0x80 {
    } else if cp < 0x800 {
      DecodeEncodeChar2(c, rest);
    } else if cp < 0x1_0000 {
      DecodeEncodeChar3(c, rest);
    } else {
      DecodeEncodeChar4(c, rest);
    }
  }

  lemma DecodeEncodeChar2(c: char, rest: seq<Byte>)
    requires 0x80 <= c as int < 0x800
    ensures DecodeChar(EncodeChar(c) + rest) == Some((c, 2))
  {
    var cp := c as int;
    var b := EncodeChar(c) + rest;
    assert b[0] as int == 0xC0 + cp / 64 && b[1] as int == 0x80 + cp % 64;
    assert (b[0] as int - 0xC0) * 64 + Low6(b[1]) == cp;
  }

  lemma DecodeEncodeChar3(c: char, rest: seq<Byte>)
    requires 0x800 <= c as int < 0x1_0000
    ensures DecodeChar(EncodeChar(c) + rest) == Some((c, 3))
  {
    var cp := c as int;
    var b := EncodeChar(c) + rest;
    assert b[0] as int == 0xE0 + cp / 4096;
    assert b[1] as int == 0x80 + cp / 64 % 64 && b[2] as int == 0x80 + cp % 64;
    assert (cp / 4096) * 4096 + (cp / 64 % 64) * 64 + cp % 64 == cp;
    assert (b[0] as int - 0xE0) * 4096 + Low6(b[1]) * 64 + Low6(b[2]) == cp;
  }

  lemma DecodeEncodeChar4(c: char, rest: seq<Byte>)
    requires 0x1_0000 <= c as int
    ensures DecodeChar(EncodeChar(c) + rest) == Some((c, 4))
  {
    var cp := c as int;
    var b := EncodeChar(c) + rest;
    assert b[0] as int == 0xF0 + cp / 262144;
    assert b[1] as int == 0x80 + cp / 4096 % 64;
    assert b[2] as int == 0x80 + cp / 64 % 64 && b[3] as int == 0x80 + cp % 64;
    JoinFour(cp);
    assert (b[0] as int - 0xF0) * 262144 + Low6(b[1]) * 4096 + Low6(b[2]) * 64 + Low6(b[3]) == cp;
  }

  /** Decoding the encoding of any text gives the text back. */
  lemma {:induction false} DecodeEncode(s: string)
    ensures Decode(Encode(s)) == Some(s)
  {
    if s != [] {
      var e := EncodeChar(s[0]);
      DecodeEncodeChar(s[0], Encode(s[1..]));
      assert (e + Encode(s[1..]))[|e|..] == Encode(s[1..]);
      DecodeEncode(s[1..]);
      assert [s[0]] + s[1..] == s;
    }
  }

  /** Whatever bytes a character was decoded from are that character's encoding. */
  lemma EncodeDecodedChar(b: seq<Byte>)
    requires |b| >= 1 && DecodeChar(b).Some?
    ensures EncodeChar(DecodeChar(b).value.0) == b[..DecodeChar(b).value.1]
  {
    var b0 := b[0] as int;
    if b0 < 0x80 {
    } else if b0 < 0xE0 {
      Split2(b0 - 0xC0, Low6(b[1]));
    } else if b0 < 0xF0 {
      Split3(b0 - 0xE0, Low6(b[1]), Low6(b[2]));
    } else {
      Split4(b0 - 0xF0, Low6(b[1]), Low6(b[2]), Low6(b[3]));
    }
  }

  lemma JoinFour(cp: nat)
    ensures (cp / 262144) * 262144 + (cp / 4096 % 64) * 4096 + (cp / 64 % 64) * 64 + cp % 64 == cp
  {
    var q1 := cp / 64;
    var q2 := q1 / 64;
    DivDiv(cp);
    DivDiv(q1);
    DivDiv(cp / 64 / 64);
    assert cp / 4096 == q2;
    assert cp / 262144 == q2 / 64;
    assert q2 == (q2 / 64) * 64 + q2 % 64;
    assert q1 == q2 * 64 + q1 % 64;
    assert cp == q1 * 64 + cp % 64;
  }

  lemma DivDiv(x: nat)
    ensures x / 64 / 64 == x / 4096 && x / 4096 / 64 == x / 262144
  {
  }

  lemma Split2(h: int, l: int)
    requires 0 <= l < 64
    ensures (h * 64 + l) / 64 == h && (h * 64 + l) % 64 == l
  {
  }

  lemma Split3(h: int, m: int, l: int)
    requires 0 <= m < 64 && 0 <= l < 64
    ensures var cp := h * 4096 + m * 64 + l;
      cp / 4096 == h && cp / 64 % 64 == m && cp % 64 == l
  {
    Split2(h * 64 + m, l);
    Split2(h, m);
  }

  lemma Split4(h: int, m1: int, m2: int, l: int)
    requires 0 <= m1 < 64 && 0 <= m2 < 64 && 0 <= l < 64
    ensures var cp := h * 262144 + m1 * 4096 + m2 * 64 + l;
      cp / 262144 == h && cp / 4096 % 64 == m1 && cp / 64 % 64 == m2 && cp % 64 == l
  {
    Split3(h * 64 + m1, m2, l);
    Split2(h, m1);
    assert (h * 64 + m1) * 4096 + m2 * 64 + l == h * 262144 + m1 * 4096 + m2 * 64 + l;
    assert (h * 262144 + m1 * 4096 + m2 * 64 + l) / 4096 == h * 64 + m1;
  }

  lemma SplitAt(b: seq<Byte>, n: nat)
    requires n <= |b|
    ensures b == b[..n] + b[n..]
  {
  }

  /** Bytes that decode are exactly the encoding of what they decode to: UTF-8 has one form per text. */
  lemma {:induction false} EncodeDecode(b: seq<Byte>)
    requires Decode(b).Some?
    ensures Encode(Decode(b).value) == b
    decreases |b|
  {
    if b != [] {
      var c := DecodeChar(b).value.0;
      var n := DecodeChar(b).value.1;
      EncodeDecodedChar(b);
      EncodeDecode(b[n..]);
      var s := Decode(b).value;
      assert s[0] == c && s[1..] == Decode(b[n..]).value;
      SplitAt(b, n);
    }
  }
}

/**
 * A model of the UTF-8 codec the honeypot relies on for turning captured
 * byte strings into text: `bytes.decode('utf-8', errors='ignore')`.
 *
 * The codec itself belongs to the Python runtime, not to the repository, so
 * this module is a simplified decoder built from the table of well-formed
 * byte sequences in section 4 of RFC 3629 (the encoding of section 3).
 * With the "ignore" error handler every ill-formed subsequence is dropped and
 * decoding goes on after it; since every byte after the lead byte of an
 * ill-formed subsequence is a continuation byte (0x80..0xBF), which never
 * starts a well-formed sequence, dropping one byte at a time and retrying
 * yields the same text.
 */
module Utf8 {

  newtype Byte = b: int | 0 <= b < 256

  /** A continuation byte, 10xxxxxx. */
  predicate IsCont(b: Byte) { 0x80 <= b <= 0xBF }

  /** UTF8-2: 0xC2..0xDF followed by one continuation byte. */
  predicate Lead2(b0: Byte, b1: Byte) {
    0xC2 <= b0 <= 0xDF && IsCont(b1)
  }

  /** UTF8-3: overlong forms (0xE0 0x80..0x9F) and surrogates (0xED 0xA0..0xBF) excluded. */
  predicate Lead3(b0: Byte, b1: Byte, b2: Byte) {
    && (|| (b0 == 0xE0 && 0xA0 <= b1 <= 0xBF)
        || ((0xE1 <= b0 <= 0xEC || 0xEE <= b0 <= 0xEF) && IsCont(b1))
        || (b0 == 0xED && 0x80 <= b1 <= 0x9F))
    && IsCont(b2)
  }

  /** UTF8-4: overlong forms (0xF0 0x80..0x8F) and values above U+10FFFF excluded. */
  predicate Lead4(b0: Byte, b1: Byte, b2: Byte, b3: Byte) {
    && (|| (b0 == 0xF0 && 0x90 <= b1 <= 0xBF)
        || (0xF1 <= b0 <= 0xF3 && IsCont(b1))
        || (b0 == 0xF4 && 0x80 <= b1 <= 0x8F))
    && IsCont(b2) && IsCont(b3)
  }

  /**
   * The length of the well-formed sequence that starts `s` (UTF8-1 is a
   * single byte 0x00..0x7F), or 0 when the first byte starts none: an
   * ill-formed or truncated sequence. The lead byte ranges of the four
   * forms are disjoint, so at most one form can match.
   */
  function LeadLength(s: seq<Byte>): (n: nat)
    ensures n <= 4 && n <= |s|
  {
    if |s| == 0 then 0
    else if s[0] <= 0x7F then 1
    else if |s| >= 2 && Lead2(s[0], s[1]) then 2
    else if |s| >= 3 && Lead3(s[0], s[1], s[2]) then 3
    else if |s| >= 4 && Lead4(s[0], s[1], s[2], s[3]) then 4
    else 0
  }

  /** The encoding of exactly one character. */
  predicate WellFormedChar(s: seq<Byte>) {
    |s| > 0 && LeadLength(s) == |s|
  }

  /** Whether a code point is a Unicode scalar value, that is, a Dafny `char`. */
  predicate IsScalar(cp: int) {
    (0 <= cp < 0xD800) || (0xE000 <= cp <= 0x10FFFF)
  }

  /** The code point carried by the well-formed sequence of length `n` that starts `s`. */
  function CodePoint(s: seq<Byte>, n: nat): (cp: int)
    requires 0 < n == LeadLength(s)
    ensures IsScalar(cp)
    ensures n == 1 ==> cp < 0x80
    ensures n == 2 ==> 0x80 <= cp < 0x800
    ensures n == 3 ==> 0x800 <= cp < 0x10000
    ensures n == 4 ==> 0x10000 <= cp <= 0x10FFFF
  {
    if n == 1 then s[0] as int
    else if n == 2 then (s[0] as int - 0xC0) * 64 + (s[1] as int - 0x80)
    else if n == 3 then
      (s[0] as int - 0xE0) * 4096 + (s[1] as int - 0x80) * 64 + (s[2] as int - 0x80)
    else
      (s[0] as int - 0xF0) * 262144 + (s[1] as int - 0x80) * 4096
        + (s[2] as int - 0x80) * 64 + (s[3] as int - 0x80)
  }

  /**
   * `bytes.decode('utf-8', errors='ignore')`: total, it never fails; every
   * well-formed sequence becomes its character and every other byte is
   * dropped. Each character comes from at least one byte.
   */
  function DecodeIgnore(s: seq<Byte>): (r: string)
    ensures |r| <= |s|
    decreases |s|
  {
    if s == [] then []
    else
      var n := LeadLength(s);
      if n == 0 then DecodeIgnore(s[1..])
      else [CodePoint(s, n) as char] + DecodeIgnore(s[n..])
  }

  /** The UTF-8 encoding of one character (section 3 of RFC 3629). */
  function EncodeChar(c: char): (bs: seq<Byte>)
    ensures WellFormedChar(bs)
    ensures CodePoint(bs, |bs|) == c as int
  {
    var cp := c as int;
    var q1, r1 := cp / 64, cp % 64;
    var q2, r2 := q1 / 64, q1 % 64;
    var q3, r3 := q2 / 64, q2 % 64;
    if cp < 0x80 then
      [cp as Byte]
    else if cp < 0x800 then
      [(0xC0 + q1) as Byte, (0x80 + r1) as Byte]
    else if cp < 0x10000 then
      [(0xE0 + q2) as Byte, (0x80 + r2) as Byte, (0x80 + r1) as Byte]
    else
      [(0xF0 + q3) as Byte, (0x80 + r3) as Byte, (0x80 + r2) as Byte, (0x80 + r1) as Byte]
  }

  /** The UTF-8 encoding of a string: the encodings of its characters, in order. */
  function Encode(s: string): (bs: seq<Byte>)
    ensures |s| <= |bs| <= 4 * |s|
  {
    if s == [] then [] else EncodeChar(s[0]) + Encode(s[1..])
  }

  /** The lead byte of a well-formed sequence fixes its length, whatever follows it. */
  lemma LeadLengthOfChar(bs: seq<Byte>, rest: seq<Byte>)
    requires WellFormedChar(bs)
    ensures LeadLength(bs + rest) == |bs|
    ensures CodePoint(bs + rest, |bs|) == CodePoint(bs, |bs|)
    ensures (bs + rest)[|bs|..] == rest
  {
    var s := bs + rest;
    assert s[0] == bs[0];
    assert |bs| >= 2 ==> s[1] == bs[1];
    assert |bs| >= 3 ==> s[2] == bs[2];
    assert |bs| >= 4 ==> s[3] == bs[3];
    assert s[|bs|..] == rest;
  }

  /** Decoding a well-formed character followed by anything. */
  lemma DecodeCharThen(c: char, rest: seq<Byte>)
    ensures DecodeIgnore(EncodeChar(c) + rest) == [c] + DecodeIgnore(rest)
  {
    var bs := EncodeChar(c);
    LeadLengthOfChar(bs, rest);
    assert bs + rest != [];
  }

  /**
   * Decoding the encoding of a string, followed by any bytes at all, gives
   * back that string followed by the decoding of those bytes.
   */
  lemma {:induction false} DecodeEncodeThen(s: string, rest: seq<Byte>)
    ensures DecodeIgnore(Encode(s) + rest) == s + DecodeIgnore(rest)
    decreases |s|
  {
    if s == [] {
      assert Encode(s) + rest == rest;
    } else {
      DecodeEncodeCons(s, rest);
      DecodeEncodeThen(s[1..], rest);
      ConsAppend(s, DecodeIgnore(rest));
    }
  }

  lemma ConsAppend(s: string, x: string)
    requires s != []
    ensures [s[0]] + (s[1..] + x) == s + x
  {
    assert [s[0]] + s[1..] == s;
  }

  /** One step of the round trip: the first character comes back first. */
  lemma DecodeEncodeCons(s: string, rest: seq<Byte>)
    requires s != []
    ensures DecodeIgnore(Encode(s) + rest) == [s[0]] + DecodeIgnore(Encode(s[1..]) + rest)
  {
    var tail := Encode(s[1..]) + rest;
    assert Encode(s) + rest == EncodeChar(s[0]) + tail;
    DecodeCharThen(s[0], tail);
  }

  /** Valid UTF-8 of a text value decodes back to that text value. */
  lemma DecodeEncode(s: string)
    ensures DecodeIgnore(Encode(s)) == s
  {
    DecodeEncodeThen(s, []);
    assert Encode(s) + [] == Encode(s);
  }

  /** Every byte that starts no well-formed sequence is dropped without a trace. */
  lemma DropsIllFormedLead(b: Byte, rest: seq<Byte>)
    requires 0x80 <= b <= 0xC1 || 0xF5 <= b
    ensures DecodeIgnore([b] + rest) == DecodeIgnore(rest)
  {
    var s := [b] + rest;
    assert s[0] == b;
    assert LeadLength(s) == 0;
    assert s[1..] == rest;
  }

  /** Bytes below 0x80 decode one for one into the characters with those codes. */
  lemma {:induction false} DecodeAscii(s: seq<Byte>)
    requires forall i :: 0 <= i < |s| ==> s[i] < 0x80
    ensures |DecodeIgnore(s)| == |s|
    ensures forall i :: 0 <= i < |s| ==> DecodeIgnore(s)[i] as int == s[i] as int
    decreases |s|
  {
    if s != [] {
      assert LeadLength(s) == 1;
      DecodeAscii(s[1..]);
      assert DecodeIgnore(s) == [s[0] as char] + DecodeIgnore(s[1..]);
    }
  }
}

/**
 * UTF-8 as Node converts between strings and buffers: `Buffer.from(s, 'utf8')` encodes
 * each scalar value in one to four bytes, and `buf.toString('utf8')` decodes with the
 * replacement rules of the WHATWG Encoding standard's UTF-8 decoder (one U+FFFD per
 * maximal ill-formed subsequence).
 */
module Utf8 {
  import opened Bytes

  const Replacement: char := '�'

  function EncodeChar(c: char): (b: seq<byte>)
    ensures 1 <= |b| <= 4
  {
    var n := c as int;
    // the value in six-bit groups, least significant first
    var g0, n1 := n % 64, n / 64;
    var g1, n2 := n1 % 64, n1 / 64;
    var g2, n3 := n2 % 64, n2 / 64;
    if n < 0x80 then [n]
    else if n < 0x800 then [0xC0 + n1, 0x80 + g0]
    else if n < 0x10000 then [0xE0 + n2, 0x80 + g1, 0x80 + g0]
    else [0xF0 + n3, 0x80 + g2, 0x80 + g1, 0x80 + g0]
  }

  /** `Buffer.from(s, 'utf8')` */
  function Encode(s: string): (b: seq<byte>)
    ensures |s| <= |b| <= 4 * |s|
  {
    if s == [] then [] else EncodeChar(s[0]) + Encode(s[1..])
  }

  /** Continuation bytes a lead byte asks for, with the allowed range of the first one. */
  datatype Lead = Lead(need: nat, lower: byte, upper: byte)

  function LeadInfo(b0: byte): (l: Lead)
    ensures l.need <= 3
  {
    if 0xC2 <= b0 <= 0xDF then Lead(1, 0x80, 0xBF)
    else if b0 == 0xE0 then Lead(2, 0xA0, 0xBF)
    else if 0xE1 <= b0 <= 0xEC || 0xEE <= b0 <= 0xEF then Lead(2, 0x80, 0xBF)
    else if b0 == 0xED then Lead(2, 0x80, 0x9F)
    else if b0 == 0xF0 then Lead(3, 0x90, 0xBF)
    else if 0xF1 <= b0 <= 0xF3 then Lead(3, 0x80, 0xBF)
    else if b0 == 0xF4 then Lead(3, 0x80, 0x8F)
    else Lead(0, 0x80, 0xBF)
  }

  /** How many of the continuation bytes after `b[0]` are acceptable, stopping at the first that is not. */
  function GoodContinuations(b: seq<byte>): (k: nat)
    requires |b| >= 1
    ensures k <= LeadInfo(b[0]).need && k < |b|
  {
    var Lead(need, lower, upper) := LeadInfo(b[0]);
    if need == 0 || |b| < 2 || !(lower <= b[1] <= upper) then 0
    else if need == 1 || |b| < 3 || !(0x80 <= b[2] <= 0xBF) then 1
    else if need == 2 || |b| < 4 || !(0x80 <= b[3] <= 0xBF) then 2
    else 3
  }

  /** The scalar value of a complete, well-formed multi-byte sequence. */
  function ScalarValue(b: seq<byte>): (c: char)
    requires 2 <= |b| <= 4
    requires LeadInfo(b[0]).need == |b| - 1 && GoodContinuations(b) == |b| - 1
  {
    var b0: int, b1: int := b[0], b[1];
    if |b| == 2 then ((b0 - 0xC0) * 64 + (b1 - 0x80)) as char
    else
      var b2: int := b[2];
      if |b| == 3 then ((b0 - 0xE0) * 4096 + (b1 - 0x80) * 64 + (b2 - 0x80)) as char
      else
        var b3: int := b[3];
        ((b0 - 0xF0) * 262144 + (b1 - 0x80) * 4096 + (b2 - 0x80) * 64 + (b3 - 0x80)) as char
  }

  /** `buf.toString('utf8')` */
  function Decode(b: seq<byte>): (s: string)
    ensures |s| <= |b|
    ensures s == [] <==> b == []
    decreases |b|
  {
    if b == [] then []
    else if b[0] < 0x80 then [b[0] as char] + Decode(b[1..])
    else
      var need := LeadInfo(b[0]).need;
      var k := GoodContinuations(b);
      if need > 0 && k == need then [ScalarValue(b[..need + 1])] + Decode(b[need + 1..])
      else [Replacement] + Decode(b[k + 1..])
  }

  /** Decoding the encoding of one character yields that character and leaves the rest alone. */
  lemma DecodeEncodeChar(c: char, rest: seq<byte>)
    ensures Decode(EncodeChar(c) + rest) == [c] + Decode(rest)
  {
    var e := EncodeChar(c);
    var b := e + rest;
    assert b[..|e|] == e && b[|e|..] == rest;
    var n := c as int;
    if n < 0x80 {
      assert b[1..] == rest;
    } else {
      if n < 0x800 {
        TwoByteChar(c);
      } else if n < 0x10000 {
        ThreeByteChar(c);
      } else {
        FourByteChar(c);
      }
      assert b[0] == e[0] && b[1] == e[1];
      assert |e| >= 3 ==> b[2] == e[2];
      assert |e| >= 4 ==> b[3] == e[3];
      assert GoodContinuations(b) == GoodContinuations(e);
    }
  }

  lemma TwoByteChar(c: char)
    requires 0x80 <= c as int < 0x800
    ensures var e := EncodeChar(c);
      |e| == 2 && LeadInfo(e[0]).need == 1 && GoodContinuations(e) == 1 && ScalarValue(e) == c
  {
  }

  lemma ThreeByteChar(c: char)
    requires 0x800 <= c as int < 0x10000
    ensures var e := EncodeChar(c);
      |e| == 3 && LeadInfo(e[0]).need == 2 && GoodContinuations(e) == 2 && ScalarValue(e) == c
  {
  }

  lemma FourByteChar(c: char)
    requires 0x10000 <= c as int
    ensures var e := EncodeChar(c);
      |e| == 4 && LeadInfo(e[0]).need == 3 && GoodContinuations(e) == 3 && ScalarValue(e) == c
  {
  }

  /** Decoding what was encoded gives the string back. */
  lemma {:induction false} DecodeEncode(s: string)
    ensures Decode(Encode(s)) == s
  {
    if s != [] {
      DecodeEncodeChar(s[0], Encode(s[1..]));
      DecodeEncode(s[1..]);
    }
  }
}

/**
 * Node's 'hex' codec for buffers: `buf.toString('hex')` writes two lower-case digits
 * per byte; `Buffer.from(s, 'hex')` reads digit pairs of either case and stops at the
 * first pair that is not two hexadecimal digits (a lone trailing digit is dropped).
 */
module Hex {
  import opened Bytes

  const LowerDigits := "0123456789abcdef"

  // Kept apart from `Numbers.IsDigit(c, 16)`: this is the buffer codec's alphabet, which
  // `Numbers` (the `parseInt` digit alphabet, radices up to 36) is proved to agree with
  // in `Numbers.HexDigitValue`.
  predicate IsHexDigit(c: char)
  {
    ('0' <= c <= '9') || ('a' <= c <= 'f') || ('A' <= c <= 'F')
  }

  function HexValue(c: char): (v: nat)
    requires IsHexDigit(c)
    ensures v < 16
  {
    if c <= '9' then c as int - '0' as int
    else if c <= 'F' then c as int - 'A' as int + 10
    else c as int - 'a' as int + 10
  }

  /** Every character is a hexadecimal digit and they pair up exactly. */
  predicate IsHexString(s: string)
  {
    |s| % 2 == 0 && forall i :: 0 <= i < |s| ==> IsHexDigit(s[i])
  }

  /** `buf.toString('hex')` */
  function Encode(b: seq<byte>): (s: string)
    ensures |s| == 2 * |b|
    ensures forall i :: 0 <= i < |s| ==> IsHexDigit(s[i]) && !('A' <= s[i] <= 'F')
  {
    if b == [] then [] else [LowerDigits[b[0] / 16], LowerDigits[b[0] % 16]] + Encode(b[1..])
  }

  /** `Buffer.from(s, 'hex')` */
  function Decode(s: string): (b: seq<byte>)
    ensures 2 * |b| <= |s|
  {
    if |s| < 2 || !IsHexDigit(s[0]) || !IsHexDigit(s[1]) then []
    else [16 * HexValue(s[0]) + HexValue(s[1])] + Decode(s[2..])
  }

  lemma LowerDigitValue(d: nat)
    requires d < 16
    ensures IsHexDigit(LowerDigits[d]) && HexValue(LowerDigits[d]) == d
  {
  }

  /** The hex text of a buffer is a hex string, empty only for the empty buffer. */
  lemma EncodeIsHex(b: seq<byte>)
    ensures IsHexString(Encode(b))
    ensures Encode(b) == [] <==> b == []
  {
  }

  /** Decoding the hex text of a buffer gives the buffer back. */
  lemma {:induction false} DecodeEncode(b: seq<byte>)
    ensures Decode(Encode(b)) == b
  {
    if b != [] {
      var s := Encode(b);
      LowerDigitValue(b[0] / 16);
      LowerDigitValue(b[0] % 16);
      assert s[2..] == Encode(b[1..]);
      DecodeEncode(b[1..]);
    }
  }

  /**
   * Decoding consumes the whole string exactly when the string is made of
   * hexadecimal digit pairs: the length test of the reader's hex constructor.
   */
  lemma {:induction false} DecodeCompleteIff(s: string)
    ensures 2 * |Decode(s)| == |s| <==> IsHexString(s)
  {
    if |s| >= 2 {
      DecodeCompleteIff(s[2..]);
      if IsHexDigit(s[0]) && IsHexDigit(s[1]) {
        if IsHexString(s[2..]) {
          forall i | 0 <= i < |s| ensures IsHexDigit(s[i]) {
            if i >= 2 { assert s[i] == s[2..][i - 2]; }
          }
        } else if IsHexString(s) {
          forall i | 0 <= i < |s| - 2 ensures IsHexDigit(s[2..][i]) {
            assert s[2..][i] == s[i + 2];
          }
        }
      }
    } else if |s| == 1 {
      assert !IsHexString(s);
    }
  }
}

/**
 * Bitcoin's CompactSize integer: a first byte below 0xFD is the value itself;
 * 0xFD, 0xFE and 0xFF announce a 16-, 32- or 64-bit little-endian value.
 */
module CompactSize {
  import opened Bytes

  /** 2^16, 2^32 and 2^64; `EncodeValue` and `ValueBound` relate them to `Pow256`. */
  const Pow16: nat := 0x1_0000
  const Pow32: nat := 0x1_0000_0000
  const Pow64: nat := 0x1_0000_0000_0000_0000

  /** Bytes in an encoding that starts with `first`, prefix included. */
  function Width(first: byte): (w: nat)
    ensures w == 1 || w == 3 || w == 5 || w == 9
    ensures w == 1 <==> first < 0xFD
  {
    if first == 0xFD then 3
    else if first == 0xFE then 5
    else if first == 0xFF then 9
    else 1
  }

  /** Value of a complete encoding. */
  function Value(enc: seq<byte>): (v: nat)
    requires |enc| >= 1 && |enc| == Width(enc[0])
    ensures v < Pow64
    ensures enc[0] >= 0xFD ==> v < Pow256(|enc| - 1)
  {
    if enc[0] < 0xFD then enc[0]
    else
      LEBound(enc[1..]);
      assert Pow256(2) == Pow16 && Pow256(4) == Pow32 && Pow256(8) == Pow64;
      LE(enc[1..])
  }

  /** The shortest encoding of `n`, as Bitcoin writers produce it. */
  function Encode(n: nat): (enc: seq<byte>)
    requires n < Pow64
  {
    if n < 0xFD then [n]
    else if n < Pow16 then [0xFD] + LEBytes(n, 2)
    else if n < Pow32 then [0xFE] + LEBytes(n, 4)
    else [0xFF] + LEBytes(n, 8)
  }

  /** Every value below 2^64 round-trips through its encoding. */
  lemma EncodeValue(n: nat)
    requires n < Pow64
    ensures |Encode(n)| >= 1 && |Encode(n)| == Width(Encode(n)[0])
    ensures Value(Encode(n)) == n
  {
    var enc := Encode(n);
    if n >= 0xFD {
      assert enc[1..] == LEBytes(n, |enc| - 1);
      assert Pow256(2) == Pow16 && Pow256(4) == Pow32 && Pow256(8) == Pow64;
      LELEBytes(n, |enc| - 1);
    }
  }

  /**
   * No well-formed encoding of `n` is shorter than `Encode(n)`: each narrower form is
   * bounded below `n` by `ValueBound`.
   */
  lemma EncodeShortest(n: nat, enc: seq<byte>)
    requires n < Pow64
    requires |enc| >= 1 && |enc| == Width(enc[0]) && Value(enc) == n
    ensures |Encode(n)| <= |enc|
  {
    ValueBound(enc);
  }

  /** Each form carries at most its width's worth of bits. */
  lemma ValueBound(enc: seq<byte>)
    requires |enc| >= 1 && |enc| == Width(enc[0])
    ensures Value(enc) < (if enc[0] < 0xFD then 0xFD else if enc[0] == 0xFD then Pow16 else if enc[0] == 0xFE then Pow32 else Pow64)
  {
    if enc[0] >= 0xFD {
      LEBound(enc[1..]);
      assert Pow256(2) == Pow16 && Pow256(4) == Pow32 && Pow256(8) == Pow64;
    }
  }
}

/**
 * A cursor over a byte buffer that decodes the ledger's binary encodings:
 * fixed-width integers in either byte order, 64-bit values, CompactSize
 * integers and length-prefixed fields. Reads advance `pos`; a read that the
 * underlying buffer refuses (an offset past the end) fails with `OutOfRange`.
 */
module BufferReader {
  import opened Wrappers
  import opened Bytes
  import Hex
  import CompactSize

  datatype ReadError =
    | OutOfRange                         // the buffer's own range check fired
    | PrecisionLoss                      // a CompactSize value above 2^53 asked for as a number
    | ShortRead(expected: nat, got: nat) // a length-prefixed field runs past the end
    | InvalidHex                         // the constructor's hex string did not decode cleanly

  /** Largest value `readVarintNum` returns as a plain number. */
  const MaxVarintNum: nat := 0x20_0000_0000_0000

  /** Largest 64-bit value `readUInt64LEBN` builds from the combined double. */
  const MaxSafeInteger: nat := 0x1f_ffff_ffff_ffff

  /** Reinterprets an unsigned 32-bit value as two's complement. */
  function ToInt32(u: nat): (v: int)
    requires u < 0x1_0000_0000
    ensures -0x8000_0000 <= v < 0x8000_0000
    ensures (v - u) % 0x1_0000_0000 == 0
    ensures v >= 0 <==> u < 0x8000_0000
  {
    if u < 0x8000_0000 then u else u - 0x1_0000_0000
  }

  /** `fromBuffer(buf, opts)`: the buffer as an unsigned big number, big-endian unless asked for little. */
  function FromBuffer(b: seq<byte>, littleEndian: bool): (n: nat)
    ensures littleEndian ==> n == LE(b)
    ensures !littleEndian ==> n == BE(b)
    ensures n < Pow256(|b|)
  {
    var ordered := if littleEndian then Reverse(b) else b;
    BEReverse(b);
    BEBound(ordered);
    BE(ordered)
  }

  /** `reverseBuffer(buf)`: a fresh buffer holding the bytes in the opposite order. */
  method ReverseBuffer(b: array<byte>) returns (r: array<byte>)
    ensures fresh(r)
    ensures r[..] == Reverse(b[..])
  {
    r := new byte[b.Length];
    for i := 0 to r.Length
      invariant forall k :: 0 <= k < i ==> r[k] == b[b.Length - 1 - k]
    {
      r[i] := b[b.Length - 1 - i];
    }
    forall k | 0 <= k < r.Length
      ensures r[k] == Reverse(b[..])[k]
    {
      ReverseAt(b[..], k);
    }
  }

  class Reader {
    var buf: array<byte>
    var pos: nat

    /** Constructing from a buffer: the reader shares it and starts at 0. */
    constructor (b: array<byte>)
      ensures buf == b && pos == 0
    {
      buf := b;
      pos := 0;
    }

    /** Constructing from an object holding a buffer and a position. */
    constructor FromObject(b: array<byte>, p: nat)
      ensures buf == b && pos == p
    {
      buf := b;
      pos := p;
    }

    /**
     * Constructing from a hex string: it must decode to exactly half its length
     * in bytes, otherwise 'Invalid hex string'.
     */
    static method FromHex(s: string) returns (r: Result<Reader, ReadError>)
      ensures r.Ok? <==> Hex.IsHexString(s)
      ensures r.Ok? ==> fresh(r.value) && fresh(r.value.buf) && r.value.buf[..] == Hex.Decode(s) && r.value.pos == 0
      ensures r.Err? ==> r.error == InvalidHex
    {
      var b := Hex.Decode(s);
      Hex.DecodeCompleteIff(s);
      if |b| * 2 != |s| {
        return Err(InvalidHex);
      }
      var a := new byte[|b|](i requires 0 <= i < |b| => b[i]);
      var reader := new Reader(a);
      return Ok(reader);
    }

    /**
     * `set({buf, pos})`: a given buffer replaces the current one; a position replaces the
     * current one only when it is non-zero (zero counts as absent).
     */
    method Set(b: Option<array<byte>>, p: nat)
      modifies this
      ensures buf == (if b.Some? then b.value else old(buf))
      ensures pos == (if p != 0 then p else old(pos))
    {
      if b.Some? {
        buf := b.value;
      }
      if p != 0 {
        pos := p;
      }
    }

    /** `eof()`, also exported as `finished()`. */
    predicate Eof()
      reads this, buf
      ensures Eof() <==> Remaining() == []
    {
      pos >= buf.Length
    }

    /** The bytes from `pos` up to `buf.Length`, or none once `pos` is past the end. */
    function Remaining(): seq<byte>
      reads this, buf
    {
      Slice(buf[..], pos, buf.Length)
    }

    /** `read(len)`: never fails; returns what is there and advances by `len` regardless. */
    method Read(len: nat) returns (r: seq<byte>)
      modifies this
      ensures buf == old(buf)
      ensures r == Slice(buf[..], old(pos), old(pos) + len)
      ensures |r| <= len && (old(pos) + len <= buf.Length ==> |r| == len)
      ensures pos == old(pos) + len
    {
      r := Slice(buf[..], pos, pos + len);
      pos := pos + len;
    }

    /** `readAll()`: the remaining bytes; afterwards the reader is at its end. */
    method ReadAll() returns (r: seq<byte>)
      modifies this
      ensures buf == old(buf)
      ensures r == old(Remaining())
      ensures pos == buf.Length && Eof()
    {
      r := Slice(buf[..], pos, buf.Length);
      pos := buf.Length;
    }

    method ReadUInt8() returns (r: Result<nat, ReadError>)
      modifies this
      ensures buf == old(buf)
      ensures old(pos) + 1 <= buf.Length ==> r == Ok(buf[old(pos)] as nat) && pos == old(pos) + 1
      ensures old(pos) + 1 > buf.Length ==> r == Err(OutOfRange) && pos == old(pos)
    {
      if pos + 1 > buf.Length {
        return Err(OutOfRange);
      }
      r := Ok(buf[pos] as nat);
      pos := pos + 1;
    }

    method ReadUInt16BE() returns (r: Result<nat, ReadError>)
      modifies this
      ensures buf == old(buf)
      ensures old(pos) + 2 <= buf.Length ==> r == Ok(BE(buf[old(pos)..old(pos) + 2])) && pos == old(pos) + 2
      ensures old(pos) + 2 > buf.Length ==> r == Err(OutOfRange) && pos == old(pos)
    {
      if pos + 2 > buf.Length {
        return Err(OutOfRange);
      }
      BE2(buf[pos..pos + 2]);
      r := Ok(0x100 * buf[pos] as int + buf[pos + 1] as int);
      pos := pos + 2;
    }

    method ReadUInt16LE() returns (r: Result<nat, ReadError>)
      modifies this
      ensures buf == old(buf)
      ensures old(pos) + 2 <= buf.Length ==> r == Ok(LE(buf[old(pos)..old(pos) + 2])) && pos == old(pos) + 2
      ensures old(pos) + 2 > buf.Length ==> r == Err(OutOfRange) && pos == old(pos)
    {
      if pos + 2 > buf.Length {
        return Err(OutOfRange);
      }
      LE2(buf[pos..pos + 2]);
      r := Ok(buf[pos] as int + 0x100 * buf[pos + 1] as int);
      pos := pos + 2;
    }

    method ReadUInt32BE() returns (r: Result<nat, ReadError>)
      modifies this
      ensures buf == old(buf)
      ensures old(pos) + 4 <= buf.Length ==> r == Ok(BE(buf[old(pos)..old(pos) + 4])) && pos == old(pos) + 4
      ensures old(pos) + 4 > buf.Length ==> r == Err(OutOfRange) && pos == old(pos)
    {
      if pos + 4 > buf.Length {
        return Err(OutOfRange);
      }
      BE4(buf[pos..pos + 4]);
      r := Ok(0x100_0000 * buf[pos] as int + 0x1_0000 * buf[pos + 1] as int
            + 0x100 * buf[pos + 2] as int + buf[pos + 3] as int);
      pos := pos + 4;
    }

    method ReadUInt32LE() returns (r: Result<nat, ReadError>)
      modifies this
      ensures buf == old(buf)
      ensures old(pos) + 4 <= buf.Length ==> r == Ok(LE(buf[old(pos)..old(pos) + 4])) && pos == old(pos) + 4
      ensures old(pos) + 4 > buf.Length ==> r == Err(OutOfRange) && pos == old(pos)
    {
      if pos + 4 > buf.Length {
        return Err(OutOfRange);
      }
      r := Ok(UInt32LEAt(pos));
      pos := pos + 4;
    }

    method ReadInt32LE() returns (r: Result<int, ReadError>)
      modifies this
      ensures buf == old(buf)
      ensures old(pos) + 4 <= buf.Length ==>
        LE(buf[old(pos)..old(pos) + 4]) < 0x1_0000_0000
        && r == Ok(ToInt32(LE(buf[old(pos)..old(pos) + 4]))) && pos == old(pos) + 4
      ensures old(pos) + 4 > buf.Length ==> r == Err(OutOfRange) && pos == old(pos)
    {
      if pos + 4 > buf.Length {
        return Err(OutOfRange);
      }
      r := Ok(ToInt32(UInt32LEAt(pos)));
      pos := pos + 4;
    }

    /** The buffer's own `readUInt32LE(offset)` on an offset it accepts. */
    function UInt32LEAt(offset: nat): (v: nat)
      requires offset + 4 <= buf.Length
      reads this, buf
      ensures v == LE(buf[offset..offset + 4]) && v < 0x1_0000_0000
    {
      LE4(buf[offset..offset + 4]);
      LEBound(buf[offset..offset + 4]);
      buf[offset] as int + 0x100 * buf[offset + 1] as int
        + 0x1_0000 * buf[offset + 2] as int + 0x100_0000 * buf[offset + 3] as int
    }

    /**
     * `readUInt64BEBN()`: slices without a range check, so near the end it reads the
     * shorter slice's big-endian value; `pos` advances by 8 regardless.
     */
    method ReadUInt64BEBN() returns (r: nat)
      modifies this
      ensures buf == old(buf)
      ensures r == BE(Slice(buf[..], old(pos), old(pos) + 8))
      ensures old(pos) + 8 <= buf.Length ==> r == BE(buf[old(pos)..old(pos) + 8])
      ensures pos == old(pos) + 8
    {
      var b := Slice(buf[..], pos, pos + 8);
      r := FromBuffer(b, false);
      pos := pos + 8;
    }

    /**
     * `readUInt64LEBN()`: two little-endian 32-bit halves, low half first, combined as
     * `high * 2^32 + low` when that is a safe integer and read from the 8 bytes otherwise.
     */
    method ReadUInt64LEBN() returns (r: Result<nat, ReadError>)
      modifies this
      ensures buf == old(buf)
      ensures old(pos) + 8 <= buf.Length ==> r == Ok(LE(buf[old(pos)..old(pos) + 8])) && pos == old(pos) + 8
      ensures old(pos) + 8 > buf.Length ==> r == Err(OutOfRange) && pos == old(pos)
    {
      if pos + 4 > buf.Length {
        return Err(OutOfRange);
      }
      var second := UInt32LEAt(pos);
      if pos + 8 > buf.Length {
        return Err(OutOfRange);
      }
      var first := UInt32LEAt(pos + 4);
      var combined := first * 0x1_0000_0000 + second;
      var bytes := buf[pos..pos + 8];
      assert bytes[..4] == buf[pos..pos + 4] && bytes[4..] == buf[pos + 4..pos + 8];
      LESplit(bytes, 4);
      assert Pow256(4) == 0x1_0000_0000;
      var n;
      if combined <= MaxSafeInteger {
        n := combined;
      } else {
        n := FromBuffer(bytes, true);
      }
      pos := pos + 8;
      return Ok(n);
    }

    /**
     * `readVarintNum()`: a CompactSize value as a number. The prefix byte is consumed
     * before the wider read, so a truncated wide form fails one byte further on.
     */
    method ReadVarintNum() returns (r: Result<nat, ReadError>)
      modifies this
      ensures buf == old(buf)
      ensures old(pos) >= buf.Length ==> r == Err(OutOfRange) && pos == old(pos)
      ensures old(pos) < buf.Length ==>
        var w := CompactSize.Width(buf[old(pos)]);
        if old(pos) + w > buf.Length then r == Err(OutOfRange) && pos == old(pos) + 1
        else
          var v := CompactSize.Value(buf[old(pos)..old(pos) + w]);
          pos == old(pos) + w && r == (if v <= MaxVarintNum then Ok(v) else Err(PrecisionLoss))
    {
      var first := ReadUInt8();
      if first.Err? {
        return first;
      }
      var p0 := old(pos);
      if first.value == 0xFD {
        r := ReadUInt16LE();
        if r.Ok? {
          assert buf[p0..p0 + 3][1..] == buf[p0 + 1..p0 + 3];
          LEBound(buf[p0 + 1..p0 + 3]);
          assert Pow256(2) <= MaxVarintNum;
        }
      } else if first.value == 0xFE {
        r := ReadUInt32LE();
        if r.Ok? {
          assert buf[p0..p0 + 5][1..] == buf[p0 + 1..p0 + 5];
          LEBound(buf[p0 + 1..p0 + 5]);
          assert Pow256(4) <= MaxVarintNum;
        }
      } else if first.value == 0xFF {
        var bn := ReadUInt64LEBN();
        if bn.Err? {
          return bn;
        }
        assert buf[p0..p0 + 9][1..] == buf[p0 + 1..p0 + 9];
        var n := bn.value;
        if n <= MaxVarintNum {
          r := Ok(n);
        } else {
          r := Err(PrecisionLoss);
        }
      } else {
        r := first;
      }
    }

    /** `readVarintBN()`: the same CompactSize value, with no magnitude limit. */
    method ReadVarintBN() returns (r: Result<nat, ReadError>)
      modifies this
      ensures buf == old(buf)
      ensures old(pos) >= buf.Length ==> r == Err(OutOfRange) && pos == old(pos)
      ensures old(pos) < buf.Length ==>
        var w := CompactSize.Width(buf[old(pos)]);
        if old(pos) + w > buf.Length then r == Err(OutOfRange) && pos == old(pos) + 1
        else pos == old(pos) + w && r == Ok(CompactSize.Value(buf[old(pos)..old(pos) + w]))
    {
      var first := ReadUInt8();
      if first.Err? {
        return first;
      }
      var p0 := old(pos);
      if first.value == 0xFD {
        r := ReadUInt16LE();
        if r.Ok? { assert buf[p0..p0 + 3][1..] == buf[p0 + 1..p0 + 3]; }
      } else if first.value == 0xFE {
        r := ReadUInt32LE();
        if r.Ok? { assert buf[p0..p0 + 5][1..] == buf[p0 + 1..p0 + 5]; }
      } else if first.value == 0xFF {
        r := ReadUInt64LEBN();
        if r.Ok? { assert buf[p0..p0 + 9][1..] == buf[p0 + 1..p0 + 9]; }
      } else {
        r := first;
      }
    }

    /**
     * `readVarintBuf()`: the raw CompactSize bytes. Only the prefix byte is range
     * checked; the rest is an unchecked `read`, so `pos` moves by the full width.
     */
    method ReadVarintBuf() returns (r: Result<seq<byte>, ReadError>)
      modifies this
      ensures buf == old(buf)
      ensures old(pos) >= buf.Length ==> r == Err(OutOfRange) && pos == old(pos)
      ensures old(pos) < buf.Length ==>
        var w := CompactSize.Width(buf[old(pos)]);
        pos == old(pos) + w && r == Ok(Slice(buf[..], old(pos), old(pos) + w))
    {
      if pos + 1 > buf.Length {
        return Err(OutOfRange);
      }
      var first := buf[pos];
      var bytes;
      if first == 0xFD {
        bytes := Read(1 + 2);
      } else if first == 0xFE {
        bytes := Read(1 + 4);
      } else if first == 0xFF {
        bytes := Read(1 + 8);
      } else {
        bytes := Read(1);
      }
      return Ok(bytes);
    }

    /**
     * `readVarLengthBuffer()`: a CompactSize length, then exactly that many bytes;
     * too few bytes is an error, raised after `pos` has moved past the declared field.
     */
    method ReadVarLengthBuffer() returns (r: Result<seq<byte>, ReadError>)
      modifies this
      ensures buf == old(buf)
      ensures old(pos) >= buf.Length ==> r == Err(OutOfRange) && pos == old(pos)
      ensures old(pos) < buf.Length ==>
        var w := CompactSize.Width(buf[old(pos)]);
        if old(pos) + w > buf.Length then r == Err(OutOfRange) && pos == old(pos) + 1
        else
          var len := CompactSize.Value(buf[old(pos)..old(pos) + w]);
          if len > MaxVarintNum then r == Err(PrecisionLoss) && pos == old(pos) + w
          else
            var start := old(pos) + w;
            pos == start + len
            && (start + len <= buf.Length ==> r == Ok(buf[start..start + len]))
            && (start + len > buf.Length ==> r == Err(ShortRead(len, buf.Length - start)))
    {
      var len := ReadVarintNum();
      if len.Err? {
        return Err(len.error);
      }
      var data := Read(len.value);
      if |data| != len.value {
        return Err(ShortRead(len.value, |data|));
      }
      return Ok(data);
    }

    /** `reverse()`: swaps in a fresh buffer holding the bytes in the opposite order; `pos` is kept. */
    method Reverse()
      modifies this
      ensures fresh(buf)
      ensures buf[..] == Bytes.Reverse(old(buf[..]))
      ensures pos == old(pos)
    {
      var src := buf;
      var b := new byte[src.Length];
      for i := 0 to b.Length
        invariant pos == old(pos)
        invariant forall k :: 0 <= k < i ==> b[k] == src[src.Length - 1 - k]
      {
        b[i] := src[src.Length - 1 - i];
      }
      forall k | 0 <= k < b.Length
        ensures b[k] == Bytes.Reverse(src[..])[k]
      {
        ReverseAt(src[..], k);
      }
      buf := b;
    }

    /**
     * `readReverse(len)`: the next `len` bytes reversed, `len` defaulting to the whole
     * buffer's length (not what remains); `pos` advances by `len`, the buffer is untouched.
     */
    method ReadReverse(len: Option<nat>) returns (r: seq<byte>)
      modifies this
      ensures buf == old(buf)
      ensures var n := if len.Some? then len.value else buf.Length;
        r == Bytes.Reverse(Slice(buf[..], old(pos), old(pos) + n)) && pos == old(pos) + n
    {
      var n := if len.Some? then len.value else buf.Length;
      var b := Slice(buf[..], pos, pos + n);
      pos := pos + n;
      r := Bytes.Reverse(b);
    }
  }
}

/** Bytes and their integer readings in either byte order. */
module Bytes {

  type byte = x: int | 0 <= x < 256

  function Pow256(n: nat): (r: nat)
    ensures r >= 1
  {
    if n == 0 then 1 else 256 * Pow256(n - 1)
  }

  /** Unsigned value of `s` read least-significant byte first. */
  function LE(s: seq<byte>): nat
  {
    if s == [] then 0 else s[0] + 256 * LE(s[1..])
  }

  /** Unsigned value of `s` read most-significant byte first. */
  function BE(s: seq<byte>): nat
  {
    if s == [] then 0 else 256 * BE(s[..|s| - 1]) + s[|s| - 1]
  }

  /** `s` in the opposite byte order. */
  function Reverse(s: seq<byte>): (r: seq<byte>)
    ensures |r| == |s|
  {
    if s == [] then [] else Reverse(s[1..]) + [s[0]]
  }

  /** The slice `s[from..to]` with both ends clamped to `|s|`, as Node's `Buffer.slice` does. */
  function Slice(s: seq<byte>, from: nat, to: nat): (r: seq<byte>)
    ensures |r| == (if to <= |s| then to else |s|) - (if from <= to then (if from <= |s| then from else |s|) else (if to <= |s| then to else |s|))
    ensures from <= to <= |s| ==> r == s[from..to]
  {
    var hi := if to <= |s| then to else |s|;
    var lo := if from <= hi then from else hi;
    s[lo..hi]
  }

  lemma {:induction false} LEBound(s: seq<byte>)
    ensures LE(s) < Pow256(|s|)
  {
    if s != [] {
      LEBound(s[1..]);
    }
  }

  lemma {:induction false} BEBound(s: seq<byte>)
    ensures BE(s) < Pow256(|s|)
  {
    if s != [] {
      BEBound(s[..|s| - 1]);
    }
  }

  lemma {:induction false} ReverseAt(s: seq<byte>, k: nat)
    requires k < |s|
    ensures Reverse(s)[k] == s[|s| - 1 - k]
  {
    if k < |s| - 1 {
      ReverseAt(s[1..], k);
    }
  }

  /** Reversing twice gives the original bytes back. */
  lemma ReverseReverse(s: seq<byte>)
    ensures Reverse(Reverse(s)) == s
  {
    forall k | 0 <= k < |s|
      ensures Reverse(Reverse(s))[k] == s[k]
    {
      ReverseAt(Reverse(s), k);
      ReverseAt(s, |s| - 1 - k);
    }
  }

  /** Reading big-endian the reversed bytes is reading little-endian the original. */
  lemma {:induction false} BEReverse(s: seq<byte>)
    ensures BE(Reverse(s)) == LE(s)
  {
    if s != [] {
      var r := Reverse(s);
      assert r == Reverse(s[1..]) + [s[0]];
      assert r[..|r| - 1] == Reverse(s[1..]);
      BEReverse(s[1..]);
    }
  }

  /** The little-endian value of `s` splits at any byte boundary `k`. */
  lemma {:induction false} LESplit(s: seq<byte>, k: nat)
    requires k <= |s|
    ensures LE(s) == LE(s[..k]) + Pow256(k) * LE(s[k..])
  {
    if k == 0 {
      assert s[k..] == s;
    } else {
      var t := s[1..];
      assert t[..k - 1] == s[1..k];
      assert t[k - 1..] == s[k..];
      LESplit(t, k - 1);
      assert s[..k][1..] == s[1..k];
      var a, p, b := LE(s[1..k]), Pow256(k - 1), LE(s[k..]);
      assert LE(t) == a + p * b;
      assert LE(s[..k]) == s[0] + 256 * a;
      ShiftProduct(a, p, b);
    }
  }

  lemma ShiftProduct(a: int, p: int, b: int)
    ensures 256 * (a + p * b) == 256 * a + (256 * p) * b
  {
  }

  /** The `k` low-order bytes of `n`, least significant first. */
  function LEBytes(n: nat, k: nat): (b: seq<byte>)
    ensures |b| == k
  {
    if k == 0 then [] else [n % 256] + LEBytes(n / 256, k - 1)
  }

  /** `LEBytes` is undone by `LE` for values that fit. */
  lemma {:induction false} LELEBytes(n: nat, k: nat)
    requires n < Pow256(k)
    ensures LE(LEBytes(n, k)) == n
  {
    if k > 0 {
      LELEBytes(n / 256, k - 1);
    }
  }

  lemma LE2(s: seq<byte>)
    requires |s| == 2
    ensures LE(s) == (s[0] as int) + 0x100 * (s[1] as int)
  {
    assert LE(s[1..]) == s[1] + 256 * LE(s[2..]);
    assert LE(s[2..]) == 0;
  }

  lemma LE4(s: seq<byte>)
    requires |s| == 4
    ensures LE(s) == (s[0] as int) + 0x100 * (s[1] as int) + 0x1_0000 * (s[2] as int) + 0x100_0000 * (s[3] as int)
  {
    assert s[1..][1..] == s[2..] && s[2..][1..] == s[3..] && s[3..][1..] == s[4..];
    assert LE(s[3..]) == s[3] + 256 * LE(s[4..]);
    assert LE(s[2..]) == s[2] + 256 * LE(s[3..]);
    assert LE(s[1..]) == s[1] + 256 * LE(s[2..]);
  }

  lemma BE2(s: seq<byte>)
    requires |s| == 2
    ensures BE(s) == 0x100 * (s[0] as int) + (s[1] as int)
  {
    assert BE(s[..1]) == 256 * BE(s[..0]) + s[0];
    assert BE(s[..0]) == 0;
  }

  lemma BE4(s: seq<byte>)
    requires |s| == 4
    ensures BE(s) == 0x100_0000 * (s[0] as int) + 0x1_0000 * (s[1] as int) + 0x100 * (s[2] as int) + (s[3] as int)
  {
    assert s[..3][..2] == s[..2] && s[..2][..1] == s[..1] && s[..1][..0] == s[..0];
    assert BE(s[..1]) == 256 * BE(s[..0]) + s[0];
    assert BE(s[..2]) == 256 * BE(s[..1]) + s[1];
    assert BE(s[..3]) == 256 * BE(s[..2]) + s[2];
  }
}

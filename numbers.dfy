/**
 * The JavaScript number conversions the source relies on, for values that are
 * integers or NaN: `String(n)` / `n.toString(radix)` and `parseInt(s, radix)`.
 */
module Numbers {
  import opened Wrappers
  import opened Bytes
  import Hex

  /** A JavaScript number as the source uses it: an integer, or NaN from a failed parse. */
  datatype Num = Int(i: int) | NaN

  const DigitChars := "0123456789abcdefghijklmnopqrstuvwxyz"

  /**
   * Value of a digit character in radices up to 36, letters in either case. For radix 16
   * it agrees with the hex codec's `Hex.HexValue` (see `HexDigitValue`).
   */
  function DigitValue(c: char): (v: Option<nat>)
    ensures v.Some? ==> v.value < 36
  {
    if '0' <= c <= '9' then Some(c as int - '0' as int)
    else if 'a' <= c <= 'z' then Some(c as int - 'a' as int + 10)
    else if 'A' <= c <= 'Z' then Some(c as int - 'A' as int + 10)
    else None
  }

  predicate IsDigit(c: char, radix: nat)
  {
    DigitValue(c).Some? && DigitValue(c).value < radix
  }

  predicate AllDigits(s: string, radix: nat)
  {
    forall i :: 0 <= i < |s| ==> IsDigit(s[i], radix)
  }

  /** Value of a string of digits, most significant first. */
  function DigitsValue(s: string, radix: nat): nat
    requires AllDigits(s, radix)
  {
    if s == [] then 0
    else DigitsValue(s[..|s| - 1], radix) * radix + DigitValue(s[|s| - 1]).value
  }

  /** `n.toString(radix)` for a non-negative integer: no leading zeros, lower-case letters. */
  function ToRadix(n: nat, radix: nat): (s: string)
    requires 2 <= radix <= 36
    ensures |s| >= 1
    decreases n
  {
    if n < radix then [DigitChars[n]]
    else
      DivMod(n, radix);
      ToRadix(n / radix, radix) + [DigitChars[n % radix]]
  }

  lemma DivMod(n: nat, radix: nat)
    requires 2 <= radix <= n
    ensures 1 <= n / radix < n && n % radix < radix
    ensures n == (n / radix) * radix + n % radix
  {
    var q, m := n / radix, n % radix;
    assert n == q * radix + m && 0 <= m < radix;
    MulMono(2, radix, q);
    assert q * radix >= 2 * q;
  }

  /** `String(n)` (radix 10) and `n.toString(radix)`. */
  function NumToString(n: Num, radix: nat): (s: string)
    requires 2 <= radix <= 36
    ensures |s| >= 1
    ensures n.NaN? ==> s == "NaN"
    ensures n.Int? ==> (s[0] == '-' <==> n.i < 0)
    ensures n.Int? ==>
      var digits := if n.i < 0 then s[1..] else s;
      AllDigits(digits, radix) && DigitsValue(digits, radix) == (if n.i < 0 then -n.i else n.i)
  {
    match n
    case NaN => "NaN"
    case Int(i) =>
      var m: nat := if i < 0 then -i else i;
      ToRadixValue(m, radix);
      assert IsDigit(ToRadix(m, radix)[0], radix);
      if i < 0 then
        assert ("-" + ToRadix(m, radix))[1..] == ToRadix(m, radix);
        "-" + ToRadix(m, radix)
      else ToRadix(m, radix)
  }

  /** The longest prefix of `s` made of digits of `radix`. */
  function LeadingDigits(s: string, radix: nat): (p: string)
    ensures |p| <= |s| && p == s[..|p|]
    ensures AllDigits(p, radix)
    ensures |p| < |s| ==> !IsDigit(s[|p|], radix)
  {
    if s == [] || !IsDigit(s[0], radix) then []
    else [s[0]] + LeadingDigits(s[1..], radix)
  }

  /**
   * `parseInt(s, radix)` for radix 10 or 16: an optional sign, for radix 16 an optional
   * "0x" prefix, then the longest run of digits; NaN when that run is empty.
   */
  function ParseInt(s: string, radix: nat): (r: Num)
    requires radix == 10 || radix == 16
    ensures s == [] ==> r == NaN
    ensures r.Int? && r.i < 0 ==> s[0] == '-'
    ensures |s| > 0 && IsDigit(s[0], radix)
            && !(radix == 16 && |s| >= 2 && s[0] == '0' && (s[1] == 'x' || s[1] == 'X'))
            ==> r.Int? && r.i >= 0
  {
    var digits := LeadingDigits(DropHexPrefix(DropSign(s), radix), radix);
    if digits == [] then NaN
    else Int(Signed(|s| > 0 && s[0] == '-', DigitsValue(digits, radix)))
  }

  /** `s` without a leading '-' or '+'. */
  function DropSign(s: string): string
  {
    if |s| > 0 && (s[0] == '-' || s[0] == '+') then s[1..] else s
  }

  /** For radix 16, `s` without a leading "0x" or "0X". */
  function DropHexPrefix(s: string, radix: nat): string
  {
    if radix == 16 && |s| >= 2 && s[0] == '0' && (s[1] == 'x' || s[1] == 'X') then s[2..] else s
  }

  function Signed(negative: bool, magnitude: nat): int
  {
    if negative then 0 - magnitude as int else magnitude
  }

  /** `s.padStart(width, '0')` */
  function PadZeros(s: string, width: nat): (r: string)
    ensures |r| == if |s| < width then width else |s|
    decreases width
  {
    if |s| < width then ['0'] + PadZeros(s, width - 1) else s
  }

  function Pow(radix: nat, k: nat): (r: nat)
  {
    if k == 0 then 1 else radix * Pow(radix, k - 1)
  }

  /** The byte-order power `Bytes.Pow256` is this power at radix 256. */
  lemma {:induction false} Pow256IsPow(k: nat)
    ensures Pow256(k) == Pow(256, k)
  {
    if k > 0 {
      Pow256IsPow(k - 1);
    }
  }

  lemma DigitCharValue(d: nat, radix: nat)
    requires d < radix <= 36
    ensures IsDigit(DigitChars[d], radix) && DigitValue(DigitChars[d]).value == d
  {
  }

  /** The digits `toString` writes are digits of the radix, and read back to `n`. */
  lemma {:induction false} ToRadixValue(n: nat, radix: nat)
    requires 2 <= radix <= 36
    ensures AllDigits(ToRadix(n, radix), radix)
    ensures DigitsValue(ToRadix(n, radix), radix) == n
  {
    if n < radix {
      DigitCharValue(n, radix);
      assert ToRadix(n, radix) == [] + [DigitChars[n]];
      DigitsAppend([], n, radix);
    } else {
      var q, m := n / radix, n % radix;
      DivMod(n, radix);
      ToRadixValue(q, radix);
      assert ToRadix(n, radix) == ToRadix(q, radix) + [DigitChars[m]];
      DigitsAppend(ToRadix(q, radix), m, radix);
    }
  }

  /** Appending the digit `d` multiplies the value by the radix and adds `d`. */
  lemma DigitsAppend(p: string, d: nat, radix: nat)
    requires AllDigits(p, radix) && d < radix <= 36
    ensures AllDigits(p + [DigitChars[d]], radix)
    ensures DigitsValue(p + [DigitChars[d]], radix) == DigitsValue(p, radix) * radix + d
  {
    DigitCharValue(d, radix);
    assert (p + [DigitChars[d]])[..|p|] == p;
  }

  /** `toString(radix)` of a value below `radix^k` has at most `k` digits. */
  lemma {:induction false} ToRadixLength(n: nat, radix: nat, k: nat)
    requires 2 <= radix <= 36 && 1 <= k
    requires n < Pow(radix, k)
    ensures |ToRadix(n, radix)| <= k
  {
    if n >= radix {
      var p := Pow(radix, k - 1);
      DivMod(n, radix);
      assert n / radix < p by {
        if n / radix >= p {
          MulMono(p, n / radix, radix);
        }
      }
      ToRadixLength(n / radix, radix, k - 1);
    }
  }

  lemma MulMono(a: nat, b: nat, c: nat)
    requires a <= b
    ensures a * c <= b * c
  {
  }

  /** A leading zero does not change the value of a digit string. */
  lemma {:induction false} LeadingZeroValue(s: string, radix: nat)
    requires AllDigits(s, radix) && 2 <= radix
    ensures AllDigits(['0'] + s, radix)
    ensures DigitsValue(['0'] + s, radix) == DigitsValue(s, radix)
  {
    var t := ['0'] + s;
    assert AllDigits(t, radix) by {
      forall i | 0 <= i < |t| ensures IsDigit(t[i], radix) {
        if i > 0 { assert t[i] == s[i - 1]; }
      }
    }
    if s != [] {
      assert t[..|t| - 1] == ['0'] + s[..|s| - 1];
      LeadingZeroValue(s[..|s| - 1], radix);
    }
  }

  /** Zero padding keeps a digit string a digit string and keeps its value. */
  lemma {:induction false} PadZerosValue(s: string, width: nat, radix: nat)
    requires AllDigits(s, radix) && 2 <= radix
    ensures AllDigits(PadZeros(s, width), radix)
    ensures DigitsValue(PadZeros(s, width), radix) == DigitsValue(s, radix)
    decreases width
  {
    if |s| < width {
      var t := PadZeros(s, width - 1);
      assert PadZeros(s, width) == ['0'] + t;
      PadZerosValue(s, width - 1, radix);
      LeadingZeroValue(t, radix);
    }
  }

  /** `padStart` keeps the text at the end and puts only '0' characters in front of it. */
  lemma {:induction false} PadZerosShape(s: string, width: nat)
    ensures var r := PadZeros(s, width);
      r == r[..|r| - |s|] + s && forall i :: 0 <= i < |r| - |s| ==> r[i] == '0'
    decreases width
  {
    if |s| < width {
      var t := PadZeros(s, width - 1);
      PadZerosShape(s, width - 1);
      PadZerosStep(s, width, t);
    }
  }

  /** One padding step: a '0' in front of text of the padded shape keeps that shape. */
  lemma PadZerosStep(s: string, width: nat, t: string)
    requires |s| < width && t == PadZeros(s, width - 1)
    requires |t| >= |s| && t == t[..|t| - |s|] + s && forall i :: 0 <= i < |t| - |s| ==> t[i] == '0'
    ensures var r := PadZeros(s, width);
      r == r[..|r| - |s|] + s && forall i :: 0 <= i < |r| - |s| ==> r[i] == '0'
  {
    var r := PadZeros(s, width);
    assert r == ['0'] + t;
    var z := t[..|t| - |s|];
    assert r[..|r| - |s|] == ['0'] + z;
    forall i | 0 < i < |r| - |s|
      ensures r[i] == '0'
    {
      assert r[i] == t[i - 1];
    }
  }

  /** Reading the number back from its decimal text gives the same number. */
  lemma ParseIntDecimal(n: Num)
    ensures ParseInt(NumToString(n, 10), 10) == n
  {
    match n
    case NaN =>
      assert LeadingDigits("NaN", 10) == [];
    case Int(i) =>
      var m: nat := if i < 0 then -i else i;
      ToRadixValue(m, 10);
      if i < 0 {
        assert NumToString(n, 10) == "-" + ToRadix(m, 10);
        ParseIntNegative(ToRadix(m, 10), 10);
      } else {
        ParseIntDigits(ToRadix(m, 10), 10);
      }
  }

  /** `parseInt` of digits only. */
  lemma ParseIntDigits(digits: string, radix: nat)
    requires radix == 10 || radix == 16
    requires digits != [] && AllDigits(digits, radix)
    requires radix == 16 && |digits| >= 2 ==> digits[1] != 'x' && digits[1] != 'X'
    ensures ParseInt(digits, radix) == Int(DigitsValue(digits, radix))
  {
    assert IsDigit(digits[0], radix);
    assert DropSign(digits) == digits;
    assert DropHexPrefix(digits, radix) == digits;
    AllDigitsLeading(digits, radix);
  }

  /** `parseInt` of a minus sign followed by digits only. */
  lemma ParseIntNegative(digits: string, radix: nat)
    requires radix == 10 || radix == 16
    requires digits != [] && AllDigits(digits, radix)
    requires radix == 16 && |digits| >= 2 ==> digits[1] != 'x' && digits[1] != 'X'
    ensures ParseInt("-" + digits, radix) == Int(Signed(true, DigitsValue(digits, radix)))
  {
    assert IsDigit(digits[0], radix);
    assert DropSign("-" + digits) == digits;
    assert DropHexPrefix(digits, radix) == digits;
    AllDigitsLeading(digits, radix);
  }

  lemma {:induction false} AllDigitsLeading(s: string, radix: nat)
    requires AllDigits(s, radix)
    ensures LeadingDigits(s, radix) == s
  {
    if s != [] {
      AllDigitsLeading(s[1..], radix);
    }
  }

  lemma HexDigitValue(c: char)
    requires Hex.IsHexDigit(c)
    ensures IsDigit(c, 16) && DigitValue(c).value == Hex.HexValue(c)
  {
  }

  /** Decoding a hex string whose last pair is split off. */
  lemma {:induction false} HexDecodeLast(s: string)
    requires Hex.IsHexString(s) && |s| >= 2
    ensures Hex.Decode(s) == Hex.Decode(s[..|s| - 2]) + [16 * Hex.HexValue(s[|s| - 2]) + Hex.HexValue(s[|s| - 1])]
  {
    if |s| > 2 {
      var t := s[2..];
      assert Hex.IsHexString(t) by {
        forall i | 0 <= i < |t| ensures Hex.IsHexDigit(t[i]) { assert t[i] == s[i + 2]; }
      }
      HexDecodeLast(t);
      var u := s[..|s| - 2];
      assert u[2..] == t[..|t| - 2];
      assert u[0] == s[0] && u[1] == s[1];
    }
  }

  /** A buffer decoded from a hex string has the big-endian value the digits spell. */
  lemma {:induction false} HexDecodeValue(s: string)
    requires Hex.IsHexString(s)
    ensures AllDigits(s, 16)
    ensures |Hex.Decode(s)| * 2 == |s|
    ensures BE(Hex.Decode(s)) == DigitsValue(s, 16)
    decreases |s|
  {
    assert AllDigits(s, 16) by {
      forall i | 0 <= i < |s| ensures IsDigit(s[i], 16) { HexDigitValue(s[i]); }
    }
    if s != [] {
      var u := s[..|s| - 2];
      assert Hex.IsHexString(u) by {
        forall i | 0 <= i < |u| ensures Hex.IsHexDigit(u[i]) { assert u[i] == s[i]; }
      }
      HexDecodeLast(s);
      HexDecodeValue(u);
      var d := Hex.Decode(s);
      HexDigitValue(s[|s| - 2]);
      HexDigitValue(s[|s| - 1]);
      assert d[..|d| - 1] == Hex.Decode(u);
      assert s[..|s| - 1][..|s| - 2] == u;
    }
  }

  /** `parseInt(buf.toString('hex'), 16)`: NaN for an empty buffer, else the big-endian value. */
  lemma ParseIntHex(b: seq<byte>)
    ensures ParseInt(Hex.Encode(b), 16) == if b == [] then NaN else Int(BE(b))
  {
    if b == [] {
      assert Hex.Encode(b) == [];
      assert ParseInt([], 16) == NaN;
    } else {
      ParseIntHexNonEmpty(b);
    }
  }

  lemma ParseIntHexNonEmpty(b: seq<byte>)
    requires b != []
    ensures ParseInt(Hex.Encode(b), 16) == Int(BE(b))
  {
    Hex.EncodeIsHex(b);
    Hex.DecodeEncode(b);
    ParseIntHexString(Hex.Encode(b));
  }

  /** `parseInt(s, 16)` of a non-empty hex string is the big-endian value of its decoded bytes. */
  lemma ParseIntHexString(s: string)
    requires Hex.IsHexString(s) && s != []
    ensures ParseInt(s, 16) == Int(BE(Hex.Decode(s)))
  {
    HexDecodeValue(s);
    assert !(s[1] == 'x' || s[1] == 'X') by {
      assert Hex.IsHexDigit(s[1]);
    }
    ParseIntDigits(s, 16);
  }
}

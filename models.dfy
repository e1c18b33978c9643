/**
 * Inscription origins and inscription envelopes.
 *
 * An `Origin` names an output of a transaction: its textual form is the hex of
 * the txid, an underscore and the output index in decimal; its binary form is
 * the txid followed by the index as four big-endian bytes.
 *
 * `ParseOutputScript` finds an inscription envelope (OP_FALSE OP_IF push("ord")
 * followed by opcode/payload pairs) in a script's chunk list and reads its
 * content type and content; the script before the envelope is the lock.
 */
module Models {
  import opened Wrappers
  import opened Bytes
  import Hex
  import opened Numbers
  import Utf8
  import opened Script

  /** A JavaScript `number` output index is either an integer or NaN (what `parseInt` yields on no digits). */
  datatype Origin = Origin(txid: seq<byte>, vout: Num)

  /** `toString()`: lower-case hex of the txid, `_`, the index in decimal. */
  function ToString(o: Origin): (s: string)
    ensures |s| > 2 * |o.txid| && s[2 * |o.txid|] == '_'
    ensures Hex.Decode(s[..2 * |o.txid|]) == o.txid
    ensures forall k :: 0 <= k < 2 * |o.txid| ==> Hex.IsHexDigit(s[k]) && !('A' <= s[k] <= 'F')
  {
    var h := Hex.Encode(o.txid);
    Hex.DecodeEncode(o.txid);
    var s := h + "_" + NumToString(o.vout, 10);
    assert s[..|h|] == h;
    s
  }

  /** `toJSON()` is the textual form. */
  function ToJson(o: Origin): (s: string)
    ensures s == ToString(o)
  {
    ToString(o)
  }

  /**
   * `fromString(str)`: the first 64 characters decoded as hex (stopping at the first
   * bad pair), the index parsed from offset 65 on. Nothing is validated.
   */
  function FromString(s: string): (o: Origin)
    ensures |o.txid| <= 32
    ensures |s| <= 65 ==> o.vout == NaN
  {
    var hexPart := if |s| <= 64 then s else s[..64];
    var indexPart := if |s| <= 65 then "" else s[65..];
    assert ParseInt("", 10) == NaN by {
      assert LeadingDigits("", 10) == [];
    }
    Origin(Hex.Decode(hexPart), ParseInt(indexPart, 10))
  }

  /** `toBuffer()`: the txid, then the index as hex padded to 8 digits and decoded. */
  function ToBuffer(o: Origin): (b: seq<byte>)
    ensures |b| >= |o.txid| && b[..|o.txid|] == o.txid
  {
    var tail := Hex.Decode(PadZeros(NumToString(o.vout, 16), 8));
    o.txid + tail
  }

  /** `fromBuffer(buf)`: the first 32 bytes, then the rest read as one hexadecimal number. */
  function FromBuffer(b: seq<byte>): (o: Origin)
    ensures |o.txid| == if |b| < 32 then |b| else 32
    ensures |b| <= 32 ==> o.vout == NaN
    ensures |b| > 32 ==> o.vout == Int(BE(b[32..]))
  {
    var rest := Slice(b, 32, |b|);
    assert |b| > 32 ==> rest == b[32..];
    ParseIntHex(rest);
    Origin(Slice(b, 0, 32), ParseInt(Hex.Encode(rest), 16))
  }

  /** The textual form reads back to the same origin, whatever the index (NaN and negatives included). */
  lemma FromStringToString(o: Origin)
    requires |o.txid| == 32
    ensures FromString(ToString(o)) == o
  {
    var s := ToString(o);
    var h := Hex.Encode(o.txid);
    var t := NumToString(o.vout, 10);
    assert s == h + "_" + t;
    assert s[..64] == h;
    assert s[65..] == t;
    Hex.DecodeEncode(o.txid);
    ParseIntDecimal(o.vout);
    assert t != [] by {
      match o.vout
      case NaN =>
      case Int(i) =>
    }
  }

  /** Every character `n.toString(16)` can produce is a hex digit. */
  lemma HexDigitsAreHex(s: string)
    requires AllDigits(s, 16)
    ensures forall k :: 0 <= k < |s| ==> Hex.IsHexDigit(s[k])
  {
    forall k | 0 <= k < |s|
      ensures Hex.IsHexDigit(s[k])
    {
      assert IsDigit(s[k], 16);
    }
  }

  /** For a 32-byte txid and an index below 2^32 the binary form is 36 bytes: txid, then the index big-endian. */
  lemma ToBufferLayout(o: Origin)
    requires |o.txid| == 32 && o.vout.Int? && 0 <= o.vout.i < 0x1_0000_0000
    ensures |ToBuffer(o)| == 36
    ensures ToBuffer(o)[..32] == o.txid
    ensures BE(ToBuffer(o)[32..]) == o.vout.i
  {
    var v: nat := o.vout.i;
    var digits := ToRadix(v, 16);
    assert NumToString(o.vout, 16) == digits;
    assert Pow(16, 8) == 0x1_0000_0000 by {
      assert Pow(16, 4) == 0x1_0000;
    }
    ToRadixLength(v, 16, 8);
    ToRadixValue(v, 16);
    var padded := PadZeros(digits, 8);
    PadZerosValue(digits, 8, 16);
    HexDigitsAreHex(padded);
    assert Hex.IsHexString(padded);
    HexDecodeValue(padded);
    var b := ToBuffer(o);
    assert b == o.txid + Hex.Decode(padded);
    assert b[32..] == Hex.Decode(padded);
  }

  /** Reading the binary form back gives the same origin. */
  lemma FromBufferToBuffer(o: Origin)
    requires |o.txid| == 32 && o.vout.Int? && 0 <= o.vout.i < 0x1_0000_0000
    ensures FromBuffer(ToBuffer(o)) == o
  {
    ToBufferLayout(o);
    var b := ToBuffer(o);
    assert Slice(b, 0, 32) == o.txid;
  }

  /** "ord" in UTF-8. */
  const OrdTag: seq<byte> := [0x6f, 0x72, 0x64]

  /** What a parse yields; `type_` and `data` are absent when the payload chunk carries no bytes. */
  datatype InscriptionData = InscriptionData(type_: Option<string>, data: Option<seq<byte>>, lock: seq<byte>)

  /** A fresh `InscriptionData`: empty type, empty data, 32 zero bytes of lock. */
  const Defaults: InscriptionData := InscriptionData(Some(""), Some([]), seq(32, _ => 0))

  /** Reading a payload past the last chunk. */
  datatype ParseError = MissingPayload(index: nat)

  /**
   * The value a marker index holds after the scan has seen `chunks[..n]`: the last
   * index below `n` whose opcode is `op`, or its initial 0 when there is none.
   */
  function LastBefore(chunks: seq<Chunk>, op: int, n: nat): (j: nat)
    requires n <= |chunks|
    ensures j == 0 || j < n
    ensures 0 < j ==> chunks[j].opCodeNum == op
  {
    if n == 0 then 0
    else if chunks[n - 1].opCodeNum == op then n - 1
    else LastBefore(chunks, op, n - 1)
  }

  /** No chunk after `LastBefore` and below `n` has opcode `op`. */
  lemma {:induction false} LastBeforeIsLast(chunks: seq<Chunk>, op: int, n: nat)
    requires n <= |chunks|
    ensures forall k :: LastBefore(chunks, op, n) < k < n ==> chunks[k].opCodeNum != op
  {
    if n > 0 && chunks[n - 1].opCodeNum != op {
      LastBeforeIsLast(chunks, op, n - 1);
    }
  }

  /** Chunk `i` pushes "ord" while the OP_FALSE and OP_IF markers stand at `i - 2` and `i - 1`. */
  predicate IsEnvelopeStart(chunks: seq<Chunk>, i: nat)
  {
    i < |chunks|
    && chunks[i].buf == Some(OrdTag)
    && LastBefore(chunks, OP_FALSE, i + 1) == i - 2
    && LastBefore(chunks, OP_IF, i + 1) == i - 1
  }

  /** The first envelope start at or after `from`. */
  function FindEnvelope(chunks: seq<Chunk>, from: nat): (r: Option<nat>)
    requires from <= |chunks|
    ensures r.Some? ==> from <= r.value && IsEnvelopeStart(chunks, r.value)
    decreases |chunks| - from
  {
    if from == |chunks| then None
    else if IsEnvelopeStart(chunks, from) then Some(from)
    else FindEnvelope(chunks, from + 1)
  }

  /** `FindEnvelope` finds the first envelope start, and `None` means there is none. */
  lemma {:induction false} FindEnvelopeIsFirst(chunks: seq<Chunk>, from: nat)
    requires from <= |chunks|
    ensures var r := FindEnvelope(chunks, from);
      (r.Some? ==> forall j :: from <= j < r.value ==> !IsEnvelopeStart(chunks, j))
      && (r.None? ==> forall j :: from <= j < |chunks| ==> !IsEnvelopeStart(chunks, j))
    decreases |chunks| - from
  {
    if from < |chunks| && !IsEnvelopeStart(chunks, from) {
      FindEnvelopeIsFirst(chunks, from + 1);
    }
  }

  /** `buf?.toString('utf8')` */
  function TextOf(buf: Option<seq<byte>>): (t: Option<string>)
    ensures t.Some? <==> buf.Some?
  {
    if buf.Some? then Some(Utf8.Decode(buf.value)) else None
  }

  /**
   * The envelope's field loop from chunk `i` on, two chunks at a time: it stops at a
   * chunk carrying data; OP_0 takes the next chunk's payload as data, OP_1 as text for
   * the type, any other opcode (OP_ENDIF included) is passed over.
   */
  function ReadFields(chunks: seq<Chunk>, i: nat, acc: InscriptionData): (r: Result<InscriptionData, ParseError>)
    ensures r.Ok? ==> r.value.lock == acc.lock
    ensures r.Err? ==> r.error.index == |chunks| && i < |chunks|
    decreases |chunks| - i
  {
    if i >= |chunks| || chunks[i].buf.Some? then Ok(acc)
    else if chunks[i].opCodeNum == OP_0 then
      if i + 1 >= |chunks| then Err(MissingPayload(i + 1))
      else ReadFields(chunks, i + 2, acc.(data := chunks[i + 1].buf))
    else if chunks[i].opCodeNum == OP_1 then
      if i + 1 >= |chunks| then Err(MissingPayload(i + 1))
      else ReadFields(chunks, i + 2, acc.(type_ := TextOf(chunks[i + 1].buf)))
    else ReadFields(chunks, i + 2, acc)
  }

  /**
   * What `parseOutputScript` computes. Without an envelope the lock is the reversed
   * digest of the whole script and the fields keep their defaults; with one at `i`
   * the lock is the reversed digest of the chunks before its OP_FALSE.
   */
  function Parse(chunks: seq<Chunk>, digest: seq<Chunk> -> seq<byte>): (r: Result<InscriptionData, ParseError>)
    ensures r.Err? ==> FindEnvelope(chunks, 0).Some? && r.error == MissingPayload(|chunks|)
    ensures FindEnvelope(chunks, 0).None? ==> r.Ok? && r.value.type_ == Some("") && r.value.data == Some([])
  {
    match FindEnvelope(chunks, 0)
    case None => Ok(Defaults.(lock := Reverse(digest(chunks))))
    case Some(i) => ReadFields(chunks, i + 1, Defaults.(lock := Reverse(digest(chunks[..i - 2]))))
  }

  /**
   * `Inscription.parseOutputScript(script)`. `digest` stands for hashing the serialised
   * script with SHA-256.
   */
  method ParseOutputScript(chunks: seq<Chunk>, digest: seq<Chunk> -> seq<byte>)
    returns (r: Result<InscriptionData, ParseError>)
    ensures r == Parse(chunks, digest)
  {
    var opFalse: int := 0;
    var opIf: int := 0;
    var opOrd := 0;
    var lock: seq<Chunk> := [];
    var i := 0;
    while i < |chunks|
      invariant i <= |chunks|
      invariant opOrd == 0
      invariant opFalse == LastBefore(chunks, OP_FALSE, i) && opIf == LastBefore(chunks, OP_IF, i)
      invariant lock == chunks[..i]
      invariant FindEnvelope(chunks, 0) == FindEnvelope(chunks, i)
      decreases |chunks| - i
    {
      var chunk := chunks[i];
      ScanStep(chunks, i);
      if chunk.opCodeNum == OP_FALSE {
        opFalse := i;
      }
      if chunk.opCodeNum == OP_IF {
        opIf := i;
      }
      if chunk.buf == Some(OrdTag) {
        if opFalse == i - 2 && opIf == i - 1 {
          opOrd := i;
          lock := chunks[..i - 2];
          break;
        }
      }
      lock := lock + [chunk];
      i := i + 1;
    }

    if opOrd == 0 {
      return Ok(Defaults.(lock := Reverse(digest(chunks))));
    }
    var ins := Defaults.(lock := Reverse(digest(lock)));
    var j := opOrd + 1;
    while j < |chunks|
      invariant Parse(chunks, digest) == ReadFields(chunks, j, ins)
      decreases |chunks| - j
    {
      if chunks[j].buf.Some? {
        break;
      }
      if chunks[j].opCodeNum == OP_0 {
        if j + 1 >= |chunks| {
          return Err(MissingPayload(j + 1));
        }
        ins := ins.(data := chunks[j + 1].buf);
      } else if chunks[j].opCodeNum == OP_1 {
        if j + 1 >= |chunks| {
          return Err(MissingPayload(j + 1));
        }
        ins := ins.(type_ := TextOf(chunks[j + 1].buf));
      }
      j := j + 2;
    }
    return Ok(ins);
  }

  /** One step of the scan: how the markers, the lock and the search move past chunk `i`. */
  lemma ScanStep(chunks: seq<Chunk>, i: nat)
    requires i < |chunks|
    ensures LastBefore(chunks, OP_FALSE, i + 1) == if chunks[i].opCodeNum == OP_FALSE then i else LastBefore(chunks, OP_FALSE, i)
    ensures LastBefore(chunks, OP_IF, i + 1) == if chunks[i].opCodeNum == OP_IF then i else LastBefore(chunks, OP_IF, i)
    ensures chunks[..i + 1] == chunks[..i] + [chunks[i]]
    ensures FindEnvelope(chunks, i) == if IsEnvelopeStart(chunks, i) then Some(i) else FindEnvelope(chunks, i + 1)
  {
  }

  /** With no envelope anywhere the lock is the reversed digest of the whole script and the fields are the defaults. */
  lemma ParseWithoutEnvelope(chunks: seq<Chunk>, digest: seq<Chunk> -> seq<byte>)
    requires forall i :: 0 <= i < |chunks| ==> !IsEnvelopeStart(chunks, i)
    ensures Parse(chunks, digest) == Ok(Defaults.(lock := Reverse(digest(chunks))))
  {
    FindEnvelopeIsFirst(chunks, 0);
  }

  /**
   * OP_ENDIF only leaves the `switch`: the field loop passes over it and goes on reading
   * pairs, so an OP_0 pair after OP_ENDIF still replaces the content.
   */
  lemma EndifDoesNotStop(acc: InscriptionData, x: seq<byte>)
    ensures ReadFields([OpChunk(OP_ENDIF), OpChunk(OP_1), OpChunk(OP_0), Chunk(1, Some(x))], 0, acc)
         == Ok(acc.(data := Some(x)))
  {
    var chunks := [OpChunk(OP_ENDIF), OpChunk(OP_1), OpChunk(OP_0), Chunk(1, Some(x))];
    assert ReadFields(chunks, 0, acc) == ReadFields(chunks, 2, acc);
    assert ReadFields(chunks, 2, acc) == ReadFields(chunks, 4, acc.(data := Some(x)));
  }

  /** With the first envelope at `i`, the scan stops there and the lock covers exactly `chunks[..i - 2]`. */
  lemma ParseEnvelopeLock(chunks: seq<Chunk>, digest: seq<Chunk> -> seq<byte>, i: nat)
    requires IsEnvelopeStart(chunks, i)
    requires forall j :: 0 <= j < i ==> !IsEnvelopeStart(chunks, j)
    ensures 2 <= i
    ensures Parse(chunks, digest).Ok? ==> Parse(chunks, digest).value.lock == Reverse(digest(chunks[..i - 2]))
  {
    FindEnvelopeIsFirst(chunks, 0);
    var f := FindEnvelope(chunks, 0);
    assert f == Some(i);
  }

  /**
   * The markers start out at 0, so a push of "ord" at index 2 right after OP_IF opens an
   * envelope even though chunk 0 is not OP_FALSE.
   */
  lemma MarkerStartsAtZero()
    ensures var chunks := [OpChunk(0x76), OpChunk(OP_IF), Chunk(3, Some(OrdTag))];
      chunks[0].opCodeNum != OP_FALSE && FindEnvelope(chunks, 0) == Some(2)
  {
    var chunks := [OpChunk(0x76), OpChunk(OP_IF), Chunk(3, Some(OrdTag))];
    assert LastBefore(chunks, OP_FALSE, 3) == 0;
    assert LastBefore(chunks, OP_IF, 3) == 1;
    assert IsEnvelopeStart(chunks, 2);
    assert !IsEnvelopeStart(chunks, 0) && !IsEnvelopeStart(chunks, 1);
    assert FindEnvelope(chunks, 2) == Some(2);
    assert FindEnvelope(chunks, 1) == Some(2);
  }
}

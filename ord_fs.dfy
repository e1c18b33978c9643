/**
 * Building inscription scripts and funding transactions from a pool of unspent
 * outputs: inputs are taken from the front of the pool until they cover the
 * outputs and the fee, the excess is split into change outputs, and the new
 * change outputs are returned to the back of the pool.
 */
module OrdFs {
  import opened Wrappers
  import opened Bytes
  import Hex
  import Utf8
  import opened Script
  import opened Models

  const SATS_PER_KB: nat := 50
  const INPUT_SIZE: nat := 148
  const OUTPUT_SIZE: nat := 34
  const DUST: nat := 10
  const SPLIT_SATS: nat := 100000
  const MAX_SPLITS: nat := 100
  const SEQUENCE_FINAL: nat := 0xffff_ffff

  /** `Math.ceil(size * SATS_PER_KB / 1000)`: the fee for `size` bytes, rounded up to a whole satoshi. */
  function Fee(size: nat): (fee: nat)
    ensures fee * 1000 >= size * SATS_PER_KB
    ensures fee == 0 || (fee - 1) * 1000 < size * SATS_PER_KB
  {
    (size * SATS_PER_KB + 999) / 1000
  }

  /** `OUTPUT_FEE`, the fee for one more output. */
  const OUTPUT_FEE: nat := Fee(OUTPUT_SIZE)

  /**
   * `createInscriptionScript(lock, content, type)`: a copy of the lock's chunks, then
   * OP_FALSE OP_IF push("ord") OP_1 push(type) OP_0 push(content) OP_ENDIF.
   */
  function CreateInscriptionScript(lock: seq<Chunk>, content: seq<byte>, type_: string): (r: Result<seq<Chunk>, ScriptError>)
    ensures r.Ok? <==> |Utf8.Encode(type_)| < 0x1_0000_0000 && |content| < 0x1_0000_0000
    ensures r.Ok? ==> |r.value| == |lock| + 8 && r.value[..|lock|] == lock
    ensures r.Ok? ==> r.value[|lock| + 4].buf == Some(Utf8.Encode(type_)) && r.value[|lock| + 6].buf == Some(content)
  {
    var ord := PushChunk(OrdTag);
    var typePush := PushChunk(Utf8.Encode(type_));
    var contentPush := PushChunk(content);
    if typePush.Err? then Err(typePush.error)
    else if contentPush.Err? then Err(contentPush.error)
    else
      var s := lock + [OpChunk(OP_FALSE), OpChunk(OP_IF), ord.value, OpChunk(OP_1),
                       typePush.value, OpChunk(OP_0), contentPush.value, OpChunk(OP_ENDIF)];
      assert s[..|lock|] == lock;
      Ok(s)
  }

  /**
   * In a created script the first envelope starts at the "ord" push right after the lock,
   * provided no chunk of the lock pushes "ord".
   */
  lemma CreatedEnvelopeStart(lock: seq<Chunk>, content: seq<byte>, type_: string)
    requires forall k :: 0 <= k < |lock| ==> lock[k].buf != Some(OrdTag)
    requires CreateInscriptionScript(lock, content, type_).Ok?
    ensures var s := CreateInscriptionScript(lock, content, type_).value;
      FindEnvelope(s, 0) == Some(|lock| + 2) && s[..|lock|] == lock
  {
    var s := CreateInscriptionScript(lock, content, type_).value;
    var n := |lock|;
    assert s == lock + s[n..];
    assert s[n] == OpChunk(OP_FALSE) && s[n + 1] == OpChunk(OP_IF);
    assert s[n + 2] == Chunk(3, Some(OrdTag));
    forall j | 0 <= j < n + 2
      ensures !IsEnvelopeStart(s, j)
    {
      if j < n {
        assert s[j] == lock[j];
      }
    }
    assert LastBefore(s, OP_FALSE, n + 3) == n by {
      assert LastBefore(s, OP_FALSE, n + 3) == LastBefore(s, OP_FALSE, n + 2);
      assert LastBefore(s, OP_FALSE, n + 2) == LastBefore(s, OP_FALSE, n + 1);
    }
    assert LastBefore(s, OP_IF, n + 3) == n + 1;
    assert IsEnvelopeStart(s, n + 2);
    FindEnvelopeIsFirst(s, 0);
  }

  /**
   * Parsing a created script gives back the type and the content, and the lock is the
   * reversed digest of the lock's chunks, provided none of those pushes "ord".
   */
  lemma ParseCreateRoundTrip(lock: seq<Chunk>, content: seq<byte>, type_: string, digest: seq<Chunk> -> seq<byte>)
    requires forall k :: 0 <= k < |lock| ==> lock[k].buf != Some(OrdTag)
    requires CreateInscriptionScript(lock, content, type_).Ok?
    ensures Parse(CreateInscriptionScript(lock, content, type_).value, digest)
         == Ok(InscriptionData(Some(type_), Some(content), Reverse(digest(lock))))
  {
    var s := CreateInscriptionScript(lock, content, type_).value;
    var n := |lock|;
    CreatedEnvelopeStart(lock, content, type_);
    assert s[n + 3] == OpChunk(OP_1) && s[n + 5] == OpChunk(OP_0) && s[n + 7] == OpChunk(OP_ENDIF);
    var d0 := Defaults.(lock := Reverse(digest(lock)));
    assert Parse(s, digest) == ReadFields(s, n + 3, d0);
    Utf8.DecodeEncode(type_);
    var d1 := d0.(type_ := Some(type_));
    assert ReadFields(s, n + 3, d0) == ReadFields(s, n + 5, d1);
    var d2 := d1.(data := Some(content));
    assert ReadFields(s, n + 5, d1) == ReadFields(s, n + 7, d2);
    assert ReadFields(s, n + 7, d2) == ReadFields(s, n + 9, d2);
  }

  /** An unspent output in the funding pool. */
  datatype Utxo = Utxo(txHash: string, txPos: nat, value: nat)

  datatype TxIn = TxIn(prevTxId: seq<byte>, outIndex: nat, script: seq<Chunk>, sequence: nat)

  datatype TxOut = TxOut(value: nat, script: seq<Chunk>)

  /** What signing needs about an input: the script it spends and its value. */
  datatype Parent = Parent(lockingScript: seq<Chunk>, satoshis: nat)

  datatype FundError = NotEnoughFunds

  /** A transaction under construction; inputs and outputs are appended in place. */
  class Tx {
    var txIns: seq<TxIn>
    var txOuts: seq<TxOut>

    constructor (outs: seq<TxOut>)
      ensures txIns == [] && txOuts == outs
    {
      txIns := [];
      txOuts := outs;
    }

    method AddTxIn(prevTxId: seq<byte>, outIndex: nat, script: seq<Chunk>, sequence: nat)
      modifies this
      ensures txIns == old(txIns) + [TxIn(prevTxId, outIndex, script, sequence)]
      ensures txOuts == old(txOuts)
    {
      txIns := txIns + [TxIn(prevTxId, outIndex, script, sequence)];
    }

    method AddTxOut(value: nat, script: seq<Chunk>)
      modifies this
      ensures txOuts == old(txOuts) + [TxOut(value, script)]
      ensures txIns == old(txIns)
    {
      txOuts := txOuts + [TxOut(value, script)];
    }
  }

  /** The module-level `utxos` array: taken from the front, refilled at the back. */
  class UtxoPool {
    var utxos: seq<Utxo>

    constructor (us: seq<Utxo>)
      ensures utxos == us
    {
      utxos := us;
    }
  }

  /** The input spending `u`: its txid byte-reversed, an empty script, a final sequence number. */
  function InputFor(u: Utxo): (r: TxIn)
    ensures r.outIndex == u.txPos && r.script == [] && r.sequence == SEQUENCE_FINAL
    ensures Reverse(r.prevTxId) == Hex.Decode(u.txHash)
    ensures Hex.IsHexString(u.txHash) ==> 2 * |r.prevTxId| == |u.txHash|
  {
    ReverseReverse(Hex.Decode(u.txHash));
    Hex.DecodeCompleteIff(u.txHash);
    TxIn(Reverse(Hex.Decode(u.txHash)), u.txPos, [], SEQUENCE_FINAL)
  }

  function Inputs(us: seq<Utxo>): (r: seq<TxIn>)
    ensures |r| == |us|
  {
    if us == [] then [] else Inputs(us[..|us| - 1]) + [InputFor(us[|us| - 1])]
  }

  function Parents(us: seq<Utxo>, fundsScript: seq<Chunk>): (r: seq<Parent>)
    ensures |r| == |us|
  {
    if us == [] then [] else Parents(us[..|us| - 1], fundsScript) + [Parent(fundsScript, us[|us| - 1].value)]
  }

  function SumValues(us: seq<Utxo>): nat
  {
    if us == [] then 0 else SumValues(us[..|us| - 1]) + us[|us| - 1].value
  }

  /** The k-th input and the k-th parent both come from the k-th pool entry taken. */
  lemma {:induction false} InputsParentsAt(us: seq<Utxo>, fundsScript: seq<Chunk>)
    ensures forall k :: 0 <= k < |us| ==> Inputs(us)[k] == InputFor(us[k])
    ensures forall k :: 0 <= k < |us| ==> Parents(us, fundsScript)[k] == Parent(fundsScript, us[k].value)
  {
    if us != [] {
      var init := us[..|us| - 1];
      InputsParentsAt(init, fundsScript);
      forall k | 0 <= k < |init|
        ensures Inputs(us)[k] == InputFor(us[k]) && Parents(us, fundsScript)[k] == Parent(fundsScript, us[k].value)
      {
        assert us[k] == init[k];
      }
    }
  }

  /** `tx.txOuts.reduce((a, b) => a + b.valueBn.toNumber(), 0)` */
  function SumOutputs(outs: seq<TxOut>): (r: nat)
    ensures forall k :: 0 <= k < |outs| ==> outs[k].value <= r
  {
    if outs == [] then 0 else SumOutputs(outs[..|outs| - 1]) + outs[|outs| - 1].value
  }

  /** The sum of concatenated output lists is the sum of the sums. */
  lemma {:induction false} SumOutputsAppend(a: seq<TxOut>, b: seq<TxOut>)
    ensures SumOutputs(a + b) == SumOutputs(a) + SumOutputs(b)
  {
    if b != [] {
      var init := b[..|b| - 1];
      assert (a + b)[..|a + b| - 1] == a + init;
      SumOutputsAppend(a, init);
    } else {
      assert a + b == a;
    }
  }

  /** Taking the first `k` outputs of the pool covers `satsOut` and the fee of the grown transaction. */
  predicate Covered(pool: seq<Utxo>, satsOut: nat, size0: nat, k: nat)
    requires k <= |pool|
  {
    SumValues(pool[..k]) >= satsOut + Fee(size0 + INPUT_SIZE * k)
  }

  /** The number of pool entries the selection loop takes: the least covering `k` at or after `from`. */
  function Needed(pool: seq<Utxo>, satsOut: nat, size0: nat, from: nat): (r: Option<nat>)
    requires from <= |pool|
    ensures r.Some? ==> from <= r.value <= |pool|
    decreases |pool| - from
  {
    if Covered(pool, satsOut, size0, from) then Some(from)
    else if from == |pool| then None
    else Needed(pool, satsOut, size0, from + 1)
  }

  /** `Needed` is the least covering count, and `None` exactly when no count covers. */
  lemma {:induction false} NeededIsLeast(pool: seq<Utxo>, satsOut: nat, size0: nat, from: nat)
    requires from <= |pool|
    ensures var r := Needed(pool, satsOut, size0, from);
      (r.Some? ==> Covered(pool, satsOut, size0, r.value))
      && (r.Some? ==> forall j :: from <= j < r.value ==> !Covered(pool, satsOut, size0, j))
      && (r.None? ==> forall j :: from <= j <= |pool| ==> !Covered(pool, satsOut, size0, j))
    decreases |pool| - from
  {
    if !Covered(pool, satsOut, size0, from) && from < |pool| {
      NeededIsLeast(pool, satsOut, size0, from + 1);
    }
  }

  /** The state the selection loop leaves behind. */
  datatype Selection = Selection(parents: seq<Parent>, satsIn: nat, size: nat)

  /** How many pool entries the selection loop shifts: `Needed`, or the whole pool. */
  function Taken(us: seq<Utxo>, satsOut: nat, size0: nat): (k: nat)
    ensures k <= |us|
  {
    match Needed(us, satsOut, size0, 0)
    case Some(k) => k
    case None => |us|
  }

  /** The outcome of the selection loop on pool `us`. */
  function Select(us: seq<Utxo>, satsOut: nat, size0: nat, fundsScript: seq<Chunk>): (r: Result<Selection, FundError>)
    ensures r.Err? ==> r.error == NotEnoughFunds
    ensures r.Ok? ==> (|r.value.parents| <= |us|
      && r.value.satsIn == SumValues(us[..|r.value.parents|])
      && r.value.size == size0 + INPUT_SIZE * |r.value.parents|)
  {
    match Needed(us, satsOut, size0, 0)
    case Some(k) => Ok(Selection(Parents(us[..k], fundsScript), SumValues(us[..k]), size0 + INPUT_SIZE * k))
    case None => Err(NotEnoughFunds)
  }

  /**
   * The selection loop of `fundAndBroadcast`: while the inputs do not cover the outputs
   * and the fee, shift the next pool entry, add it as an input and record it as a parent.
   * An empty pool is 'Not enough funds', after every entry has been taken.
   */
  method SelectInputs(pool: UtxoPool, tx: Tx, satsOut: nat, size0: nat, fundsScript: seq<Chunk>)
    returns (r: Result<Selection, FundError>)
    modifies pool, tx
    ensures r == Select(old(pool.utxos), satsOut, size0, fundsScript)
    ensures pool.utxos == old(pool.utxos)[Taken(old(pool.utxos), satsOut, size0)..]
    ensures tx.txIns == old(tx.txIns) + Inputs(old(pool.utxos)[..Taken(old(pool.utxos), satsOut, size0)])
    ensures tx.txOuts == old(tx.txOuts)
  {
    ghost var us := pool.utxos;
    ghost var taken := 0;
    var size := size0;
    var fee := Fee(size);
    var satsIn := 0;
    var parents: seq<Parent> := [];
    while satsIn < satsOut + fee
      invariant taken <= |us| && pool.utxos == us[taken..]
      invariant satsIn == SumValues(us[..taken]) && size == size0 + INPUT_SIZE * taken && fee == Fee(size)
      invariant parents == Parents(us[..taken], fundsScript)
      invariant tx.txIns == old(tx.txIns) + Inputs(us[..taken]) && tx.txOuts == old(tx.txOuts)
      invariant Needed(us, satsOut, size0, 0) == Needed(us, satsOut, size0, taken)
      decreases |pool.utxos|
    {
      if pool.utxos == [] {
        assert us[..taken] == us && Needed(us, satsOut, size0, taken).None?;
        SelectOutcome(us, satsOut, size0, fundsScript);
        return Err(NotEnoughFunds);
      }
      TakeStep(us, satsOut, size0, fundsScript, taken);
      var utxo := pool.utxos[0];
      pool.utxos := pool.utxos[1..];
      var input := InputFor(utxo);
      tx.AddTxIn(input.prevTxId, input.outIndex, input.script, input.sequence);
      parents := parents + [Parent(fundsScript, utxo.value)];
      satsIn := satsIn + utxo.value;
      size := size + INPUT_SIZE;
      fee := Fee(size);
      taken := taken + 1;
    }
    assert Needed(us, satsOut, size0, taken) == Some(taken);
    SelectOutcome(us, satsOut, size0, fundsScript);
    return Ok(Selection(parents, satsIn, size));
  }

  /** `Select` and `Taken` read off `Needed`. */
  lemma SelectOutcome(us: seq<Utxo>, satsOut: nat, size0: nat, fundsScript: seq<Chunk>)
    ensures var k := Needed(us, satsOut, size0, 0);
      if k.Some? then
        Taken(us, satsOut, size0) == k.value
        && Select(us, satsOut, size0, fundsScript)
           == Ok(Selection(Parents(us[..k.value], fundsScript), SumValues(us[..k.value]), size0 + INPUT_SIZE * k.value))
      else
        Taken(us, satsOut, size0) == |us| && Select(us, satsOut, size0, fundsScript) == Err(NotEnoughFunds)
  {
  }

  /** A successful selection covers the outputs and the fee of the grown transaction. */
  lemma SelectSufficient(us: seq<Utxo>, satsOut: nat, size0: nat, fundsScript: seq<Chunk>)
    ensures var sel := Select(us, satsOut, size0, fundsScript);
      sel.Ok? ==> sel.value.satsIn >= satsOut + Fee(sel.value.size)
  {
    NeededIsLeast(us, satsOut, size0, 0);
    SelectOutcome(us, satsOut, size0, fundsScript);
  }

  /**
   * A successful selection takes no more entries than needed; a failed one could not have
   * covered the outputs and the fee with any prefix of the pool.
   */
  lemma SelectMinimal(us: seq<Utxo>, satsOut: nat, size0: nat, fundsScript: seq<Chunk>)
    ensures var sel := Select(us, satsOut, size0, fundsScript);
      (sel.Ok? ==> forall j :: 0 <= j < Taken(us, satsOut, size0) ==> !Covered(us, satsOut, size0, j))
      && (sel.Err? ==> forall j :: 0 <= j <= |us| ==> !Covered(us, satsOut, size0, j))
  {
    NeededIsLeast(us, satsOut, size0, 0);
    SelectOutcome(us, satsOut, size0, fundsScript);
  }

  /** One step of the selection loop: the next pool entry is appended to the running sums. */
  lemma TakeStep(us: seq<Utxo>, satsOut: nat, size0: nat, fundsScript: seq<Chunk>, t: nat)
    requires t < |us|
    requires SumValues(us[..t]) < satsOut + Fee(size0 + INPUT_SIZE * t)
    ensures us[t..][0] == us[t] && us[t..][1..] == us[t + 1..]
    ensures SumValues(us[..t + 1]) == SumValues(us[..t]) + us[t].value
    ensures Parents(us[..t + 1], fundsScript) == Parents(us[..t], fundsScript) + [Parent(fundsScript, us[t].value)]
    ensures Inputs(us[..t + 1]) == Inputs(us[..t]) + [InputFor(us[t])]
    ensures size0 + INPUT_SIZE * (t + 1) == size0 + INPUT_SIZE * t + INPUT_SIZE
    ensures Needed(us, satsOut, size0, t) == Needed(us, satsOut, size0, t + 1)
  {
    assert us[..t + 1][..t] == us[..t];
  }

  /** A change output: a `SPLIT_SATS` split, or the final remainder. */
  datatype ChangeOutput = Split | Remainder(value: nat)

  function OutputValue(c: ChangeOutput): nat
  {
    if c.Split? then SPLIT_SATS else c.value
  }

  function Total(cs: seq<ChangeOutput>): nat
  {
    if cs == [] then 0 else OutputValue(cs[0]) + Total(cs[1..])
  }

  function ChangeTxOuts(cs: seq<ChangeOutput>, fundsScript: seq<Chunk>): (r: seq<TxOut>)
    ensures |r| == |cs|
    ensures forall k :: 0 <= k < |cs| ==> r[k] == TxOut(OutputValue(cs[k]), fundsScript)
  {
    if cs == [] then []
    else ChangeTxOuts(cs[..|cs| - 1], fundsScript) + [TxOut(OutputValue(cs[|cs| - 1]), fundsScript)]
  }

  /** The change outputs, as transaction outputs, sum to their `Total`. */
  lemma {:induction false} SumChangeTxOuts(cs: seq<ChangeOutput>, fundsScript: seq<Chunk>)
    ensures SumOutputs(ChangeTxOuts(cs, fundsScript)) == Total(cs)
  {
    if cs != [] {
      var head := [TxOut(OutputValue(cs[0]), fundsScript)];
      assert ChangeTxOuts(cs, fundsScript) == head + ChangeTxOuts(cs[1..], fundsScript);
      SumOutputsAppend(head, ChangeTxOuts(cs[1..], fundsScript));
      assert SumOutputs(head) == SumOutputs(head[..0]) + OutputValue(cs[0]);
      SumChangeTxOuts(cs[1..], fundsScript);
    }
  }

  /**
   * What holds at the head of the change loop: the outputs do not exceed the inputs, and a
   * change above dust still leaves room for one more output at the normalised fee.
   */
  predicate ChangeInvariant(satsIn: nat, satsOut: nat, size: nat, change: int)
  {
    satsOut <= satsIn && (change > DUST ==> change <= satsIn - satsOut - Fee(size + OUTPUT_SIZE))
  }

  /** The split branch charges `size * SATS_PER_KB` without the division by 1000. */
  function SplitFee(size: nat): (fee: nat)
    ensures fee >= Fee(size)
    ensures size > 0 ==> fee >= 1000 * Fee(size) - 1000
  {
    size * SATS_PER_KB
  }

  /** The split branch's fee is at most 1000 times the normalised fee: with `SplitFee`'s lower bound, about 1000 times what it should charge. */
  lemma SplitFeeAtMost(size: nat)
    ensures SplitFee(size) <= 1000 * Fee(size)
  {
  }

  /** The split branch keeps the loop invariant. */
  lemma SplitKeepsInvariant(satsIn: nat, satsOut: nat, size: nat, change: int)
    requires ChangeInvariant(satsIn, satsOut, size, change)
    requires change > SPLIT_SATS + OUTPUT_FEE
    ensures satsOut + SPLIT_SATS <= satsIn
    ensures ChangeInvariant(satsIn, satsOut + SPLIT_SATS, size + OUTPUT_SIZE,
                            satsIn - (satsOut + SPLIT_SATS + SplitFee(size + OUTPUT_SIZE)))
  {
    assert Fee(size + 2 * OUTPUT_SIZE) <= SplitFee(size + OUTPUT_SIZE);
  }

  /**
   * The change outputs the loop adds from the given state: a split while the change
   * exceeds `SPLIT_SATS + OUTPUT_FEE` and the pre-incremented split counter stays below
   * `MAX_SPLITS`, otherwise one remainder output, after which the change is 0.
   */
  function ChangeOutputs(satsIn: nat, satsOut: nat, size: nat, change: int, changeOutputs: nat): (outs: seq<ChangeOutput>)
    requires ChangeInvariant(satsIn, satsOut, size, change)
    ensures outs == [] <==> change <= DUST
    decreases satsIn - satsOut
  {
    if change <= DUST then []
    else if change > SPLIT_SATS + OUTPUT_FEE && changeOutputs + 1 < MAX_SPLITS then
      SplitKeepsInvariant(satsIn, satsOut, size, change);
      [Split] + ChangeOutputs(satsIn, satsOut + SPLIT_SATS, size + OUTPUT_SIZE,
                              satsIn - (satsOut + SPLIT_SATS + SplitFee(size + OUTPUT_SIZE)), changeOutputs + 1)
    else
      [Remainder(satsIn - (satsOut + Fee(size + OUTPUT_SIZE)))]
  }

  /** The change first computed after selection meets the loop invariant. */
  lemma InitialChangeInvariant(satsIn: nat, satsOut: nat, size: nat)
    requires satsIn >= satsOut + Fee(size)
    ensures ChangeInvariant(satsIn, satsOut, size, satsIn - (satsOut + Fee(size) + OUTPUT_FEE))
  {
    assert OUTPUT_FEE == 2;
    assert Fee(size + OUTPUT_SIZE) <= Fee(size) + 2;
  }

  /** The change outputs never spend more than the inputs bring in beyond the existing outputs. */
  lemma {:induction false} ChangeTotalBound(satsIn: nat, satsOut: nat, size: nat, change: int, changeOutputs: nat)
    requires ChangeInvariant(satsIn, satsOut, size, change)
    ensures satsOut + Total(ChangeOutputs(satsIn, satsOut, size, change, changeOutputs)) <= satsIn
    decreases satsIn - satsOut
  {
    var outs := ChangeOutputs(satsIn, satsOut, size, change, changeOutputs);
    if change > DUST && change > SPLIT_SATS + OUTPUT_FEE && changeOutputs + 1 < MAX_SPLITS {
      SplitKeepsInvariant(satsIn, satsOut, size, change);
      var next := satsIn - (satsOut + SPLIT_SATS + SplitFee(size + OUTPUT_SIZE));
      ChangeTotalBound(satsIn, satsOut + SPLIT_SATS, size + OUTPUT_SIZE, next, changeOutputs + 1);
      assert outs[1..] == ChangeOutputs(satsIn, satsOut + SPLIT_SATS, size + OUTPUT_SIZE, next, changeOutputs + 1);
    } else if change > DUST {
      assert outs[1..] == [];
    }
  }

  /**
   * Every change output but the last is a split, and a split is only ever emitted while
   * the counter, incremented first, stays below `MAX_SPLITS`: from a zero counter at most
   * `MAX_SPLITS - 1` splits.
   */
  predicate SplitsFirst(outs: seq<ChangeOutput>, changeOutputs: nat)
  {
    (forall j :: 0 <= j < |outs| - 1 ==> outs[j].Split?)
    && (forall j :: 0 <= j < |outs| && outs[j].Split? ==> changeOutputs + j + 1 < MAX_SPLITS)
  }

  lemma {:induction false} ChangeShape(satsIn: nat, satsOut: nat, size: nat, change: int, changeOutputs: nat)
    requires ChangeInvariant(satsIn, satsOut, size, change)
    ensures SplitsFirst(ChangeOutputs(satsIn, satsOut, size, change, changeOutputs), changeOutputs)
    decreases satsIn - satsOut
  {
    var outs := ChangeOutputs(satsIn, satsOut, size, change, changeOutputs);
    if change > DUST && change > SPLIT_SATS + OUTPUT_FEE && changeOutputs + 1 < MAX_SPLITS {
      SplitKeepsInvariant(satsIn, satsOut, size, change);
      var next := satsIn - (satsOut + SPLIT_SATS + SplitFee(size + OUTPUT_SIZE));
      var rest := ChangeOutputs(satsIn, satsOut + SPLIT_SATS, size + OUTPUT_SIZE, next, changeOutputs + 1);
      ChangeShape(satsIn, satsOut + SPLIT_SATS, size + OUTPUT_SIZE, next, changeOutputs + 1);
      assert outs == [Split] + rest;
      assert SplitsFirst(rest, changeOutputs + 1);
      forall j | 0 < j < |outs|
        ensures j < |outs| - 1 ==> outs[j].Split?
        ensures outs[j].Split? ==> changeOutputs + j + 1 < MAX_SPLITS
      {
        assert outs[j] == rest[j - 1];
      }
    }
  }

  /** Starting from a zero counter the loop adds at most `MAX_SPLITS - 1` splits and `MAX_SPLITS` outputs in all. */
  lemma ChangeCount(satsIn: nat, satsOut: nat, size: nat, change: int)
    requires ChangeInvariant(satsIn, satsOut, size, change)
    ensures var outs := ChangeOutputs(satsIn, satsOut, size, change, 0);
      |outs| <= MAX_SPLITS && (outs != [] && outs[|outs| - 1].Split? ==> |outs| < MAX_SPLITS)
  {
    var outs := ChangeOutputs(satsIn, satsOut, size, change, 0);
    ChangeShape(satsIn, satsOut, size, change, 0);
    if |outs| >= 2 {
      assert outs[|outs| - 2].Split?;
    }
  }

  /**
   * When the loop ends with a remainder output, outputs plus the normalised fee for the
   * final size use up the inputs exactly, and that remainder is above dust.
   */
  lemma {:induction false} ChangeRemainderBalance(satsIn: nat, satsOut: nat, size: nat, change: int, changeOutputs: nat)
    requires ChangeInvariant(satsIn, satsOut, size, change)
    ensures var outs := ChangeOutputs(satsIn, satsOut, size, change, changeOutputs);
      outs != [] && outs[|outs| - 1].Remainder? ==>
        outs[|outs| - 1].value > DUST
        && satsOut + Total(outs) + Fee(size + OUTPUT_SIZE * |outs|) == satsIn
    decreases satsIn - satsOut
  {
    var outs := ChangeOutputs(satsIn, satsOut, size, change, changeOutputs);
    if change > DUST && change > SPLIT_SATS + OUTPUT_FEE && changeOutputs + 1 < MAX_SPLITS {
      SplitKeepsInvariant(satsIn, satsOut, size, change);
      var next := satsIn - (satsOut + SPLIT_SATS + SplitFee(size + OUTPUT_SIZE));
      var rest := ChangeOutputs(satsIn, satsOut + SPLIT_SATS, size + OUTPUT_SIZE, next, changeOutputs + 1);
      ChangeRemainderBalance(satsIn, satsOut + SPLIT_SATS, size + OUTPUT_SIZE, next, changeOutputs + 1);
      assert outs == [Split] + rest;
      if rest != [] {
        assert outs[|outs| - 1] == rest[|rest| - 1];
        assert outs[1..] == rest;
        assert Total(outs) == SPLIT_SATS + Total(rest);
        assert size + OUTPUT_SIZE * |outs| == (size + OUTPUT_SIZE) + OUTPUT_SIZE * |rest|;
      }
    } else if change > DUST {
      var value := satsIn - (satsOut + Fee(size + OUTPUT_SIZE));
      assert outs == [Remainder(value)];
      assert outs[1..] == [];
      assert Total(outs) == value;
      assert OUTPUT_SIZE * |outs| == OUTPUT_SIZE;
    }
  }

  /**
   * Because of the split branch's fee, a split can leave the recomputed change far below
   * zero, so the loop ends without a remainder output and the excess goes to the miners:
   * with 110000 satoshis in, nothing out and 200 bytes, one split is added and 10000
   * satoshis are left over where the normalised fee for the final 234 bytes is 12.
   */
  lemma SplitFeeOverpays()
    ensures ChangeInvariant(110000, 0, 200, 110000 - (0 + Fee(200) + OUTPUT_FEE))
    ensures ChangeOutputs(110000, 0, 200, 110000 - (0 + Fee(200) + OUTPUT_FEE), 0) == [Split]
    ensures 110000 - (0 + SPLIT_SATS) == 10000 && Fee(200 + OUTPUT_SIZE) == 12
  {
    InitialChangeInvariant(110000, 0, 200);
    assert Fee(200) == 10 && OUTPUT_FEE == 2;
    assert SplitFee(234) == 11700;
    assert ChangeOutputs(110000, 100000, 234, 110000 - (100000 + 11700), 1) == [];
  }

  /**
   * The change loop of `fundAndBroadcast`, started from the state selection leaves: it
   * appends exactly the outputs `ChangeOutputs` describes, each paying to `fundsScript`.
   */
  method AddChange(tx: Tx, satsIn: nat, satsOut: nat, size: nat, fundsScript: seq<Chunk>)
    requires satsIn >= satsOut + Fee(size)
    modifies tx
    ensures ChangeInvariant(satsIn, satsOut, size, satsIn - (satsOut + Fee(size) + OUTPUT_FEE))
    ensures tx.txIns == old(tx.txIns)
    ensures tx.txOuts == old(tx.txOuts)
      + ChangeTxOuts(ChangeOutputs(satsIn, satsOut, size, satsIn - (satsOut + Fee(size) + OUTPUT_FEE), 0), fundsScript)
  {
    InitialChangeInvariant(satsIn, satsOut, size);
    var out: nat := satsOut;
    var sz: nat := size;
    var fee := Fee(sz);
    var change: int := satsIn - (out + fee + OUTPUT_FEE);
    var changeOutputs := 0;
    ghost var plan := ChangeOutputs(satsIn, out, sz, change, changeOutputs);
    ghost var added: seq<ChangeOutput> := [];
    while change > DUST
      invariant ChangeInvariant(satsIn, out, sz, change)
      invariant plan == added + ChangeOutputs(satsIn, out, sz, change, changeOutputs)
      invariant tx.txOuts == old(tx.txOuts) + ChangeTxOuts(added, fundsScript)
      invariant tx.txIns == old(tx.txIns)
      decreases satsIn - out
    {
      ghost var before, out0, sz0, change0, counter0 := added, out, sz, change, changeOutputs;
      ghost var outs0 := tx.txOuts;
      var split := false;
      if change > SPLIT_SATS + OUTPUT_FEE {
        changeOutputs := changeOutputs + 1;
        split := changeOutputs < MAX_SPLITS;
      }
      if split {
        tx.AddTxOut(SPLIT_SATS, fundsScript);
        out := out + SPLIT_SATS;
        sz := sz + OUTPUT_SIZE;
        fee := SplitFee(sz);
        change := satsIn - (out + fee);
        SplitStep(plan, before, satsIn, out0, sz0, change0, counter0, out, sz, change);
        ChangeTxOutsAppend(old(tx.txOuts), outs0, before, Split, fundsScript);
        added := added + [Split];
      } else {
        sz := sz + OUTPUT_SIZE;
        fee := Fee(sz);
        change := satsIn - (out + fee);
        RemainderStep(plan, before, satsIn, out0, sz0, change0, counter0, sz, change, changeOutputs);
        var value: nat := change;
        tx.AddTxOut(value, fundsScript);
        out := out + value;
        change := satsIn - (out + fee);
        ChangeTxOutsAppend(old(tx.txOuts), outs0, before, Remainder(value), fundsScript);
        added := added + [Remainder(value)];
      }
    }
  }

  /** One split step of the change loop, as `ChangeOutputs` unfolds it. */
  lemma SplitStep(plan: seq<ChangeOutput>, before: seq<ChangeOutput>,
                  satsIn: nat, satsOut: nat, size: nat, change: int, counter: nat,
                  satsOut': nat, size': nat, change': int)
    requires ChangeInvariant(satsIn, satsOut, size, change)
    requires plan == before + ChangeOutputs(satsIn, satsOut, size, change, counter)
    requires change > SPLIT_SATS + OUTPUT_FEE && counter + 1 < MAX_SPLITS
    requires satsOut' == satsOut + SPLIT_SATS && size' == size + OUTPUT_SIZE
    requires change' == satsIn - (satsOut' + SplitFee(size'))
    ensures ChangeInvariant(satsIn, satsOut', size', change')
    ensures plan == (before + [Split]) + ChangeOutputs(satsIn, satsOut', size', change', counter + 1)
  {
    SplitKeepsInvariant(satsIn, satsOut, size, change);
    var rest := ChangeOutputs(satsIn, satsOut', size', change', counter + 1);
    assert ChangeOutputs(satsIn, satsOut, size, change, counter) == [Split] + rest;
    assert before + ([Split] + rest) == (before + [Split]) + rest;
  }

  /**
   * The remainder step of the change loop: the change recomputed at the grown size is at
   * least the change that entered the step, and after it the loop adds nothing more.
   */
  lemma RemainderStep(plan: seq<ChangeOutput>, before: seq<ChangeOutput>,
                      satsIn: nat, satsOut: nat, size: nat, change: int, counter: nat,
                      size': nat, change': int, counter': nat)
    requires ChangeInvariant(satsIn, satsOut, size, change)
    requires plan == before + ChangeOutputs(satsIn, satsOut, size, change, counter)
    requires change > DUST && !(change > SPLIT_SATS + OUTPUT_FEE && counter + 1 < MAX_SPLITS)
    requires size' == size + OUTPUT_SIZE && change' == satsIn - (satsOut + Fee(size'))
    ensures change' >= change
    ensures ChangeInvariant(satsIn, satsOut + change', size', 0)
    ensures plan == (before + [Remainder(change')]) + ChangeOutputs(satsIn, satsOut + change', size', 0, counter')
  {
  }

  lemma ChangeTxOutsAppend(prefix: seq<TxOut>, outs: seq<TxOut>, cs: seq<ChangeOutput>, c: ChangeOutput, fundsScript: seq<Chunk>)
    requires outs == prefix + ChangeTxOuts(cs, fundsScript)
    ensures outs + [TxOut(OutputValue(c), fundsScript)] == prefix + ChangeTxOuts(cs + [c], fundsScript)
  {
    assert (cs + [c])[..|cs|] == cs;
  }

  /** `tx.txOuts` entries 1 onwards as pool entries `(txid, vout, value)`, in output order. */
  function Replenishment(outs: seq<TxOut>, txid: string): (r: seq<Utxo>)
    ensures |r| == if outs == [] then 0 else |outs| - 1
    ensures forall k :: 0 <= k < |r| ==> r[k] == Utxo(txid, k + 1, outs[k + 1].value)
  {
    if |outs| <= 1 then [] else Replenishment(outs[..|outs| - 1], txid) + [Utxo(txid, |outs| - 1, outs[|outs| - 1].value)]
  }

  /** After the broadcast, every output but the first goes to the back of the pool. */
  method Replenish(pool: UtxoPool, tx: Tx, txid: string)
    modifies pool
    ensures pool.utxos == old(pool.utxos) + Replenishment(tx.txOuts, txid)
  {
    for vout := 0 to |tx.txOuts|
      invariant pool.utxos == old(pool.utxos) + Replenishment(tx.txOuts[..vout], txid)
    {
      assert tx.txOuts[..vout + 1][..vout] == tx.txOuts[..vout];
      if vout == 0 {
        continue;
      }
      pool.utxos := pool.utxos + [Utxo(txid, vout, tx.txOuts[vout].value)];
    }
    assert tx.txOuts[..|tx.txOuts|] == tx.txOuts;
  }

  /**
   * The funded transaction never pays out more than its inputs bring in: the original
   * outputs plus the change outputs `FundAndBroadcast` adds sum to at most `satsIn`.
   */
  lemma FundedWithinInputs(us: seq<Utxo>, outs: seq<TxOut>, size0: nat, fundsScript: seq<Chunk>)
    requires Select(us, SumOutputs(outs), size0, fundsScript).Ok?
    ensures var satsOut := SumOutputs(outs);
      var sel := Select(us, satsOut, size0, fundsScript).value;
      var change := sel.satsIn - (satsOut + Fee(sel.size) + OUTPUT_FEE);
      satsOut <= sel.satsIn
      && ChangeInvariant(sel.satsIn, satsOut, sel.size, change)
      && SumOutputs(outs + ChangeTxOuts(ChangeOutputs(sel.satsIn, satsOut, sel.size, change, 0), fundsScript)) <= sel.satsIn
  {
    var satsOut := SumOutputs(outs);
    var sel := Select(us, satsOut, size0, fundsScript).value;
    SelectSufficient(us, satsOut, size0, fundsScript);
    ChangeWithinInputs(sel.satsIn, outs, sel.size, fundsScript);
  }

  /** Inputs that cover the outputs and the fee at `size` pay for the outputs and all change. */
  lemma ChangeWithinInputs(satsIn: nat, outs: seq<TxOut>, size: nat, fundsScript: seq<Chunk>)
    requires satsIn >= SumOutputs(outs) + Fee(size)
    ensures var satsOut := SumOutputs(outs);
      var change := satsIn - (satsOut + Fee(size) + OUTPUT_FEE);
      satsOut <= satsIn
      && ChangeInvariant(satsIn, satsOut, size, change)
      && SumOutputs(outs + ChangeTxOuts(ChangeOutputs(satsIn, satsOut, size, change, 0), fundsScript)) <= satsIn
  {
    var satsOut := SumOutputs(outs);
    var change := satsIn - (satsOut + Fee(size) + OUTPUT_FEE);
    InitialChangeInvariant(satsIn, satsOut, size);
    var cs := ChangeOutputs(satsIn, satsOut, size, change, 0);
    ChangeTotalBound(satsIn, satsOut, size, change, 0);
    SumOutputsAppend(outs, ChangeTxOuts(cs, fundsScript));
    SumChangeTxOuts(cs, fundsScript);
  }

  /**
   * `fundAndBroadcast(tx)` without signing and broadcasting: select inputs, add change,
   * then return the change outputs to the pool under `txid`, the id of the signed
   * transaction. `initialSize` is the serialised size of `tx` on entry.
   */
  method FundAndBroadcast(pool: UtxoPool, tx: Tx, initialSize: nat, fundsScript: seq<Chunk>, txid: string)
    returns (r: Result<seq<Parent>, FundError>)
    modifies pool, tx
    ensures var sel := Select(old(pool.utxos), SumOutputs(old(tx.txOuts)), initialSize, fundsScript);
      r == if sel.Ok? then Ok(sel.value.parents) else Err(NotEnoughFunds)
    ensures tx.txIns == old(tx.txIns) + Inputs(old(pool.utxos)[..Taken(old(pool.utxos), SumOutputs(old(tx.txOuts)), initialSize)])
    ensures r.Err? ==> pool.utxos == [] && tx.txOuts == old(tx.txOuts)
    ensures r.Ok? ==>
      var satsOut := SumOutputs(old(tx.txOuts));
      var sel := Select(old(pool.utxos), satsOut, initialSize, fundsScript).value;
      var change := sel.satsIn - (satsOut + Fee(sel.size) + OUTPUT_FEE);
      ChangeInvariant(sel.satsIn, satsOut, sel.size, change)
      && tx.txOuts == old(tx.txOuts) + ChangeTxOuts(ChangeOutputs(sel.satsIn, satsOut, sel.size, change, 0), fundsScript)
      && pool.utxos == old(pool.utxos)[Taken(old(pool.utxos), satsOut, initialSize)..] + Replenishment(tx.txOuts, txid)
  {
    ghost var us := pool.utxos;
    var satsOut := SumOutputs(tx.txOuts);
    var sel := SelectInputs(pool, tx, satsOut, initialSize, fundsScript);
    if sel.Err? {
      SelectOutcome(us, satsOut, initialSize, fundsScript);
      return Err(sel.error);
    }
    SelectSufficient(us, satsOut, initialSize, fundsScript);
    ghost var rest := pool.utxos;
    AddChange(tx, sel.value.satsIn, satsOut, sel.value.size, fundsScript);
    Replenish(pool, tx, txid);
    assert pool.utxos == rest + Replenishment(tx.txOuts, txid);
    return Ok(sel.value.parents);
  }
}

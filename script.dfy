/**
 * The chunk list of a Bitcoin script, as the script library keeps it: every
 * chunk carries an opcode number and, when it pushes data, the pushed bytes.
 * An empty data push carries opcode 0 (OP_0 = OP_FALSE) together with an empty
 * payload, which is why a chunk is a record and not a two-case datatype.
 */
module Script {
  import opened Wrappers
  import opened Bytes

  datatype Chunk = Chunk(opCodeNum: int, buf: Option<seq<byte>>)

  const OP_0: int := 0x00
  const OP_FALSE: int := OP_0
  const OP_PUSHDATA1: int := 0x4c
  const OP_PUSHDATA2: int := 0x4d
  const OP_PUSHDATA4: int := 0x4e
  const OP_1: int := 0x51
  const OP_IF: int := 0x63
  const OP_ENDIF: int := 0x68

  datatype ScriptError = DataTooLong(len: nat)

  /**
   * The opcode `writeBuffer` picks for a push of `len` bytes: the length itself for
   * 1..75 bytes, OP_0 for none, then PUSHDATA1/2/4 by the width the length needs;
   * 2^32 bytes or more is refused.
   */
  function PushOpcode(len: nat): (r: Result<int, ScriptError>)
    ensures r.Err? <==> len >= 0x1_0000_0000
    ensures r.Ok? ==> 0 <= r.value <= OP_PUSHDATA4
    ensures r.Ok? ==> (r.value == OP_0 <==> len == 0)
    ensures r.Ok? ==> (r.value < OP_PUSHDATA1 <==> len < OP_PUSHDATA1)
    ensures r.Ok? && 0 < len < OP_PUSHDATA1 ==> r.value == len
  {
    if 0 < len < OP_PUSHDATA1 then Ok(len)
    else if len == 0 then Ok(OP_0)
    else if len < 0x100 then Ok(OP_PUSHDATA1)
    else if len < 0x1_0000 then Ok(OP_PUSHDATA2)
    else if len < 0x1_0000_0000 then Ok(OP_PUSHDATA4)
    else Err(DataTooLong(len))
  }

  /** `writeOpCode(op)`: a chunk with no payload. */
  function OpChunk(op: int): (c: Chunk)
    ensures c.buf.None? && c.opCodeNum == op
  {
    Chunk(op, None)
  }

  /** `writeBuffer(b)`: a chunk carrying `b`, with the opcode `PushOpcode` chooses. */
  function PushChunk(b: seq<byte>): (r: Result<Chunk, ScriptError>)
    ensures r.Ok? <==> |b| < 0x1_0000_0000
    ensures r.Ok? ==> r.value.buf == Some(b) && Ok(r.value.opCodeNum) == PushOpcode(|b|)
  {
    match PushOpcode(|b|)
    case Ok(op) => Ok(Chunk(op, Some(b)))
    case Err(e) => Err(e)
  }
}

# ord-fs: inscriptions, origins and transaction funding in Dafny

This project models the core of ord-fs, a tool that uploads files as 1Sat
Ordinals inscriptions on Bitcoin SV. It covers three parts of the tool and
proves properties about each:

- **Buffer reader** (`bitcoin-ef/bufferreader.ts`, module `BufferReader`):
  a class `Reader` with a byte buffer `buf: array<byte>` and a cursor `pos`.
  - It reads fixed-width integers in either byte order, 64-bit values,
    CompactSize integers (`CompactSize`) and length-prefixed fields.
  - Every method states the bytes it returns and the new position, including
    the error paths. A read the buffer refuses is `OutOfRange`; a CompactSize
    value above 2^53 read as a number is `PrecisionLoss`; a short
    length-prefixed field is `ShortRead`.
  - Lemmas in `Bytes` (byte order, splits, reversal), `Hex` (the Node hex
    codec) and `CompactSize` support these contracts.
- **Origins and inscription parsing** (`models.ts`, module `Models`):
  - An `Origin` is a txid and an output index. Its text form is the txid's
    hex, `_` and the decimal index; its binary form is the txid followed by
    the index as eight hex digits.
  - The index is a JavaScript number, which `parseInt` can make NaN, so
    `Numbers` models `toString(radix)`, `padStart` and `parseInt`. Both
    forms are proved to read back to the same origin.
  - `ParseOutputScript` is the imperative scan that finds an inscription
    envelope (OP_FALSE OP_IF push "ord") in a script's chunk list (`Script`)
    and reads its content type and content.
  - It is proved equal to a specification `Parse`. Lemmas characterise
    `Parse` with and without an envelope.
- **Inscription scripts and funding** (`ord-fs.ts`, module `OrdFs`):
  - `CreateInscriptionScript` builds the envelope, with UTF-8 text
    encoding in `Utf8`. `ParseCreateRoundTrip` proves that parsing the
    result gives back the type, the content and the lock.
  - `FundAndBroadcast` runs on a `Tx` class and a `UtxoPool` class. It
    keeps the selection loop (inputs shifted off the front of the pool until
    they cover outputs and fee), the change loop (splits of 100000 satoshis,
    then one remainder) and the replenishing of the pool.
  - Each loop is proved against a specification function: `Select`/`Needed`,
    `ChangeOutputs` and `Replenishment`. Lemmas prove what each function
    promises: least sufficient selection, totals never above the inputs,
    the shape and number of change outputs, and exact balance when a
    remainder is written.

The model follows the code as written, including behaviours that may not be
intended:

- The split branch charges `size * SATS_PER_KB` satoshis without dividing by
  1000 (ord-fs.ts:217). `SplitFeeOverpays` exhibits an input where this
  leaves 10000 satoshis unspent.
- `parseOutputScript` starts its OP_FALSE/OP_IF markers at 0, so an "ord"
  push at index 2 opens an envelope whatever chunk 0 is (`MarkerStartsAtZero`).
- OP_ENDIF does not end the field loop (`EndifDoesNotStop`).
- `read` never fails.
- `set` ignores a zero position.

## Model

| member | source | states |
|---|---|---|
| BufferReader.ToInt32 | bitcoin-ef/bufferreader.ts:119-123 | the signed 32-bit reading of an unsigned 32-bit value: in range, congruent modulo 2^32, negative exactly when the top bit is set |
| BufferReader.FromBuffer | bitcoin-ef/bufferreader.ts:241-247 | the buffer's unsigned value, big-endian by default and little-endian on request, below 256^length |
| BufferReader.ReverseBuffer | bitcoin-ef/bufferreader.ts:233-239 | the result is a fresh array holding the input's bytes in the opposite order |
| BufferReader.Reader.constructor | bitcoin-ef/bufferreader.ts:38-41 | a reader built on a buffer shares it and starts at position 0 |
| BufferReader.Reader.FromObject | bitcoin-ef/bufferreader.ts:52-53 | a reader built from an object takes its buffer and position |
| BufferReader.Reader.FromHex | bitcoin-ef/bufferreader.ts:42-50 | a hex string gives a reader exactly when it decodes to half its length, over the decoded bytes at position 0; otherwise 'Invalid hex string' |
| BufferReader.Reader.Set | bitcoin-ef/bufferreader.ts:61-65 | a given buffer replaces the current one; the position changes only for a non-zero argument |
| BufferReader.Reader.Read | bitcoin-ef/bufferreader.ts:73-81 | returns the clamped slice from the old position, of exactly `len` bytes when they exist, and always advances by `len` |
| BufferReader.Reader.ReadAll | bitcoin-ef/bufferreader.ts:83-87 | returns what remained and leaves the reader at its end |
| BufferReader.Reader.Eof | bitcoin-ef/bufferreader.ts:67-71 | `eof()`/`finished()` hold exactly when no bytes remain to be read |
| BufferReader.Reader.ReadUInt8 | bitcoin-ef/bufferreader.ts:89-93 | the byte at the position and an advance of 1, or `OutOfRange` with the position unchanged |
| BufferReader.Reader.ReadUInt16BE | bitcoin-ef/bufferreader.ts:95-99 | the big-endian value of the next 2 bytes and an advance of 2, or `OutOfRange` with the position unchanged |
| BufferReader.Reader.ReadUInt16LE | bitcoin-ef/bufferreader.ts:101-105 | the little-endian value of the next 2 bytes and an advance of 2, or `OutOfRange` with the position unchanged |
| BufferReader.Reader.ReadUInt32BE | bitcoin-ef/bufferreader.ts:107-111 | the big-endian value of the next 4 bytes and an advance of 4, or `OutOfRange` with the position unchanged |
| BufferReader.Reader.ReadUInt32LE | bitcoin-ef/bufferreader.ts:113-117 | the little-endian value of the next 4 bytes and an advance of 4, or `OutOfRange` with the position unchanged |
| BufferReader.Reader.ReadInt32LE | bitcoin-ef/bufferreader.ts:119-123 | the two's-complement reading of the next 4 little-endian bytes and an advance of 4, or `OutOfRange` |
| BufferReader.Reader.UInt32LEAt | bitcoin-ef/bufferreader.ts:133-134 | the buffer's 32-bit little-endian read at an accepted offset equals the little-endian value of those 4 bytes and is below 2^32 |
| BufferReader.Reader.ReadUInt64BEBN | bitcoin-ef/bufferreader.ts:125-130 | the big-endian value of the (possibly short) 8-byte slice, exactly the 8 bytes' value when they exist; the position always advances by 8 |
| BufferReader.Reader.ReadUInt64LEBN | bitcoin-ef/bufferreader.ts:132-151 | both branches, the safe-integer combination and the byte-array path, yield the little-endian value of the 8 bytes; a short buffer is `OutOfRange` with the position unchanged |
| BufferReader.Reader.ReadVarintNum | bitcoin-ef/bufferreader.ts:153-172 | the CompactSize value of the encoding at the position, with the position past it; `PrecisionLoss` above 2^53; a truncated wide form fails after the prefix byte was consumed |
| BufferReader.Reader.ReadVarLengthBuffer | bitcoin-ef/bufferreader.ts:177-185 | the field of the declared CompactSize length, or `ShortRead(declared, available)` with the position already past the declared field |
| BufferReader.Reader.ReadVarintBuf | bitcoin-ef/bufferreader.ts:187-199 | the raw encoding, whose width the prefix byte decides; only the prefix is range checked and the position moves by the full width |
| BufferReader.Reader.ReadVarintBN | bitcoin-ef/bufferreader.ts:201-213 | the CompactSize value at the position with no magnitude limit, and the same error positions as `ReadVarintNum` |
| BufferReader.Reader.Reverse | bitcoin-ef/bufferreader.ts:215-222 | the buffer is replaced by a fresh one with the bytes in the opposite order; the position is kept |
| BufferReader.Reader.ReadReverse | bitcoin-ef/bufferreader.ts:224-231 | the next `len` bytes (default: the whole buffer's length) in the opposite order; the position advances by that length and the buffer is untouched |
| Bytes.ReverseReverse | bitcoin-ef/bufferreader.ts:215-222 | reversing twice restores the bytes |
| Bytes.BEReverse | bitcoin-ef/bufferreader.ts:241-247 | the big-endian value of reversed bytes is the little-endian value of the original |
| Bytes.LESplit | bitcoin-ef/bufferreader.ts:132-135 | a little-endian value splits at any byte boundary as low part plus 256^k times high part |
| Bytes.LEBound | bitcoin-ef/bufferreader.ts:163 | a little-endian value of n bytes is below 256^n |
| Bytes.Slice | bitcoin-ef/bufferreader.ts:78 | Node's `slice`: both ends clamped to the length, empty when the start is past the end, the plain slice when in range |
| CompactSize.Width | bitcoin-ef/bufferreader.ts:187-199 | an encoding is 1, 3, 5 or 9 bytes long, and 1 exactly when the prefix is below 0xFD |
| CompactSize.Value | bitcoin-ef/bufferreader.ts:155-171 | the value a complete encoding carries is below 2^64, and a wide form's value fits the bytes after its prefix |
| CompactSize.EncodeValue | bitcoin-ef/bufferreader.ts:153-172 | every value below 2^64 has a well-formed encoding that the reader's decoding gives back |
| CompactSize.EncodeShortest | bitcoin-ef/bufferreader.ts:153-172 | no well-formed encoding the reader decodes to `n` is shorter than `Encode(n)` |
| CompactSize.ValueBound | bitcoin-ef/bufferreader.ts:153-172 | each form carries a value below its width's range: 0xFD, 2^16, 2^32 or 2^64 |
| Hex.Encode | models.ts:8 | two lower-case hex digits per byte |
| Hex.Decode | models.ts:26 | `Buffer.from(s, 'hex')` yields at most half as many bytes as characters; `DecodeEncode` and `DecodeCompleteIff` say when it is exactly the inverse |
| Hex.EncodeIsHex | models.ts:8 | hex text is a well-formed hex string, empty exactly for the empty buffer |
| Hex.DecodeEncode | models.ts:26 | decoding the hex text of a buffer gives the buffer back |
| Hex.DecodeCompleteIff | bitcoin-ef/bufferreader.ts:43-47 | decoding consumes the whole string exactly when it is a well-formed hex string, so the reader's length test accepts exactly those |
| Numbers.LeadingDigits | models.ts:27 | the longest prefix of digits of the radix: a prefix, all digits, and followed by a non-digit or the end |
| Numbers.NumToString | models.ts:8 | `String(n)`/`n.toString(radix)`: "NaN" for NaN; for an integer a leading '-' exactly when negative, then digits of the radix spelling its magnitude |
| Numbers.ParseInt | models.ts:27 | `parseInt`: NaN for the empty string, negative only after a leading '-', and a non-negative integer whenever the text starts with a digit of the radix (other than a hex "0x" prefix) |
| Numbers.ToRadixValue | models.ts:14 | `n.toString(radix)` writes digits of the radix whose value is `n` |
| Numbers.ToRadixLength | models.ts:14 | a value below radix^k takes at most k digits |
| Numbers.PadZerosValue | models.ts:14 | padding with leading zeros keeps the digits' value |
| Numbers.PadZeros | models.ts:14 | `padStart(width, '0')` yields `width` characters for shorter text and leaves longer text as it is |
| Numbers.PadZerosShape | models.ts:14 | the padded text ends with the original text and everything in front of it is '0' |
| Numbers.Pow256IsPow | bitcoin-ef/bufferreader.ts:241-247 | the byte-order power 256^k used for buffer values is the radix power at radix 256 |
| Numbers.ParseIntDecimal | models.ts:27 | `parseInt(String(n), 10)` gives back `n` for every integer and for NaN |
| Numbers.ParseIntHex | models.ts:34 | `parseInt` of a buffer's hex text in radix 16 is the buffer's big-endian value, NaN for an empty buffer |
| Numbers.ParseIntHexString | models.ts:34 | `parseInt(s, 16)` of a non-empty hex string is the big-endian value of its decoded bytes |
| Numbers.HexDecodeValue | models.ts:14 | a hex string decodes to half its length in bytes whose big-endian value is the value its digits spell |
| Models.ToString | models.ts:7-9 | the text is the txid's lower-case hex, then `_`, and the hex part decodes back to the txid |
| Models.ToJson | models.ts:38-40 | the JSON form is the text form |
| Models.FromString | models.ts:24-29 | at most 32 txid bytes; no index text after offset 65 gives NaN |
| Models.FromStringToString | models.ts:24-29 | reading back the text form of an origin with a 32-byte txid gives the same origin, for any index including negatives and NaN |
| Models.ToBuffer | models.ts:11-16 | the binary form starts with the txid |
| Models.ToBufferLayout | models.ts:11-16 | for a 32-byte txid and an index below 2^32 the binary form is 36 bytes: the txid, then the index big-endian |
| Models.FromBuffer | models.ts:31-36 | the first 32 bytes are the txid; the index is the big-endian value of the rest, NaN when there is none |
| Models.FromBufferToBuffer | models.ts:31-36 | reading back the binary form of an origin with a 32-byte txid and an index below 2^32 gives the same origin |
| Models.HexDigitsAreHex | models.ts:14 | every character `toString(16)` writes is one the hex decoder accepts |
| Models.LastBefore | models.ts:87-93 | a marker holds 0 or an earlier index whose chunk has the marker's opcode |
| Models.LastBeforeIsLast | models.ts:87-93 | no chunk after the marker and before the scan position has the marker's opcode |
| Models.FindEnvelope | models.ts:94-99 | a found index pushes "ord" right after OP_FALSE and OP_IF |
| Models.FindEnvelopeIsFirst | models.ts:94-99 | the scan stops at the first envelope start, and finds none only when none exists |
| Models.TextOf | models.ts:117 | a payload yields text exactly when the chunk carries bytes |
| Models.Parse | models.ts:82-124 | the parse fails only with an envelope and only by reading a payload past the last chunk; without an envelope it never fails and keeps the default type and data |
| Models.ReadFields | models.ts:110-122 | the field loop never changes the lock, and fails only by reading a payload past the last chunk |
| Models.ParseOutputScript | models.ts:82-124 | the scan loop and the field loop compute exactly `Parse` |
| Models.ParseWithoutEnvelope | models.ts:104-108 | with no envelope the result is the defaults, with the lock being the reversed digest of the whole script |
| Models.ParseEnvelopeLock | models.ts:95-109 | with the first envelope at `i`, the lock is the reversed digest of the chunks before its OP_FALSE |
| Models.EndifDoesNotStop | models.ts:119-120 | an OP_0 pair after OP_ENDIF still replaces the content |
| Models.MarkerStartsAtZero | models.ts:83-95 | an "ord" push at index 2 after OP_IF opens an envelope even when chunk 0 is not OP_FALSE |
| Script.PushOpcode | ord-fs.ts:173-177 | the push opcode is the length for 1..75 bytes, OP_0 for none, PUSHDATA1/2/4 beyond, and an error from 2^32 bytes |
| Script.OpChunk | ord-fs.ts:171-172 | an opcode chunk carries no payload |
| Script.PushChunk | ord-fs.ts:173-177 | a push chunk carries its bytes and the opcode `PushOpcode` chooses, and fails exactly for 2^32 bytes or more |
| Utf8.Encode | ord-fs.ts:175 | between one and four bytes per character |
| Utf8.Decode | models.ts:117 | `toString('utf8')` yields at most one character per byte, and nothing only for no bytes |
| Utf8.DecodeEncodeChar | models.ts:117 | decoding a character's encoding yields that character and leaves the following bytes to be decoded on their own |
| Utf8.DecodeEncode | models.ts:117 | decoding the UTF-8 encoding of a string gives the string back |
| OrdFs.Fee | ord-fs.ts:184 | the fee is the least whole satoshi count covering `size * 50 / 1000` |
| OrdFs.CreateInscriptionScript | ord-fs.ts:168-180 | the lock's chunks unchanged, then 8 chunks with the UTF-8 type and the content as payloads; it fails exactly when a payload reaches 2^32 bytes |
| OrdFs.CreatedEnvelopeStart | ord-fs.ts:168-180 | in a created script whose lock pushes no "ord", the first envelope starts right after the lock, which is kept unchanged |
| OrdFs.ParseCreateRoundTrip | ord-fs.ts:168-180 | parsing a created script gives the type and content back, and the lock is the reversed digest of the lock's chunks, when none of them pushes "ord" |
| OrdFs.Tx.AddTxIn | ord-fs.ts:195-200 | appends one input and leaves the outputs alone |
| OrdFs.Tx.AddTxOut | ord-fs.ts:214 | appends one output and leaves the inputs alone |
| OrdFs.InputFor | ord-fs.ts:195-200 | the input spends output `tx_pos` with an empty script and a final sequence; its previous txid reversed is the hex-decoded `tx_hash`, 32 bytes for a 64-digit hash |
| OrdFs.SumOutputs | ord-fs.ts:186 | the sum of the output values is at least each single value |
| OrdFs.SumOutputsAppend | ord-fs.ts:186 | the output sum is additive over concatenation |
| OrdFs.InputsParentsAt | ord-fs.ts:195-204 | the k-th input and the k-th parent come from the k-th pool entry taken |
| OrdFs.Needed | ord-fs.ts:189-209 | the count of entries the selection loop takes lies between its start and the pool size |
| OrdFs.NeededIsLeast | ord-fs.ts:189-209 | that count is the least prefix covering the outputs and the fee of the grown transaction, and there is none exactly when no prefix covers |
| OrdFs.Taken | ord-fs.ts:189-193 | the selection loop never shifts more entries than the pool holds |
| OrdFs.Select | ord-fs.ts:189-209 | the selection takes a prefix of the pool: as many parents as entries taken, the inputs' total as their values' sum, 148 bytes of size per entry; its only failure is 'Not enough funds' |
| OrdFs.SelectInputs | ord-fs.ts:189-209 | the loop shifts exactly `Taken` entries off the front of the pool, appends their inputs in order, returns `Select`, and leaves the outputs alone |
| OrdFs.SelectSufficient | ord-fs.ts:189 | a successful selection covers the outputs and the fee at the grown size |
| OrdFs.SelectMinimal | ord-fs.ts:189-193 | a successful selection takes no entry more than needed; a failure means no prefix of the pool could cover |
| OrdFs.ChangeTxOuts | ord-fs.ts:214 | each change output becomes one transaction output of its value paying to the funding script |
| OrdFs.SumChangeTxOuts | ord-fs.ts:214 | the change outputs added as transaction outputs sum to their `Total` |
| OrdFs.SplitFee | ord-fs.ts:217 | the split branch's fee is at least the normalised fee and, for a non-empty transaction, at least 1000 times it less 1000 |
| OrdFs.SplitFeeAtMost | ord-fs.ts:217 | the split branch's fee is at most 1000 times the normalised fee |
| OrdFs.SplitKeepsInvariant | ord-fs.ts:213-218 | a split keeps the outputs within the inputs and keeps the change loop's invariant |
| OrdFs.ChangeOutputs | ord-fs.ts:212-227 | the change loop adds outputs exactly when the change exceeds dust |
| OrdFs.InitialChangeInvariant | ord-fs.ts:210 | the change computed after a sufficient selection meets the loop invariant |
| OrdFs.ChangeTotalBound | ord-fs.ts:212-227 | existing outputs plus change outputs never exceed the inputs |
| OrdFs.ChangeShape | ord-fs.ts:212-227 | every change output but the last is a split, and each split happens with the pre-incremented counter below 100 |
| OrdFs.ChangeCount | ord-fs.ts:211-213 | from a zero counter at most 100 change outputs, and at most 99 when the last is a split |
| OrdFs.ChangeRemainderBalance | ord-fs.ts:219-226 | when a remainder is written, outputs plus the normalised fee at the final size use up the inputs exactly, and the remainder is above dust |
| OrdFs.SplitFeeOverpays | ord-fs.ts:217 | with 110000 satoshis in and 200 bytes, one split is added and 10000 satoshis are left to the miners where the fee is 12 |
| OrdFs.AddChange | ord-fs.ts:210-227 | the change loop appends exactly the `ChangeOutputs` outputs to the funding script and touches no input |
| OrdFs.SplitStep | ord-fs.ts:213-218 | one split step: `Split` followed by the outputs from the grown state |
| OrdFs.RemainderStep | ord-fs.ts:219-226 | the remainder step writes the change recomputed at the grown size, at least the change that entered the step, and nothing follows |
| OrdFs.Replenishment | ord-fs.ts:245-254 | every output but the first becomes a pool entry with the new txid, its index and its value, in output order |
| OrdFs.Replenish | ord-fs.ts:245-254 | those entries are appended to the back of the pool |
| OrdFs.FundedWithinInputs | ord-fs.ts:186-227 | after a successful selection the change loop starts under its invariant, and the original outputs plus the change outputs sum to at most the selected inputs |
| OrdFs.ChangeWithinInputs | ord-fs.ts:210-227 | inputs that cover the outputs and the fee start the change loop under its invariant, and the outputs plus every change output sum to at most the inputs |
| OrdFs.FundAndBroadcast | ord-fs.ts:182-255 | the inputs are those `Select` takes. On success: the parents, the change outputs of `ChangeOutputs` under the loop invariant, and the pool's rest followed by the replenishment. On failure: an empty pool and unchanged outputs |

## Left out

- Command-line handling, environment variables, keys and addresses (`main`, `download`, `downloadDir`, `loadUtxos`, `inscribeDir`, `inscribeFile`) are not part of this model. They are I/O around the core.
- Signing, `StandardToExtended` and broadcasting to ARC are left out. The id of the signed transaction is the parameter `txid`.
- SHA-256 of a serialised script is the function parameter `digest`. Script serialisation is not modelled.
- `tx.toBuffer().length` on entry to `fundAndBroadcast` is the parameter `initialSize`.
- A parent's locking script is kept as a chunk list, not as serialised bytes.
- `Math.ceil` over floating point is integer ceiling. All sizes and amounts are exact non-negative integers; no double rounding is modelled.
- `Origin.fromOutpoint` is the datatype constructor `Origin(txid, Int(vout))`. `fromJson` and `JSON.parse` are left out.
- `FSDir`, `FSEntry`, `File` and the fields of `Inscription` are plain records with no behaviour, and are not modelled.
- The constructor's path for an undefined argument and the `TypeError` for other argument types depend on JavaScript typing, which Dafny rules out.
- `read` called without a length is left out, for the same reason.
- Numbers.ParseInt: leading whitespace is not skipped. The radix is restricted to the two the source uses, 10 and 16.
- Numbers.ParseInt: the parsed value is an exact integer; JavaScript returns a double, which rounds values of 2^53 (about 9.007 × 10^15) and above.
- Models.FromBuffer: the index is the exact big-endian value of the bytes after the txid; the source's `parseInt(..., 16)` rounds it once it reaches 2^53 (eight 0xff bytes give 2^64 there, 2^64 - 1 here).
- Models.FromString: the index is the exact value of its decimal digits; the source's `parseInt` rounds indices of 2^53 and above.
- Models.FromString: offsets 64 and 65 count Unicode characters, where JavaScript's `str.slice` counts UTF-16 code units. Once a character above U+FFFF comes before offset 65 the two split the text at different places, so the index can differ (the model reads `Int(5)` where JavaScript reads NaN for one such character, 63 'a' and "_5").
- Buffer slices are copies in the model. Node's `slice` returns a view that shares memory with its buffer (`read`, `readAll` and `readUInt64BEBN` at bitcoin-ef/bufferreader.ts:78, 84 and 126, and `fromBuffer`'s txid at models.ts:33). Nothing in the modelled code writes through such a view, so no result differs.
- Numbers.NumToString: only integers and NaN are rendered; no exponent forms or fractions.
- Utf8.Encode: lone surrogates are not characters in Dafny's `char` and are not modelled.
- BufferReader.Reader.ReadVarintNum: bn.js `toNumber` is taken as exact; the library's own guard on values beyond 53 bits is not modelled.
- OrdFs.FundAndBroadcast: `valueBn.toNumber()` in the output sum is taken as exact. The module-level `utxos` array is the `UtxoPool` object passed in.
- Members whose contracts use `old` or `fresh` include the `Reader` methods, `SelectInputs`, `AddChange`, `Replenish` and `FundAndBroadcast`. Each state-changing method is tied to a specification function whose properties are proved as lemmas.

# Optiflame fireplace switch: parameter codec and cached state

This project models the core of `homebridge-optiflame`, a Homebridge accessory that
exposes an Optiflame electric fire's on/off state as a switch. The fire's cloud API
reports a list of parameters. Each parameter has a numeric kind (`ParameterId`) and a
base64-encoded byte blob (`Value`). Two kinds matter:

- Kind 321 holds the power flag in byte 3 of its blob.
- Kind 323 holds a secondary flag, which every write clears.

The model covers five things:

- **Base64** (`base64.dfy`): the canonical base64 codec of section 4 of RFC 4648, over bytes. Node's `Buffer` uses it for `Parameter.Value`. Both round trips are proved: decoding an encoding gives back the bytes, and encoding a decoded string gives back the string.
- **Parameters** (`parameters.dfy`): the pure parts of the adapter.
  - the filter to kinds {321, 323} and the lookup of the first 321 entry (fetch side);
  - reading and writing the flag byte, and the per-entry rewrite of a write;
  - the ordering a write request has: ascending by kind, and stable, since `Array.prototype.sort` is stable. Lemmas show that this ordering is a permutation with the same kinds and that it fixes the request uniquely.
- **WriteRequest** (`write_request.dfy`): the write's `map` and `sort`, written step by step on arrays.
  - Each blob is decoded into a fresh `array<byte>`, its byte 3 is overwritten in place, and it is re-encoded.
  - The mapped array is then sorted in place. The source calls the engine's `Array.prototype.sort` and does not choose an algorithm; a stable insertion sort stands in for the engine's stable sort, and its contract is stated so that any stable sort meets it.
- **Accessory** (`accessory.dfy`): the class `OptiflameAccessoryPlugin` with its fields `state` and `params`.
  - `Update` is the fetch.
  - `GetOnHandler` is the read.
  - `SetOnHandler` is the write. The write's reply, and its `IsException` flag, are inputs.
  - A lemma shows that echoing a written list back through a fetch reads the requested value, when the 321 blob is longer than three bytes; a shorter blob reads as false.
- **Wrappers** (`wrappers.dfy`): an `Option` type.

Two places where the code behaves in a way a reader might not expect; the model follows the code:

- If an overview has no 321 entry, `find` returns `undefined`, and `Buffer.from(undefined.Value)` throws at `src/index.ts:94`. By then `params` has already been replaced at line 92. The model returns `MissingPrimary`: it keeps the new `params` and the old `state`. So the retained list need not come from a fetch that completed.
- `bytes[3] ? true : false` reads `undefined`, so `false`, from a blob of three bytes or fewer. `bytes[3] = …` on such a blob is ignored. The model does the same in both places.

## Model

| member | source | states |
|---|---|---|
| Base64.Encode | src/index.ts:120 | the encoding is 4·⌈n/3⌉ characters long for n bytes |
| Base64.Decode | src/index.ts:94 | the decoder accepts only strings of 4·⌈n/3⌉ characters for the n bytes it returns |
| Base64.CharOf | src/index.ts:127 | each 6-bit value's character reads back as that value and is never the pad character |
| Base64.DecodeEncode | src/index.ts:116-120 | decoding the encoding of any bytes returns exactly those bytes |
| Base64.EncodeDecode | src/index.ts:123-127 | a string the decoder accepts is exactly the encoding of what it decodes to |
| Base64.EncodeInjective | src/index.ts:120 | different blobs have different encodings |
| Base64.VectorF | src/index.ts:127 | the test vector "f" of section 10 of RFC 4648 encodes as "Zg==" |
| Base64.OneBytePads | src/index.ts:127 | a final group of one byte ends in two pad characters |
| Base64.TwoBytesPad | src/index.ts:127 | a final group of two bytes ends in one pad character |
| Base64.VectorFo | src/index.ts:127 | the test vector "fo" of section 10 of RFC 4648 encodes as "Zm8=" |
| Base64.VectorFoobar | src/index.ts:127 | the test vector "foobar" of section 10 of RFC 4648 encodes as "Zm9vYmFy" |
| Parameters.Select | src/index.ts:92 | the filtered list is no longer than the input; it holds only entries of the wanted kinds, all taken from the input; it holds every input entry of a wanted kind |
| Parameters.SelectIsSubsequence | src/index.ts:92 | the filtered list is the input read at strictly ascending positions, and a position is chosen exactly when its entry's kind is wanted |
| Parameters.Find | src/index.ts:93 | the result is the position of an entry of the kind with none of that kind before it, or no position when the list has no entry of that kind |
| Parameters.WithFlag | src/index.ts:117 | writing the flag keeps the length, sets byte 3 when there is one, and leaves every other byte as it was |
| Parameters.WithFlagShort | src/index.ts:124 | a blob shorter than four bytes is unchanged by a flag write |
| Parameters.FlagReadsBack | src/index.ts:95 | reading the flag after writing the byte for a value gives that value, or false for a blob of three bytes or fewer |
| Parameters.Rewritten | src/index.ts:114-131 | the rewrite keeps the kind of every entry |
| Parameters.RewrittenBlob | src/index.ts:115-131 | a 321 entry decodes to its old blob with byte 3 set to 1 or 0 per the value; a 323 entry decodes to its old blob with byte 3 set to 0; any other entry is passed through |
| Parameters.RewrittenPrimaryReadsBack | src/index.ts:116-120 | a rewritten 321 blob is canonical and its byte 3 reads back as the requested value |
| Parameters.RewrittenAllIds | src/index.ts:114 | the mapped list has the kinds of the retained list, in order |
| Parameters.SwapKeepsIdOrder | src/index.ts:132 | exchanging neighbours of different kinds keeps the order within every kind |
| Parameters.SameIdOrderPermutes | src/index.ts:132 | lists with the same order within every kind are permutations, with the same length and the same kinds |
| Parameters.SortedStableUnique | src/index.ts:132 | two lists sorted by kind that have the same order within every kind are equal |
| Parameters.WriteRequestShape | src/index.ts:114-132 | the list sent has as many entries as the retained list and the same multiset of kinds; it is ascending by kind, and each entry is the rewrite of a retained entry |
| Parameters.WriteRequestUnique | src/index.ts:114-132 | the retained list and the value determine the list sent |
| Parameters.WriteOrderExample | src/index.ts:132 | a retained list [323, 321] is sent as [321, 323], each entry rewritten |
| Parameters.WriteRequestFlags | src/index.ts:115-128 | in the list sent, every 321 and 323 value is canonical; byte 3 of a 321 blob is the requested flag and byte 3 of a 323 blob is 0 |
| WriteRequest.SetFlagByte | src/index.ts:117 | the in-place write of byte 3 leaves the buffer equal to the flag-written blob |
| WriteRequest.ReencodeWithFlag | src/index.ts:123-127 | decoding to a buffer, writing byte 3 and re-encoding gives the encoding of the flag-written blob |
| WriteRequest.RewriteParameter | src/index.ts:114-131 | the map callback returns the rewrite of its entry |
| WriteRequest.SortById | src/index.ts:132 | the in-place sort leaves the array ascending by kind with the order within every kind unchanged |
| WriteRequest.BuildWriteParameters | src/index.ts:114-132 | the mapped and sorted list is the write request for the retained list and the value |
| Accessory.OptiflameAccessoryPlugin.constructor | src/index.ts:20-21 | a new accessory is off and retains no parameters |
| Accessory.OptiflameAccessoryPlugin.Update | src/index.ts:82-99 | with an overview, `params` becomes the 321/323 entries in their order and `state` becomes whether the first 321 blob has a non-zero byte 3; with no 321 entry, `params` is replaced and `state` kept; with no overview, nothing changes |
| Accessory.OptiflameAccessoryPlugin.GetOnHandler | src/index.ts:109-111 | the read returns the cached state and changes nothing |
| Accessory.OptiflameAccessoryPlugin.SetOnHandler | src/index.ts:113-152 | the list sent is the write request for `params`; `state` becomes the value unless the reply reports an exception; `params` is unchanged |
| Accessory.WrittenStateReadsBack | src/index.ts:93-95 | a fetch whose overview echoes a sent list is decodable, and its 321 blob, when longer than three bytes, reads as the written value |

## Left out

- HTTP and JSON are not modelled: the `fetch` calls, URLs, headers, and JSON (de)serialisation (`src/index.ts:22-26`, `71-77`, `83-88`, `134-147`). Replies are inputs: `FetchResponse` is `Overview(parameters)` or `Malformed`, and `WriteResponse` carries `isException`.
- `login` (`VerifyGuestMode`) is not modelled. Its reply is only logged and does not affect state.
- The device id derivation via `uuidv5` is not modelled. It is a name-based UUID over SHA-1 (section 4.3 of RFC 4122), computed by a foreign library.
- Homebridge registration, the information and switch services, and `getServices` are not modelled. They are host-framework wiring.
- Logging is not modelled.
- The async sequencing of `init`, and races between concurrent writes, are not modelled. Every operation is one atomic step.
- Accessory.OptiflameAccessoryPlugin.Update: it requires every 321 and 323 value in the overview to be canonical padded base64. Node's lenient decoding of other strings (whitespace, the URL-safe alphabet, missing padding, invalid characters) is not modelled. For the same reason, the class invariant `Valid` says every retained value is canonical.
- Parameters.Rewritten: it requires a canonical value on 321 and 323 entries, for the same reason.
- Accessory.OptiflameAccessoryPlugin.Update: it does not model an overview object without a `Parameters` array, where `filter` would throw before `params` is replaced.
- Accessory.OptiflameAccessoryPlugin.SetOnHandler: `value` and `state` are booleans. The source types them as `CharacteristicValue` and tests `value` for truthiness. `IsException` is a boolean too, with a missing field read as false. The model does not cover other truthy or falsy JSON values.
- Kinds are unbounded integers. The comparator `a.ParameterId - b.ParameterId` is exact on them, as it is on JavaScript's safe integers.

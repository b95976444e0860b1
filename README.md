# SLIP framing (deno-plc/slip), modelled in Dafny

This project models the core of `src/slip.core.ts`: SLIP framing as described
in RFC 1055, with the optional leading END that the encoder adds when
`terminateStart` is set.

- `slip.dfy`, module `Slip`: the byte type and the escape codes END = 0xC0,
  ESC = 0xDB, ESC_END = 0xDC and ESC_ESC = 0xDD.
- `encoding.dfy`, module `Encoding`: `encodeSLIP`.
  - `Escape`, `Stuff` and `Frame` are the pure specification. A frame is an
    optional leading END, then each byte escaped, then one trailing END. An
    empty packet is a single END.
  - `EncodeSlip` has the source's three paths: the empty shortcut, the fast
    path (`CopyFrame`), and the general path (`EscapeFrame`). `EscapeFrame`
    writes into an array sized for the worst case with a moving offset, then
    returns the written prefix. Each path is proved to return `Frame`.
- `decoding.dfy`, module `Decoding`: `SLIPDecoder`.
  - `Step` and `Feed` are the pure specification of what a byte stream does to
    the decoder state. The state is the escape flag plus the positions
    assembled since the last END.
  - A position is a `Slot`: either a stored byte, or `Unwritten`. `Unwritten`
    is a position the source moves past without writing, on an invalid
    escape.
  - Class `SlipDecoder` has the source's fields: `maxCarryOversize`,
    `ignoreEmptyPackets`, the `carry` array, `carrySize` and `esc`. A ghost
    field `pending` holds the specification's view of the carry.
  - `Decode` has the source's three phases. `Reserve` reuses the carry or
    allocates a new buffer with 10 bytes of slack. `Scan` runs the per-byte
    loop, with `Absorb` as the loop body. `Keep` runs the shrink test and
    saves the carry.
  - Each yielded packet `Fits` its specified slots. That means it has the same
    length and the same byte at every position that was actually written.
- `framing.dfy`, module `Framing`: how encoder and decoder fit together. It
  covers the round trip of one frame and of a stream of frames, and fresh
  decoders fed a stream split at any offset.

Where the code's comments and the code differ, the model follows the code.
Four behaviours are modelled exactly as written:
- The shrink test `b.length < bi - max_carry_oversize`
  (src/slip.core.ts:168) is modelled literally. The comment at
  src/slip.core.ts:107-112 presents the setting as slack that avoids
  reallocations. With a non-negative
  `maxCarryOversize` it can never hold, because the buffer always has room for
  `bi` positions. So whenever `bi > 0` the carry is cut to exactly `bi` bytes,
  and when `bi == 0` the old carry array is kept whatever its size. No bound
  on retained memory follows, and none is claimed.
- After ESC, a byte other than ESC_END or ESC_ESC, END included, neither ends
  the packet nor stores a byte. The position still advances. The byte there
  is whatever the buffer held (`Unwritten`).
- With `terminateStart` set and `ignoreEmptyPackets` false, the leading END in
  front of a non-empty packet is decoded as an extra empty packet (`Delivered`).
- The byte yielded at an invalid-escape position depends on how the stream
  was split into chunks. Take a fresh decoder fed `[7, 7, 7]` and then `[END]`.
  It keeps the 3-byte carry `[7, 7, 7]` with `carrySize` 0
  (src/slip.core.ts:131-139, 167-173). One call with
  `[ESC, 0x41, END, 1]` needs 4 bytes, so it allocates a zeroed buffer and
  yields `[0]`. The calls `[ESC, 0x41, END]` and `[1]` reuse the carry, so
  the first yields `[7]`, a byte of the earlier packet. This is why
  fragmentation is stated up to `Fits`: the same slots, not always the same
  bytes at `Unwritten` positions.

## Model

| member | source | states |
|---|---|---|
| `Encoding.Escape` | src/slip.core.ts:82-95 | reference definition of one loop turn: END and ESC become their two-byte escapes, any other byte stays as is; the contract bounds the result to one or two bytes, and `Framing.EscapeDecodes` is its inverse |
| `Encoding.Stuff` | src/slip.core.ts:81-96 | reference definition of the escaped body: `Escape` of each byte, in order (its properties are the lemmas below) |
| `Encoding.Frame` | src/slip.core.ts:49-52 | a frame is exactly `[END]` if and only if the packet is empty, whatever `terminateStart` is; every frame ends with END |
| `Encoding.StuffLength` | src/slip.core.ts:70-72 | escaping at least keeps and at most doubles the packet length |
| `Encoding.FrameLength` | src/slip.core.ts:70-72 | a frame fits the general path's worst-case buffer of `2*|p| + (terminateStart ? 2 : 1)` bytes |
| `Encoding.StuffHasNoEnd` | src/slip.core.ts:80-96 | the escaped body never contains END |
| `Encoding.CleanStuff` | src/slip.core.ts:54-67 | a packet with neither END nor ESC is its own escaped body, so the fast path agrees with the general path |
| `Encoding.StuffIsIdentityIff` | src/slip.core.ts:54 | escaping leaves a packet unchanged if and only if it contains neither END nor ESC |
| `Encoding.EndOnlyAtBoundaries` | src/slip.core.ts:75-98 | END occurs in a frame only as the last byte, and as the first byte iff `terminateStart` is set and the packet is non-empty |
| `Encoding.FrameExamples` | src/slip.core.test.ts:35-192 | the literal encodings of the fast path and the empty packet: plain, with leading END, empty with and without `terminateStart`, ESC_END passing through |
| `Encoding.FrameEscapeExamples` | src/slip.core.test.ts:35-192 | the literal encodings of the general path: escaped END, escaped ESC, a mixed packet |
| `Encoding.WriteEscaped` | src/slip.core.ts:81-95 | one loop turn writes the escape of the byte at the offset and advances the offset by its length, leaving the rest of the buffer alone |
| `Encoding.CopyFrame` | src/slip.core.ts:56-66 | the fast path returns the optional leading END, the packet verbatim, and END |
| `Encoding.EscapeFrame` | src/slip.core.ts:70-99 | the general path returns the optional leading END, the escaped body and END, within the worst-case buffer; every write is in bounds |
| `Encoding.EncodeSlip` | src/slip.core.ts:45-101 | all three paths return exactly `Frame(chunk, terminateStart)`, no longer than `2*|chunk| + (terminateStart ? 2 : 1)` |
| `Decoding.Step` | src/slip.core.ts:141-165 | reference definition of one loop turn, branch by branch; it yields at most one packet and reports at most one code |
| `Decoding.Feed` | src/slip.core.ts:141-165 | reference definition of the whole loop: `Step` on each byte in order, packets and reports concatenated (its properties are the lemmas below) |
| `Decoding.FeedSplit` | src/slip.core.ts:139-167 | feeding `a + b` equals feeding `a`, then feeding `b` from the state (escape flag and partial packet) that `a` left |
| `Decoding.FeedGrowth` | src/slip.core.ts:139-165 | a chunk adds at most one position per byte to the pending packet, so `bi <= carrySize + |chunk|` |
| `Decoding.InvalidEscape` | src/slip.core.ts:143-152 | after ESC, any byte other than ESC_END or ESC_ESC (END included) is reported once, takes one unwritten position, clears the escape and does not end the packet |
| `Decoding.ValidEscapes` | src/slip.core.ts:143-147 | ESC ESC_END stores END and ESC ESC_ESC stores ESC, leaving no escape pending |
| `Decoding.EndDelimits` | src/slip.core.ts:155-160 | an unescaped END yields the assembled packet unless it is empty and empty packets are ignored, then restarts from the idle state |
| `Decoding.LoneEnd` | src/slip.core.test.ts:216-227 | `[END]` decodes to `[[]]` when empty packets are kept and to `[]` when they are ignored |
| `Decoding.PlainByte` | src/slip.core.ts:161-164 | outside an escape, a byte other than END and ESC is stored as is, ESC_END and ESC_ESC included |
| `Decoding.EscapedEndExample` | src/slip.core.test.ts:229-233 | `[1, ESC, ESC_END, 5, END]` decodes to the packet `[1, END, 5]` |
| `Decoding.BareEscEndExample` | src/slip.core.test.ts:241-245 | `[1, ESC_END, 5, END]` decodes to the packet `[1, ESC_END, 5]` |
| `Decoding.SlipDecoder.constructor` | src/slip.core.ts:113-122 | a new decoder has `max_carry_oversize` 100, ignores empty packets, has an empty carry and no pending escape |
| `Decoding.SlipDecoder.Reserve` | src/slip.core.ts:131-139 | the buffer is the carry when it can take carry plus chunk, else a new one of that size plus 10; its head holds the old carry either way |
| `Decoding.SlipDecoder.Absorb` | src/slip.core.ts:142-164 | one byte of the scan changes the buffer prefix, the escape flag, the yielded packets and the reports exactly as `Step` says |
| `Decoding.SlipDecoder.Scan` | src/slip.core.ts:139-165 | the scan of a chunk yields packets that fit `Feed`, reports its invalid codes and leaves its state; `bi` never exceeds `carrySize + |chunk|` so every write is in bounds |
| `Decoding.SlipDecoder.Keep` | src/slip.core.ts:167-173 | `carrySize` becomes `bi`; the carry becomes the buffer if the literal shrink test holds, else a fresh array equal to `b[0..bi)` if `bi > 0`, else stays as it was |
| `Decoding.SlipDecoder.Decode` | src/slip.core.ts:128-174 | one call yields, in order, packets fitting `Feed` of the old state and the chunk; it keeps the state `Feed` leaves; with `maxCarryOversize >= 0` the carry has exactly `carrySize` bytes when `carrySize > 0` and is unchanged otherwise |
| `Framing.Delivered` | src/slip.core.ts:49-52 | the packets one frame delivers: with empty packets ignored, `[p]` or nothing for an empty `p`; with them kept, `p` last, preceded by one extra empty packet exactly when `terminateStart` is set and `p` is non-empty |
| `Framing.EscapeDecodes` | src/slip.core.ts:143-164 | decoding the escape of any byte outside an escape stores exactly that byte |
| `Framing.StuffDecodes` | src/slip.core.ts:141-165 | decoding an escaped body adds exactly the packet's bytes to the pending packet, yields nothing and reports nothing |
| `Framing.BodyDecodes` | src/slip.core.ts:155-160 | an escaped non-empty body followed by END yields exactly that packet from the idle state |
| `Framing.LeadingEndDecodes` | src/slip.core.ts:155-160 | a leading END before a non-empty escaped body yields an extra empty packet unless empty packets are ignored, then the packet |
| `Framing.FrameDecodes` | src/slip.core.ts:45-174 | a fresh decoder turns one frame into `Delivered(p, terminateStart, ignoreEmpty)` and returns to idle with no reports |
| `Framing.StreamDecodes` | src/slip.core.test.ts:269-291 | a stream of frames decodes to the packets each frame delivers, in order, with no reports |
| `Framing.DeliveredIgnoringEmpty` | src/slip.core.ts:156 | with empty packets ignored, a stream delivers exactly its non-empty packets, with or without leading ENDs |
| `Framing.DeliveredKeepingEmpty` | src/slip.core.ts:49-52 | without leading ENDs and with empty packets kept, a stream delivers every packet, empty ones included |
| `Framing.StreamIgnoringEmpty` | src/slip.core.test.ts:269-291 | a fresh decoder that ignores empty packets turns a stream of frames into the non-empty packets' slots, with no reports |
| `Framing.StreamKeepingEmpty` | src/slip.core.test.ts:269-291 | a fresh decoder that keeps empty packets turns a stream of frames without leading ENDs into every packet's slots, with no reports |
| `Framing.DecodeTwo` | src/slip.core.ts:128-174 | two `Decode` calls on one decoder yield packets that fit the same slots as one call on the concatenated chunks, report the same invalid codes, keep both settings, and leave the same model state |
| `Framing.DecodeEncoded` | src/slip.core.test.ts:293-300 | a fresh decoder turns `EncodeSlip(p)` into exactly `[p]`, or `[]` for an empty `p`, with or without `terminateStart`, and reports nothing |
| `Framing.DecodeSplit` | src/slip.core.test.ts:269-291 | the concatenated frames of any packets, split at any offset and fed in two calls to one default decoder, yield exactly the non-empty packets in order and report nothing |
| `Framing.DecodeSplitKeepingEmpty` | src/slip.core.test.ts:269-291 | the same with empty packets kept: every packet comes out, empty ones included, and nothing is reported |

## Left out

- `mod.ts` (the `TransformStream` adapters `SLIPDecoderStream` and `SLIPEncoderStream`) is not part of this model. Those adapters only forward to `encodeSLIP` and `decode`.
- `src/slip.core.bench.ts` is not part of this model. It is a timing harness with nothing to state.
- `src/slip.core.test.ts` is not modelled as code. Its random data and test runner are I/O. Its assertions are stated as the lemmas and methods above.
- Generator laziness: `Decode` returns the packets in yield order, all at once.
- `console.error` at src/slip.core.ts:149 is I/O. It becomes the `diagnostics` result: the invalid escape codes, in order.
- `Uint8Array` values become `seq<byte>` at the interfaces. Inside, arrays are used where the source writes into buffers. Yielded packets are sequences, so they cannot alias the buffer.
- The options object `{ terminateStart }` becomes a boolean parameter. A missing option defaults to false in the source.
- Allocation failure is not modelled.
- `maxCarryOversize` is an unbounded integer. In the source, `max_carry_oversize` is a JavaScript number. A fractional value would move the line-168 threshold between integers. NaN would make the test never hold, and -Infinity would make it always hold. Those values are not modelled.
- Decoding.SlipDecoder.Decode: a packet byte at an invalid-escape position is left unconstrained. The source determines it: zero in a freshly allocated buffer, stale content in a reused one. The model states only that the packet `Fits` its slots.
- The idea that retained memory converges to within `max_carry_oversize` bytes is not a property of the code as written, because of the shrink test at src/slip.core.ts:168. It is not claimed.
- `EncodeSlip`'s loop body is a separate method, `WriteEscaped`, and `Decode`'s phases are the methods `Reserve`, `Scan`/`Absorb` and `Keep`. Each keeps the source's statements. The split only keeps each proof small.

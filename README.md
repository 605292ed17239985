# QPACK decoder of hpack, in Dafny

This project models the QPACK layer of the `hpack` package. QPACK is the
header compression of HTTP/3; this code follows an early draft of it, which
was later published as RFC 9204. The layer has three parts:

- **The wire primitives** (`hpack/qpack.py`):
  - the QUIC variable-length integer of section 16 of RFC 9000, used for
    acknowledgements (`encode_quic_int`, `decode_quic_int`);
  - string literals (`decode_literal`);
  - table references relative to a base (`decode_index`, `decode_index_post`);
  - the header-block prefix (`Decoder._decode_prefix`).
- **The decoder** (`Decoder` in `hpack/qpack.py`):
  - `update` runs encoder-stream instructions against the header table;
  - `decode` turns one header block into a header list, blocks the stream
    until the entries it needs arrive, or rejects it with an
    acknowledgement attached.
- **The sorted linked list** (`hpack/struct.py`), which the decoder uses as
  its queue of blocked streams, and the header tuples.

The modules follow that structure:

| file | module | contents |
|---|---|---|
| `errors.dfy` | `Errors` | the exception hierarchy as one error datatype; `Result`, `Option` |
| `bytes.dfy` | `Bytes` | powers of two, big-endian words, bit masks |
| `prefix_int.dfy` | `PrefixInt` | the prefix integers of section 5.1 of RFC 7541 (hpack's `decode_integer`) |
| `quic_int.dfy` | `QuicInt` | `encode_quic_int` and `decode_quic_int`, as intended and as written |
| `primitives.dfy` | `Primitives` | `decode_literal`, `decode_index`, `decode_index_post`, `_decode_prefix` |
| `header_table.dfy` | `HeaderTable` | the header table as an abstract value |
| `struct.dfy` | `Struct` | `HeaderTuple`, `LLNode`, `LinkedList` |
| `encoder_stream.dfy` | `EncoderStream` | the four encoder-stream instructions and the `update` loop as a function |
| `header_block.dfy` | `HeaderBlock` | the five field-line representations and the `decode` loop as a function |
| `decoder.dfy` | `Decoding` | the `Decoder` class and its loops as methods |

**Pure parts.** The wire primitives and the per-instruction helpers are
functions.

- Every decoder has a reference encoder written from the draft's layout.
- A round-trip lemma proves that decoding an encoding gives back what was
  encoded and consumes exactly its bytes, whatever follows.
- These compose into round trips for whole encoder-stream runs and whole
  header blocks with plain literals (`HeaderBlock.FieldsRoundTrip`,
  `Decoding.BlockRoundTrip`).

**Imperative parts.** The source's two `while current_index < data_len`
loops are methods:

- `Decoding.RunInstructions` and `Decoding.DecodeFieldLines` carry loop
  invariants.
- Each is proved equal to a recursive specification function
  (`EncoderStream.Run`, `HeaderBlock.DecodeFields`).
- `DecodeFieldLines` also keeps the running `inflated_size` /
  `discard_headers` bookkeeping.
- `Decoding.Decoder` is a class with the source's fields, and `update` /
  `decode` are its methods.

`LinkedList` is a class over `LLNode` objects:

- Ghost sequences `nodes` and `contents` describe the list.
- Its validity invariant states the source's `head` / `tail` discipline.
- Every method states its effect on `contents` in terms of a specification
  function (`InsertAt`, `RemoveAt`, `PrefixLen`, `KeyIndex`).
- Sortedness is proved about those functions.

**Where the code is unfinished**, the model follows its evident intent and
records the deviation under "## Findings". Each deviation has two members:

- a member that models the code as written, with a lemma exhibiting the
  input that shows the problem;
- the corrected member, which the rest of the model uses.

## Model

| member | source | states |
|---|---|---|
| Errors.Wrap | hpack/qpack.py:303-306 | every failure leaving `update` is a QPACK stream error; stream errors pass unchanged, and anything else becomes a QPACKDecodingError carrying it |
| Errors.WrapAsWritten | hpack/qpack.py:305-306 | as written, `update`'s handler lets a stream error through unchanged and turns every other failure into TypeError, which is not a stream error and differs from the intended wrap |
| PrefixInt.DecodeInteger | hpack/qpack.py:463 | an empty input is a truncated integer; a prefix below its maximum is the value and consumes one byte; a successful read consumes between 1 and all input bytes |
| PrefixInt.IntegerRoundTrip | hpack/qpack.py:463 | decoding a section 5.1 encoding with any high bits gives back the integer and consumes exactly its encoding, whatever follows |
| PrefixInt.IntegerIgnoresSuffix | hpack/qpack.py:387-390 | bytes after a successfully read integer never change the result, so reading from a slice of the buffer is sound |
| QuicInt.EncodeQuicInt | hpack/qpack.py:35-67 | succeeds exactly for 0 <= n < 2^62 and raises ValueError otherwise; the top two bits of the first byte give the length (1, 2, 4 or 8 bytes); the value fits that length and would not fit the next smaller one |
| QuicInt.DecodeQuicInt | hpack/qpack.py:68-84 | succeeds exactly on an input as long as its first byte's tag says; the value is below that length's limit |
| QuicInt.TagWeight | hpack/qpack.py:83 | the tag contributes exactly `size << (8*word_length-2)` to the big-endian word, so subtracting it leaves the value |
| QuicInt.TaggedValue | hpack/qpack.py:64-66 | ORing the tag into the first packed byte sets the top two bits to the tag and adds exactly the tag's weight |
| QuicInt.LimitFactor | hpack/qpack.py:40-54 | a word of len bytes carries 8*len-2 value bits |
| QuicInt.BitLengthLimits | hpack/qpack.py:40-58 | `bit_length()+2` fits 1, 2, 4 or 8 bytes exactly when the value is below 2^6, 2^14, 2^30 or 2^62 |
| QuicInt.SizeTag | hpack/qpack.py:40-54 | the chosen tag is the shortest length that holds the value |
| QuicInt.QuicIntRoundTrip | hpack/qpack.py:35-84 | decode_quic_int(encode_quic_int(n)) == n for every 0 <= n < 2^62 |
| QuicInt.QuicIntInjective | hpack/qpack.py:35-67 | two integers with the same encoding are equal |
| QuicInt.SelectFormatAsWritten | hpack/qpack.py:40-58 | as written, a format is chosen exactly for word lengths up to 8 (ValueError beyond); the buffer is never shorter than the word and tag 0 is never chosen; the format fits the buffer exactly when the word has at least 2 bytes, and is narrower than the buffer exactly for words of 5 to 8 bytes |
| QuicInt.PackIntoAsWritten | hpack/qpack.py:61 | `struct.pack_into` succeeds exactly when the format fits the buffer and the integer fits the format, else struct.error; then the buffer keeps its length and starts with the integer, big-endian |
| QuicInt.PackOutcomeAsWritten | hpack/qpack.py:40-61 | as written, a format is chosen exactly below 2^62, and packing then fails exactly below 2^6 or from 2^32 on |
| QuicInt.EncodeQuicIntAsWritten | hpack/qpack.py:35-67 | as written, encode_quic_int never succeeds: ValueError exactly for negative integers and those from 2^62, struct.error exactly below 2^6 and from 2^32 below 2^62, TypeError exactly from 2^6 below 2^32 |
| QuicInt.OneByteCaseOverwritten | hpack/qpack.py:41-46 | as written, a 1-byte integer (0) gets the 2-byte format and tag and packing fails; the intended encoding is the single byte 0 |
| QuicInt.TagOredIntoFormatString | hpack/qpack.py:66 | as written, a packable integer (100) still fails with TypeError from `f[0] \|=`; the intended encoding is 0x40 0x64 |
| QuicInt.EightByteFormatTooNarrow | hpack/qpack.py:51-54 | as written, every integer from 2^32 below 2^62 fails with struct.error, because it needs 8 bytes and "!L" holds 4; the intended encoder encodes each of them and the decoder gives it back |
| QuicInt.DecodeQuicIntAsWritten | hpack/qpack.py:68-84 | as written, decode_quic_int never succeeds: IndexError exactly on empty input; TypeError exactly when the input is as long as the format ("!I", 4 bytes, for tag 3), from subtracting an integer from the tuple struct.unpack returns; every well-formed 8-byte word fails with struct.error |
| QuicInt.EightByteDecodeRefused | hpack/qpack.py:79-82 | as written, the 8-byte encoding of every integer from 2^30 below 2^62 is refused by the 4-byte "!I" format; the intended decoder gives the integer back |
| Primitives.FlagBitIsMask | hpack/qpack.py:479 | the flag test used throughout is the source's `b & (1<<j)` |
| Primitives.DecodeLiteral | hpack/qpack.py:477-486 | Huffman flag from bit prefix-1 and a (prefix-1)-bit length; a truncated payload is a QPACKDecodingError, both directions; the plain or Huffman-decoded payload and consumed = header + length otherwise; integer errors propagate |
| Primitives.LiteralRoundTrip | hpack/qpack.py:477-486 | an encoded literal decodes to its payload (through the Huffman decoder when flagged) and consumes exactly its encoding |
| Primitives.DecodeIndex | hpack/qpack.py:488-496 | static flag from bit prefix-1; a static index is returned as sent; a dynamic one becomes base - relative and is refused exactly when it exceeds largest_ref; the consumed count is the integer's |
| Primitives.IndexRoundTrip | hpack/qpack.py:488-496 | an encoded static or dynamic reference decodes to the same entry and consumes exactly its encoding |
| Primitives.DecodeIndexPost | hpack/qpack.py:498-503 | the index is always dynamic and equal to base + 1 + relative, and it is refused exactly when it exceeds largest_ref |
| Primitives.IndexPostRoundTrip | hpack/qpack.py:498-503 | an encoded post-base reference decodes to the same absolute index |
| Primitives.DecodePrefix | hpack/qpack.py:385-399 | all five outcomes: an error of the largest-reference integer passes through; a block ending right after it is IndexError (the sign-byte read at line 389); an error of the delta integer passes through; a set sign with delta 0 is refused; every other prefix is accepted, with base = largest_ref + delta when the sign is clear and largest_ref - delta when it is set, and consumed the sum of both integer lengths |
| Primitives.PrefixRoundTrip | hpack/qpack.py:385-399 | an encoded prefix decodes to the same largest_ref and base for every base, above or below largest_ref |
| HeaderTable.EntrySize | hpack/qpack.py:353 | the entry size is the two lengths plus 32 |
| HeaderTable.Table.Add | hpack/qpack.py:453 | the new entry gets absolute index largest_ref + 1; every earlier index still names the same entry |
| HeaderTable.Table.GetByIndex | hpack/qpack.py:416 | succeeds exactly for a static index inside the static table or a dynamic index in 1..largest_ref, and gives an entry of that table; otherwise InvalidTableIndex |
| HeaderTable.Table.Resize | hpack/qpack.py:269-271 | setting the table size changes only maxsize; the static and dynamic entries stay |
| HeaderTable.ExtendsKeepsIndices | hpack/qpack.py:447-467 | a table grown by insertions resolves every old absolute index to the same entry |
| Struct.Sensitive | hpack/qpack.py:186-187 | a header is sensitive exactly when it is a NeverIndexedHeaderTuple, i.e. when `indexable` is false (struct.py:26, 39) |
| Struct.InsertKeepsSorted | hpack/struct.py:71-93 | inserting at insert's position keeps a list sorted by value |
| Struct.HeadIsSmallest | hpack/struct.py:53-58 | on a sorted list the head holds the minimum and the rest stays sorted |
| Struct.RemoveKeepsSorted | hpack/struct.py:94-112 | removing any node keeps a sorted list sorted |
| Struct.PopManySplitsSorted | hpack/struct.py:59-68 | on a sorted list the popped prefix is exactly the nodes of value <= v, and what is left stays sorted |
| Struct.LinkedList.constructor | hpack/struct.py:48-51 | a new list is empty, with head and tail both None |
| Struct.LinkedList.Insert | hpack/struct.py:71-93 | exactly one node is added, at the position InsertPosition gives, and the other pairs keep their order; head/tail stay consistent, so `assert False` is unreachable |
| Struct.LinkedList.LinkFirst | hpack/struct.py:81-84 | the new node becomes the head in front of the old nodes |
| Struct.LinkedList.LinkAfter | hpack/struct.py:76-78 | the new node follows prev, and tail moves when prev was the tail |
| Struct.LinkedList.UnlinkAfter | hpack/struct.py:103-109 | the node after prev is removed, and tail moves back when it was the last |
| Struct.LinkedList.DropFirst | hpack/struct.py:98-101 | the first i nodes are dropped, and an emptied list gets a null tail |
| Struct.LinkedList.PopSmallest | hpack/struct.py:53-58 | on a non-empty list, returns the head and leaves the rest; on an empty one, AttributeError and no change |
| Struct.LinkedList.PopMany | hpack/struct.py:59-68 | returns exactly the longest prefix of nodes with value <= v, in order, and keeps the rest (tail reset when empty) |
| Struct.LinkedList.PopManyAsWritten | hpack/struct.py:59-68 | as written, head moves past the prefix but tail is kept, so a list emptied this way keeps a non-null tail |
| Struct.LinkedList.Delete | hpack/struct.py:94-112 | removes the first node with the key and returns its pair, keeping the others in order; KeyError and no change when no node has it, including on an empty list |
| Struct.LinkedList.GetItem | hpack/struct.py:113-118 | the value of the first node with the key; KeyError when there is none |
| Struct.LinkedList.SetItem | hpack/struct.py:119-126 | replaces the first matching node's value and returns the old one, with no node moved; KeyError and no change when absent |
| Struct.GetItemAsWritten | hpack/struct.py:113-118 | as written, for every list and key: it returns exactly when the first node with the key (KeyIndex) is the head, and then with that node's value; KeyError exactly on an empty list; it loops forever exactly when KeyIndex is past the head, whether the key is held by a later node or absent |
| Struct.SetItemAsWritten | hpack/struct.py:119-126 | as written, for every list and key: it returns exactly when KeyIndex is the head, and then with the old value and only that node's value replaced; KeyError exactly on an empty list; it loops forever exactly when KeyIndex is past the head |
| Struct.LookupPastHeadDiverges | hpack/struct.py:113-126 | a key held by the second node: the intended lookup finds it, the written get and set never return |
| EncoderStream.ClassifyInstruction | hpack/qpack.py:286-299 | first byte >= 0x80 is insert with name reference, 0x40-0x7f insert without, 0x20-0x3f size update, below 0x20 duplicate |
| EncoderStream.ClassifyInstructionIsMaskDispatch | hpack/qpack.py:286-299 | that classification is the source's mask chain, in its order |
| EncoderStream.InsertNameRef | hpack/qpack.py:447-454 | on success the table is the old table plus one entry: the name of the entry the 7-bit index names (against largest_ref) with the value of the 8-bit literal after it; the consumed count is both parts'; a failing index, an index outside both tables (InvalidTableIndex) or a failing value literal is the result, in that order; earlier indices and maxsize are kept |
| EncoderStream.InsertWithoutNameRefOp | hpack/qpack.py:456-461 | on success the table is the old table plus the entry of the 6-bit name literal and the 8-bit value literal after it, consuming both; a failing name literal, then a failing value literal, is the result |
| EncoderStream.InsertDuplicate | hpack/qpack.py:462-467 | an error of the 5-bit integer passes through; otherwise it succeeds exactly when largest_ref - relative names a dynamic entry, and fails with InvalidTableIndex when it does not; on success that entry is appended again, earlier indices and maxsize are kept, and the consumed count is the integer's |
| EncoderStream.SizeUpdate | hpack/qpack.py:468-475 | a size above max_allowed_table_size is refused with InvalidTableSizeError, both directions; otherwise it becomes maxsize and the entries stay |
| EncoderStream.Step | hpack/qpack.py:285-299 | one instruction consumes between 1 and all remaining bytes and keeps every earlier entry at its index; an insert or duplicate adds exactly one entry and keeps maxsize; a size update keeps the entries and sets maxsize only to an allowed value |
| EncoderStream.Run | hpack/qpack.py:283-300 | the table after any run, even a failed one, keeps every earlier entry at its index; maxsize changes only to an allowed value |
| EncoderStream.InsertNameRefRoundTrip | hpack/qpack.py:447-454 | an encoded insert with name reference appends the referenced name with the value, then the run continues after it |
| EncoderStream.InsertWithoutNameRefRoundTrip | hpack/qpack.py:456-461 | an encoded insert without name reference appends the name and value |
| EncoderStream.DuplicateRoundTrip | hpack/qpack.py:462-467 | an encoded duplicate appends a copy of the entry it names |
| EncoderStream.SizeUpdateRoundTrip | hpack/qpack.py:468-475 | an encoded size update within the limit sets maxsize; one above it stops the run with InvalidTableSizeError |
| HeaderBlock.ClassifyRepresentation | hpack/qpack.py:329-345 | the intended dispatch gives every first byte exactly one representation, by range |
| HeaderBlock.ClassifyIsMaskDispatch | hpack/qpack.py:329-345 | those ranges are the source's mask chain with the intended 0x60 pattern |
| HeaderBlock.ClassifyRepresentationAsWritten | hpack/qpack.py:329-345 | as written, a literal without name reference is never recognised, and bytes 0x60-0x7f are "Invalid instruction", both directions |
| HeaderBlock.ClassifiersDiffer | hpack/qpack.py:335 | the written and intended dispatches differ on exactly 0x60-0x7f (0x70 shows it) |
| HeaderBlock.DecodeIndexed | hpack/qpack.py:411-417 | the header is an indexable HeaderTuple of an entry of the static or dynamic table |
| HeaderBlock.DecodeLiteralNameRef | hpack/qpack.py:431-445 | NeverIndexedHeaderTuple exactly when bit 0x20 (0x08 for post-base) is set; the name is that of a table entry |
| HeaderBlock.DecodeLiteralWithoutNameRef | hpack/qpack.py:419-428 | NeverIndexedHeaderTuple exactly when bit 0x10 is set |
| HeaderBlock.DecodeRepresentation | hpack/qpack.py:329-346 | one field line consumes between 1 and all remaining bytes; the header is never-indexed exactly when a literal pattern's own flag is set (0x20 below 0x40, 0x08 for 0x50-0x5f, 0x10 for 0x60-0x7f); the two indexed patterns give an entry of the table |
| HeaderBlock.DecodeFields | hpack/qpack.py:324-346 | an empty block decodes to no headers; a decoded non-empty block has at least one header and never more headers than bytes |
| HeaderBlock.LineRoundTrip | hpack/qpack.py:329-445 | every valid field line of each of the five forms, with its literals sent as plain text, decodes to the header it stands for (never-index flag included) and consumes exactly its encoding |
| HeaderBlock.FieldsRoundTrip | hpack/qpack.py:324-346 | an encoded sequence of valid lines, with plain literals, decodes to their headers, in order |
| HeaderBlock.HeaderListSizeMonotone | hpack/qpack.py:353-354 | the running size of a header list never decreases as headers are added |
| Decoding.HeaderListSizeAppend | hpack/qpack.py:353 | each header adds exactly its entry size to the running total |
| Decoding.BlockVerdict | hpack/qpack.py:359-374 | the headers are returned exactly when decoding succeeded, the table fits and the list is within max_header_list_size; otherwise, in that order, the wrapped decoding error, InvalidTableSizeError or OverflowError, always a stream error |
| Decoding.Respond | hpack/qpack.py:362-374 | every non-blocked answer carries the stream id as a QUIC integer that decodes back to it; a stream id that cannot be encoded makes ValueError escape |
| Decoding.DecodeBlock | hpack/qpack.py:318-374 | a prefix error is answered with the wrapped error and the acknowledgement; a non-blocked block never answers "blocked" |
| Decoding.BlockRoundTrip | hpack/qpack.py:308-374 | a block encoded from a prefix and valid lines (plain literals), within both limits, decodes to exactly the lines' headers with the stream's acknowledgement |
| Decoding.AccountHeader | hpack/qpack.py:347-358 | after each header, headers are dropped exactly when the total size passes the limit; while kept, the list and running size are those of every header so far |
| Decoding.RunInstructions | hpack/qpack.py:281-300 | the instruction loop ends with the table and failure of the specification run over the same buffer |
| Decoding.DecodeFieldLines | hpack/qpack.py:318-358 | the field-line loop fails exactly when the specification decode fails; otherwise headers are kept exactly when their total size is within the limit, and then they are the decoded headers |
| Decoding.Decoder.constructor | hpack/qpack.py:233-260 | empty dynamic table, max_allowed_table_size equal to the table size, no blocked stream |
| Decoding.Decoder.SetHeaderTableSize | hpack/qpack.py:269-271 | only the table's maxsize changes |
| Decoding.Decoder.AssertValidTableSize | hpack/qpack.py:376-384 | InvalidTableSizeError exactly when maxsize exceeds max_allowed_table_size |
| Decoding.Decoder.CheckBlocking | hpack/qpack.py:402-408 | blocks exactly when the block's largest_ref exceeds the table's, and then queues the stream in reference order; the queue stays sorted |
| Decoding.Decoder.ResumeStreams | hpack/qpack.py:409-410 | returns the ids of exactly the queued streams whose reference the table now holds, in order, and leaves the others queued |
| Decoding.Decoder.Update | hpack/qpack.py:275-306 | the table becomes the specification run's result; a failing instruction or an oversized table gives a stream error and resumes nobody; it succeeds exactly when the run has no failure and the table fits, and then gives the ack of stream 0 and the resumed streams |
| Decoding.Decoder.Decode | hpack/qpack.py:308-374 | a prefix error is answered with its ack; a block referring past the newest entry answers "blocked" and queues the stream; any other block answers as DecodeBlock does, with the queue unchanged |

## Left out

- The `Encoder` class (hpack/qpack.py:86-209) is incomplete: it calls methods
  that do not exist and returns nothing from `_encode_one`. Only reference
  encoders for the decoded formats are written, as partners for the round
  trips.
- The header table (`QPACKHeaderTable`, in hpack/table.py) is not part of
  this model. It is an abstract value: a static table given as a parameter
  (indexed from 0, as in QPACK), the dynamic entries in insertion order, and
  `maxsize`. There is no eviction: `add` never drops entries, and `maxsize`
  is only recorded and checked.
- `decode_huffman` (hpack/huffman.py) is not part of this model. It is a
  parameter: a partial function from payload to bytes, whose refusal is an
  InvalidHuffman decoding error.
- `decode_integer` (hpack/hpack.py) is not part of this model. It is stated
  as section 5.1 of RFC 7541 defines it, with no cap on the integer's length.
- The conversion of the decoded headers to text (`_unicode_if_needed`,
  hpack/qpack.py:361-365) and its UTF-8 error: headers stay byte strings.
- Logging and `memoryview` slicing: slices are sequence slices.
- Decoding.Decoder.Update: uses the intended wrap, `Errors.Wrap`. As written,
  `raise_from` at hpack/qpack.py:306 is called with one argument and itself
  raises TypeError, so update never raises the documented QPACKDecodingError
  for a failure that is not already a stream error (see Findings).
- Decoding.DecodeFieldLines: the `if not header` branch (hpack/qpack.py:348)
  cannot be taken, because a decoded header is never empty, so it is not
  modelled.
- Decoding.Decoder.Update: the acknowledgement `_generate_ack(0)` uses the
  corrected encoder. As written it always raises (see Findings).
- Decoding.Respond: the acknowledgement `_generate_ack(stream_id)` of
  `decode` (hpack/qpack.py:362, 370 and 374) uses the corrected encoder, and
  so does Decoding.Decoder.Decode through it. As written, encode_quic_int
  always raises, and the handler at line 374 calls it again. So `decode`
  as written never returns headers and never raises a QPACK stream error:
  the exception from encode_quic_int escapes instead (see Findings).
- HeaderBlock.LineRoundTrip: the reference encoder `EncodeLine` sends every
  literal as plain text, so the field-line and block round trips
  (LineRoundTrip, FieldsRoundTrip, Decoding.BlockRoundTrip) do not cover
  Huffman-flagged names or values. The Huffman path of `decode_literal`
  (hpack/qpack.py:484-485) is covered per literal only, by
  Primitives.LiteralRoundTrip.
- Decoding.Decoder.ResumeStreams: uses the corrected `popMany`. As written it
  returns None, and iterating it would raise TypeError (see Findings).
- Decoding.Decoder.Valid: requires the queue of blocked streams to be sorted
  by reference. The source keeps no such invariant explicitly, but every
  operation the decoder applies to the queue preserves it.
- Struct.LinkedList.SetItem: overwrites a value in place, as the source does.
  This can leave the list out of order, so SetItem promises nothing about
  sortedness.
- Integers are unbounded. Python's are too, so no width is lost except in
  the QUIC integer, whose widths are modelled explicitly.
- Exceptions are one datatype, `Errors.Error`; the messages are dropped.
- Concurrency, transport and QUIC streams; setup.py.

## Findings

| source | as written | input that shows it | evidently intended | confidence | as-written member | corrected member |
|---|---|---|---|---|---|---|
| hpack/qpack.py:41-46 | `if word_length <= 2` follows `if word_length == 1` instead of `elif`, so a 1-byte integer gets format "!H" and size 1, and packing 2 bytes into a 1-byte buffer raises struct.error | 0 | a 1-byte encoding with tag 0 | not executed | QuicInt.OneByteCaseOverwritten | QuicInt.EncodeQuicInt |
| hpack/qpack.py:66 | the tag is ORed into `f[0]`, a character of the format string, which raises TypeError for every integer that packs | 100 | the tag ORed into `elements[0]` | not executed | QuicInt.TagOredIntoFormatString | QuicInt.QuicIntRoundTrip |
| hpack/qpack.py:51-54 | "!L" is 4 bytes under standard sizes, so an 8-byte integer does not fit the format | 2^32 (every integer from 2^32 below 2^62) | the 8-byte format "!Q" | not executed | QuicInt.EightByteFormatTooNarrow | QuicInt.EncodeQuicInt |
| hpack/qpack.py:79-84 | the 8-byte case unpacks with "!I" (4 bytes), and `struct.unpack` returns a tuple from which the tag is subtracted | the 8-byte encoding of 2^40 (of every integer from 2^30 below 2^62) | "!Q" and the tuple's first element | not executed | QuicInt.EightByteDecodeRefused | QuicInt.DecodeQuicInt |
| hpack/qpack.py:335 | `current & 0xE0 == 0x30` never holds, because 0x30 has a bit outside the mask, so a literal without name reference is rejected as an invalid instruction | first byte 0x70 | the pattern 0x60 | not executed | HeaderBlock.ClassifiersDiffer | HeaderBlock.ClassifyRepresentation |
| hpack/struct.py:59-68 | `popMany` returns nothing and leaves `tail` pointing at an unlinked node when it empties the list | a one-node list of value 1, popMany(1) | return the popped pairs and clear `tail` | not executed | Struct.LinkedList.PopManyAsWritten | Struct.LinkedList.PopMany |
| hpack/struct.py:113-126 | `__getitem__` and `__setitem__` never advance `node`, so any key not at the head loops forever | list [(1, 10), (2, 20)], key 2 | advance to `node.next` each pass | not executed | Struct.LookupPastHeadDiverges | Struct.LinkedList.GetItem |
| hpack/qpack.py:305-306 | `raise_from` is called with the new QPACKDecodingError as its only argument; it takes the exception and its cause, so the call raises TypeError | an insert with name reference to a static index outside the static table (InvalidTableIndex) | `raise_from(QPACKDecodingError(...), e)`, as `decode` does at line 374 | not executed | Errors.WrapAsWritten | Errors.Wrap |

/** The QPACK Decoder (hpack/qpack.py:211-410): the header table, the
    limits it checks, and the queue of streams blocked on table entries not
    yet received. update runs encoder-stream instructions; decode turns one
    header block into a header list, or blocks the stream, or rejects it
    with an acknowledgement attached. */
module Decoding {
  import opened Errors
  import opened Bytes
  import opened QuicInt
  import opened Primitives
  import opened HeaderTable
  import opened Struct
  import opened EncoderStream
  import opened HeaderBlock

  /** What decode gives back: (None, None) for a stream that must wait, or
      the acknowledgement with either the headers or the stream error that
      carries it. */
  datatype BlockOutcome =
    | Blocked
    | Decoded(ack: seq<byte>, headers: seq<Header>)
    | Rejected(ack: seq<byte>, error: Error)

  /** The verdict on a block that was not blocked: a decoding failure, a
      table left larger than allowed, a header list over the limit, or the
      headers. Failures that are not stream errors are wrapped. */
  function BlockVerdict(fields: Result<seq<Header>>, t: Table, maxAllowed: nat, maxListSize: nat)
    : (r: Result<seq<Header>>)
    ensures r.Err? ==> IsStreamError(r.error)
    ensures r.Ok? <==> fields.Ok? && t.maxSize <= maxAllowed && HeaderListSize(fields.value) <= maxListSize
    ensures r.Ok? ==> r == fields
    ensures fields.Err? ==> r == Err(Wrap(fields.error))
    ensures fields.Ok? && t.maxSize > maxAllowed ==> r == Err(InvalidTableSizeError)
    ensures fields.Ok? && t.maxSize <= maxAllowed && HeaderListSize(fields.value) > maxListSize ==>
      r == Err(OverflowError)
  {
    match fields
    case Err(e) => Err(Wrap(e))
    case Ok(hs) =>
      if t.maxSize > maxAllowed then Err(InvalidTableSizeError)
      else if HeaderListSize(hs) > maxListSize then Err(OverflowError)
      else Ok(hs)
  }

  /** _generate_ack (hpack/qpack.py:400-401) attached to the verdict: the
      acknowledgement is the stream id as a QUIC integer, and a stream id
      that cannot be encoded makes the ValueError escape instead. */
  function Respond(streamId: int, verdict: Result<seq<Header>>): (r: Result<BlockOutcome>)
    ensures r.Ok? <==> 0 <= streamId < 0x4000_0000_0000_0000
    ensures r.Err? ==> r.error == ValueError
    ensures r.Ok? ==> !r.value.Blocked? && DecodeQuicInt(r.value.ack) == Ok(streamId)
    ensures r.Ok? && verdict.Ok? ==> r.value.Decoded? && r.value.headers == verdict.value
    ensures r.Ok? && verdict.Err? ==> r.value.Rejected? && r.value.error == verdict.error
  {
    match EncodeQuicInt(streamId)
    case Err(e) => Err(e)
    case Ok(ack) =>
      QuicIntRoundTrip(streamId);
      match verdict
      case Ok(hs) => Ok(Decoded(ack, hs))
      case Err(e) => Ok(Rejected(ack, e))
  }

  /** The outcome of decode on a block that is not blocked, as a function
      of the table it is decoded against. */
  function DecodeBlock(t: Table, data: seq<byte>, streamId: int, maxAllowed: nat, maxListSize: nat,
                       huffman: HuffmanDecoder): (r: Result<BlockOutcome>)
    ensures r.Ok? ==> !r.value.Blocked?
    ensures DecodePrefix(data).Err? ==> r == Respond(streamId, Err(Wrap(DecodePrefix(data).error)))
  {
    match DecodePrefix(data)
    case Err(e) => Respond(streamId, Err(Wrap(e)))
    case Ok(p) =>
      var fields := DecodeFields(t, data[p.consumed..], p.largestRef, p.base, huffman);
      Respond(streamId, BlockVerdict(fields, t, maxAllowed, maxListSize))
  }

  /** A block the encoder built from a prefix and valid field lines, against
      a table within its limit and a list within the size limit, decodes to
      exactly the headers of those lines. */
  lemma BlockRoundTrip(t: Table, largestRef: nat, base: int, lines: seq<FieldLine>, streamId: int,
                       maxAllowed: nat, maxListSize: nat, huffman: HuffmanDecoder)
    requires forall i :: 0 <= i < |lines| ==> LineValid(t, largestRef, base, lines[i])
    requires 0 <= streamId < 0x4000_0000_0000_0000
    requires t.maxSize <= maxAllowed && HeaderListSize(LineHeaders(t, largestRef, base, lines)) <= maxListSize
    ensures forall i :: 0 <= i < |lines| ==> LineEncodable(base, lines[i])
    ensures var data := EncodePrefix(largestRef, base) + EncodeLines(base, lines);
      && DecodePrefix(data).Ok? && DecodePrefix(data).value.largestRef == largestRef
      && DecodeBlock(t, data, streamId, maxAllowed, maxListSize, huffman)
         == Ok(Decoded(EncodeQuicInt(streamId).value, LineHeaders(t, largestRef, base, lines)))
  {
    FieldsRoundTrip(t, largestRef, base, lines, huffman);
    var e := EncodePrefix(largestRef, base);
    var body := EncodeLines(base, lines);
    PrefixRoundTrip(largestRef, base, body);
    assert (e + body)[|e|..] == body;
  }

  /** The running size grows by exactly the entry size of each header. */
  lemma HeaderListSizeAppend(seen: seq<Header>, h: Header)
    ensures HeaderListSize(seen + [h]) == HeaderListSize(seen) + EntrySize(h.name, h.value)
  {
    assert (seen + [h])[..|seen|] == seen;
  }

  /** The decode loop's bookkeeping after the headers in seen: the headers
      are dropped exactly when their total size passes the limit, and while
      they are kept, the list and the running total are theirs. */
  ghost predicate Accounted(seen: seq<Header>, headers: Option<seq<Header>>, inflatedSize: nat,
                            discardHeaders: bool, maxListSize: nat)
  {
    && (discardHeaders <==> HeaderListSize(seen) > maxListSize)
    && (discardHeaders <==> headers.None?)
    && (!discardHeaders ==> headers == Some(seen) && inflatedSize == HeaderListSize(seen))
  }

  /** The bookkeeping for one more decoded header (hpack/qpack.py:347-358). */
  method AccountHeader(headers: Option<seq<Header>>, inflatedSize: nat, discardHeaders: bool,
                       header: Header, maxListSize: nat, ghost seen: seq<Header>)
    returns (headers': Option<seq<Header>>, inflatedSize': nat, discardHeaders': bool)
    requires Accounted(seen, headers, inflatedSize, discardHeaders, maxListSize)
    ensures Accounted(seen + [header], headers', inflatedSize', discardHeaders', maxListSize)
  {
    HeaderListSizeAppend(seen, header);
    headers', inflatedSize', discardHeaders' := headers, inflatedSize, discardHeaders;
    if !discardHeaders {
      inflatedSize' := inflatedSize + EntrySize(header.name, header.value);
      if inflatedSize' > maxListSize {
        discardHeaders' := true;
        headers' := None;
      } else {
        headers' := Some(headers.value + [header]);
      }
    }
  }

  /** The decoded list so far followed by whatever the rest of the block
      decodes to. */
  function Prepend(seen: seq<Header>, rest: Result<seq<Header>>): (r: Result<seq<Header>>)
    ensures r.Ok? <==> rest.Ok?
    ensures r.Ok? ==> |seen| <= |r.value| && r.value[..|seen|] == seen && r.value[|seen|..] == rest.value
    ensures rest.Err? ==> r.error == rest.error
  {
    match rest
    case Ok(hs) => Ok(seen + hs)
    case Err(e) => Err(e)
  }

  /** One pass of the update loop, seen from the whole run: a failure
      ends the run with the table as it stands, and a success leaves the
      rest of the run to the rest of the buffer. */
  lemma RunAdvance(t: Table, data: seq<byte>, current: nat, maxAllowed: nat, huffman: HuffmanDecoder,
                   whole: (Table, Option<Error>), step: Result<(Table, nat)>)
    requires current < |data|
    requires Run(t, data[current..], maxAllowed, huffman) == whole
    requires step == Step(t, data[current..], maxAllowed, huffman)
    ensures step.Err? ==> whole == (t, Some(step.error))
    ensures step.Ok? ==> current + step.value.1 <= |data|
    ensures step.Ok? ==> Run(step.value.0, data[current + step.value.1..], maxAllowed, huffman) == whole
  {
    if step.Ok? {
      assert data[current..][step.value.1..] == data[current + step.value.1..];
    }
  }

  /** One pass of the decode loop, seen from the whole block: a failure
      is the block's failure, and a decoded header moves from the rest of
      the block to the list decoded so far. */
  lemma FieldsAdvance(t: Table, data: seq<byte>, current: nat, largestRef: int, base: int,
                      huffman: HuffmanDecoder, seen: seq<Header>, whole: Result<seq<Header>>,
                      step: Result<(Header, nat)>)
    requires current < |data|
    requires Prepend(seen, DecodeFields(t, data[current..], largestRef, base, huffman)) == whole
    requires step == DecodeRepresentation(t, data[current..], largestRef, base, huffman)
    ensures step.Err? ==> whole == Err(step.error)
    ensures step.Ok? ==> current + step.value.1 <= |data|
    ensures step.Ok? ==> Prepend(seen + [step.value.0],
                                 DecodeFields(t, data[current + step.value.1..], largestRef, base, huffman)) == whole
  {
    FieldsAdvanceAt(t, data[current..], largestRef, base, huffman, seen, whole, step);
    if step.Ok? {
      assert data[current..][step.value.1..] == data[current + step.value.1..];
    }
  }

  /** FieldsAdvance on the unread part of the block. */
  lemma FieldsAdvanceAt(t: Table, rest: seq<byte>, largestRef: int, base: int,
                      huffman: HuffmanDecoder, seen: seq<Header>, whole: Result<seq<Header>>,
                      step: Result<(Header, nat)>)
    requires |rest| > 0
    requires Prepend(seen, DecodeFields(t, rest, largestRef, base, huffman)) == whole
    requires step == DecodeRepresentation(t, rest, largestRef, base, huffman)
    ensures step.Err? ==> whole == Err(step.error)
    ensures step.Ok? ==> step.value.1 <= |rest|
    ensures step.Ok? ==> Prepend(seen + [step.value.0],
                                 DecodeFields(t, rest[step.value.1..], largestRef, base, huffman)) == whole
  {
    DecodeFieldsStep(t, rest, largestRef, base, huffman, step);
    if step.Ok? {
      PrependOne(seen, step.value.0, DecodeFields(t, rest[step.value.1..], largestRef, base, huffman), whole);
    }
  }

  /** Moving one decoded header from the rest of the block to the list
      decoded so far leaves the whole unchanged. */
  lemma PrependOne(seen: seq<Header>, h: Header, more: Result<seq<Header>>, whole: Result<seq<Header>>)
    requires Prepend(seen, if more.Ok? then Ok([h] + more.value) else Err(more.error)) == whole
    ensures Prepend(seen + [h], more) == whole
  {
    if more.Ok? {
      assert seen + ([h] + more.value) == (seen + [h]) + more.value;
    }
  }

  /** The instruction loop of update (hpack/qpack.py:281-300): each
      instruction is classified by its first byte and run where the previous
      one ended, until the buffer is used up or an instruction fails. */
  method RunInstructions(t0: Table, data: seq<byte>, maxAllowed: nat, huffman: HuffmanDecoder)
    returns (t: Table, failure: Option<Error>)
    ensures (t, failure) == Run(t0, data, maxAllowed, huffman)
  {
    ghost var whole := Run(t0, data, maxAllowed, huffman);
    t := t0;
    var current := 0;
    while current < |data|
      invariant 0 <= current <= |data|
      invariant Run(t, data[current..], maxAllowed, huffman) == whole
      decreases |data| - current
    {
      var step := Step(t, data[current..], maxAllowed, huffman);
      RunAdvance(t, data, current, maxAllowed, huffman, whole, step);
      if step.Err? {
        return t, Some(step.error);
      }
      assert Run(step.value.0, data[current + step.value.1..], maxAllowed, huffman) == whole;
      t := step.value.0;
      current := current + step.value.1;
    }
    return t, None;
  }

  /** The field-line loop of decode (hpack/qpack.py:318-358): each
      representation is decoded where the previous one ended and its entry
      size added to the running total; once the total passes
      max_header_list_size the headers are dropped (None). A failing
      representation ends the loop with its error. */
  method DecodeFieldLines(t: Table, data: seq<byte>, start: nat, largestRef: nat, base: int,
                          huffman: HuffmanDecoder, maxListSize: nat)
    returns (r: Result<Option<seq<Header>>>)
    requires start <= |data|
    ensures var fields := DecodeFields(t, data[start..], largestRef, base, huffman);
      && (fields.Err? ==> r == Err(fields.error))
      && (fields.Ok? ==> r.Ok? && (r.value.Some? <==> HeaderListSize(fields.value) <= maxListSize))
      && (fields.Ok? && r.Ok? && r.value.Some? ==> r.value.value == fields.value)
  {
    ghost var whole := DecodeFields(t, data[start..], largestRef, base, huffman);
    var headers: Option<seq<Header>> := Some([]);
    var inflatedSize := 0;
    var discardHeaders := false;
    ghost var seen: seq<Header> := [];
    var current := start;
    // A header tuple is never empty, so the source's `if not header`
    // branch cannot be taken and is not modelled.
    while current < |data|
      invariant start <= current <= |data|
      invariant Prepend(seen, DecodeFields(t, data[current..], largestRef, base, huffman)) == whole
      invariant Accounted(seen, headers, inflatedSize, discardHeaders, maxListSize)
      decreases |data| - current
    {
      var step := DecodeRepresentation(t, data[current..], largestRef, base, huffman);
      FieldsAdvance(t, data, current, largestRef, base, huffman, seen, whole, step);
      if step.Err? {
        return Err(step.error);
      }
      headers, inflatedSize, discardHeaders :=
        AccountHeader(headers, inflatedSize, discardHeaders, step.value.0, maxListSize, seen);
      assert Prepend(seen + [step.value.0],
                     DecodeFields(t, data[current + step.value.1..], largestRef, base, huffman)) == whole;
      seen := seen + [step.value.0];
      current := current + step.value.1;
    }
    assert whole == Ok(seen) by {
      assert seen + [] == seen;
    }
    return Ok(headers);
  }

  class Decoder {
    var table: Table
    var maxHeaderListSize: nat
    var maxAllowedTableSize: nat
    const blockingStreams: LinkedList
    const huffman: HuffmanDecoder

    /** The blocked streams form a well-linked list sorted by the reference
        each one waits for. */
    ghost predicate Valid()
      reads blockingStreams, blockingStreams.nodes
    {
      blockingStreams.Valid() && Sorted(blockingStreams.contents)
    }

    /** __init__ (hpack/qpack.py:233-259): an empty dynamic table whose
        size is also the largest size allowed, and no blocked stream. */
    constructor (maxHeaderListSize: nat, staticEntries: seq<Entry>, tableSize: nat, huffman: HuffmanDecoder)
      ensures Valid() && fresh(blockingStreams)
      ensures table == Table(staticEntries, [], tableSize) && maxAllowedTableSize == tableSize
      ensures this.maxHeaderListSize == maxHeaderListSize && this.huffman == huffman
      ensures blockingStreams.contents == []
    {
      table := Table(staticEntries, [], tableSize);
      this.maxHeaderListSize := maxHeaderListSize;
      maxAllowedTableSize := tableSize;
      this.huffman := huffman;
      blockingStreams := new LinkedList();
    }

    /** The header_table_size setter (hpack/qpack.py:269-271). */
    method SetHeaderTableSize(value: nat)
      modifies this
      ensures table == old(table).Resize(value)
      ensures maxAllowedTableSize == old(maxAllowedTableSize) && maxHeaderListSize == old(maxHeaderListSize)
    {
      table := table.Resize(value);
    }

    /** _assert_valid_table_size (hpack/qpack.py:376-384). */
    method AssertValidTableSize() returns (r: Option<Error>)
      ensures r.Some? <==> table.maxSize > maxAllowedTableSize
      ensures r.Some? ==> r.value == InvalidTableSizeError && IsStreamError(r.value)
    {
      if table.maxSize > maxAllowedTableSize {
        return Some(InvalidTableSizeError);
      }
      return None;
    }

    /** _check_blocking (hpack/qpack.py:402-408): a block referring past
        the newest entry blocks its stream, which joins the queue at its
        place in reference order. */
    method CheckBlocking(streamId: int, largestRef: nat) returns (blocked: bool)
      requires Valid()
      modifies blockingStreams, blockingStreams.nodes
      ensures Valid()
      ensures blocked <==> largestRef > table.LargestRef()
      ensures blocked ==>
        blockingStreams.contents == InsertAt(old(blockingStreams.contents),
          InsertPosition(old(blockingStreams.contents), largestRef), (streamId, largestRef))
      ensures !blocked ==> blockingStreams.contents == old(blockingStreams.contents)
    {
      if largestRef > table.LargestRef() {
        InsertKeepsSorted(blockingStreams.contents, (streamId, largestRef));
        blockingStreams.Insert(streamId, largestRef);
        return true;
      }
      return false;
    }

    /** _resume_streams (hpack/qpack.py:409-410): the ids of exactly the
        queued streams whose reference the table now holds, in queue order;
        the others stay queued. */
    method ResumeStreams() returns (streamIds: seq<int>)
      requires Valid()
      modifies blockingStreams
      ensures Valid()
      ensures var n := PrefixLen(old(blockingStreams.contents), table.LargestRef());
        && streamIds == Keys(old(blockingStreams.contents)[..n])
        && blockingStreams.contents == old(blockingStreams.contents)[n..]
      ensures forall i :: 0 <= i < |old(blockingStreams.contents)| ==>
        (i < |streamIds| <==> old(blockingStreams.contents)[i].1 <= table.LargestRef())
    {
      PopManySplitsSorted(blockingStreams.contents, table.LargestRef());
      var popped := blockingStreams.PopMany(table.LargestRef());
      streamIds := Keys(popped);
    }

    /** update (hpack/qpack.py:275-306): run the encoder-stream instructions
        one after another. A failure leaves the instructions before it
        applied; otherwise the table must fit the allowed size, and the
        answer is the acknowledgement of stream 0 with the streams that can
        now resume. */
    method Update(data: seq<byte>) returns (r: Result<(seq<byte>, seq<int>)>)
      requires Valid()
      modifies this, blockingStreams
      ensures Valid()
      ensures maxAllowedTableSize == old(maxAllowedTableSize) && maxHeaderListSize == old(maxHeaderListSize)
      ensures table == Run(old(table), data, maxAllowedTableSize, huffman).0
      ensures Run(old(table), data, maxAllowedTableSize, huffman).1.Some? ==>
        && r == Err(Wrap(Run(old(table), data, maxAllowedTableSize, huffman).1.value))
        && blockingStreams.contents == old(blockingStreams.contents)
      ensures Run(old(table), data, maxAllowedTableSize, huffman).1.None? && table.maxSize > maxAllowedTableSize ==>
        r == Err(InvalidTableSizeError) && blockingStreams.contents == old(blockingStreams.contents)
      ensures r.Err? ==> IsStreamError(r.error)
      ensures r.Ok? <==>
        Run(old(table), data, maxAllowedTableSize, huffman).1.None? && table.maxSize <= maxAllowedTableSize
      ensures r.Ok? ==>
        && r.value.0 == [0]
        && var n := PrefixLen(old(blockingStreams.contents), table.LargestRef());
           r.value.1 == Keys(old(blockingStreams.contents)[..n])
           && blockingStreams.contents == old(blockingStreams.contents)[n..]
    {
      var t, failure := RunInstructions(table, data, maxAllowedTableSize, huffman);
      table := t;
      if failure.Some? {
        return Err(Wrap(failure.value));
      }
      var invalid := AssertValidTableSize();
      if invalid.Some? {
        return Err(invalid.value);
      }
      OneByteCaseOverwritten();
      var ack := EncodeQuicInt(0);
      var resumed := ResumeStreams();
      r := Ok((ack.value, resumed));
    }

    /** decode (hpack/qpack.py:308-374): read the block prefix, block the
        stream if the block refers past the newest entry, and otherwise
        decode every field line, keeping the running list size; past
        max_header_list_size the headers are dropped and the block ends in
        an overflow error. Every answer but a block carries the stream's
        acknowledgement. */
    method Decode(data: seq<byte>, streamId: int) returns (r: Result<BlockOutcome>)
      requires Valid()
      modifies blockingStreams, blockingStreams.nodes
      ensures Valid()
      ensures DecodePrefix(data).Err? ==>
        && r == Respond(streamId, Err(Wrap(DecodePrefix(data).error)))
        && blockingStreams.contents == old(blockingStreams.contents)
      ensures DecodePrefix(data).Ok? && DecodePrefix(data).value.largestRef > table.LargestRef() ==>
        var lr := DecodePrefix(data).value.largestRef;
        && r == Ok(Blocked)
        && blockingStreams.contents
           == InsertAt(old(blockingStreams.contents), InsertPosition(old(blockingStreams.contents), lr), (streamId, lr))
      ensures DecodePrefix(data).Ok? && DecodePrefix(data).value.largestRef <= table.LargestRef() ==>
        && r == DecodeBlock(table, data, streamId, maxAllowedTableSize, maxHeaderListSize, huffman)
        && blockingStreams.contents == old(blockingStreams.contents)
    {
      var prefix := DecodePrefix(data);
      if prefix.Err? {
        return Respond(streamId, Err(Wrap(prefix.error)));
      }
      var largestRef, base, start := prefix.value.largestRef, prefix.value.base, prefix.value.consumed;
      var blocked := CheckBlocking(streamId, largestRef);
      if blocked {
        return Ok(Blocked);
      }
      var lines := DecodeFieldLines(table, data, start, largestRef, base, huffman, maxHeaderListSize);
      var verdict: Result<seq<Header>>;
      if lines.Err? {
        verdict := Err(Wrap(lines.error));
      } else {
        var invalid := AssertValidTableSize();
        if invalid.Some? {
          verdict := Err(invalid.value);
        } else if lines.value.None? {
          verdict := Err(OverflowError);
        } else {
          verdict := Ok(lines.value.value);
        }
      }
      r := Respond(streamId, verdict);
    }
  }
}

/** The encoder-stream instructions that Decoder.update applies to the header
    table (hpack/qpack.py:283-299 and 447-475), one function per
    instruction, each with the encoder the draft defines for it as its
    reference, and the recursive run of a whole update buffer that the
    decoder's loop follows. */
module EncoderStream {
  import opened Errors
  import opened Bytes
  import opened PrefixInt
  import opened Primitives
  import opened HeaderTable

  datatype Instruction = InsertWithNameRef | InsertWithoutNameRef | TableSizeUpdate | Duplicate

  /** The dispatch on the first byte: 1xxxxxxx insert with name reference,
      01xxxxxx insert without, 001xxxxx table size update, 000xxxxx
      duplicate, stated by the range of first bytes each pattern matches
      (ClassifyInstructionIsMaskDispatch). The four patterns cover every
      byte, so the "Invalid instruction" branch cannot be taken. */
  function ClassifyInstruction(b: byte): (r: Result<Instruction>)
    ensures r.Ok?
    ensures r.value == InsertWithNameRef <==> 0x80 <= b
    ensures r.value == InsertWithoutNameRef <==> 0x40 <= b < 0x80
    ensures r.value == TableSizeUpdate <==> 0x20 <= b < 0x40
    ensures r.value == Duplicate <==> b < 0x20
  {
    if b >= 0x80 then Ok(InsertWithNameRef)
    else if b >= 0x40 then Ok(InsertWithoutNameRef)
    else if b >= 0x20 then Ok(TableSizeUpdate)
    else Ok(Duplicate)
  }

  /** The ranges above are the source's mask tests, in its order. */
  lemma ClassifyInstructionIsMaskDispatch(b: byte)
    ensures ClassifyInstruction(b) ==
      if Masked(b, 0x80) == 0x80 then Ok(InsertWithNameRef)
      else if Masked(b, 0xC0) == 0x40 then Ok(InsertWithoutNameRef)
      else if Masked(b, 0xE0) == 0x20 then Ok(TableSizeUpdate)
      else if Masked(b, 0xE0) == 0x00 then Ok(Duplicate)
      else Err(QpackDecodingError(InvalidInstruction))
  {
    InstructionMasks(b);
  }

  /** What each mask test of the dispatch says about the first byte. */
  lemma InstructionMasks(b: byte)
    ensures Masked(b, 0x80) == 0x80 <==> 0x80 <= b
    ensures Masked(b, 0xC0) == 0x40 <==> 0x40 <= b < 0x80
    ensures Masked(b, 0xE0) == 0x20 <==> 0x20 <= b < 0x40
    ensures Masked(b, 0xE0) == 0x00 <==> b < 0x20
  {
  }

  /** _insert_name_ref (hpack/qpack.py:447-454): a 7-bit-prefix index whose
      dynamic form is relative to largest_ref, then an 8-bit-prefix value
      literal; the referenced entry's name and the value are appended. */
  function InsertNameRef(t: Table, data: seq<byte>, huffman: HuffmanDecoder): (r: Result<(Table, nat)>)
    ensures r.Ok? ==> 1 <= r.value.1 <= |data|
    ensures r.Ok? ==> Extends(t, r.value.0) && r.value.0.LargestRef() == t.LargestRef() + 1
    ensures r.Ok? ==> r.value.0.maxSize == t.maxSize
    ensures var ref := DecodeIndex(data, 7, t.LargestRef(), t.LargestRef());
      ref.Err? ==> r == Err(ref.error)
    ensures var ref := DecodeIndex(data, 7, t.LargestRef(), t.LargestRef());
      ref.Ok? && t.GetByIndex(ref.value.index, ref.value.isStatic).Err? ==>
        r == Err(HpackDecodingError(InvalidTableIndex))
    ensures var ref := DecodeIndex(data, 7, t.LargestRef(), t.LargestRef());
      ref.Ok? && t.GetByIndex(ref.value.index, ref.value.isStatic).Ok? ==>
        var value := DecodeLiteral(data[ref.value.consumed..], 8, huffman);
        (value.Err? ==> r == Err(value.error)) &&
        (value.Ok? ==> r == Ok((t.Add(t.GetByIndex(ref.value.index, ref.value.isStatic).value.name, value.value.value),
                               ref.value.consumed + value.value.consumed)))
  {
    var ref :- DecodeIndex(data, 7, t.LargestRef(), t.LargestRef());
    var entry :- t.GetByIndex(ref.index, ref.isStatic);
    var value :- DecodeLiteral(data[ref.consumed..], 8, huffman);
    Ok((t.Add(entry.name, value.value), ref.consumed + value.consumed))
  }

  /** _insert_wo_name_ref (hpack/qpack.py:456-461): a name literal with a
      6-bit prefix (Huffman flag 0x20), then a value literal with an 8-bit
      prefix; the pair is appended. */
  function InsertWithoutNameRefOp(t: Table, data: seq<byte>, huffman: HuffmanDecoder): (r: Result<(Table, nat)>)
    ensures r.Ok? ==> 1 <= r.value.1 <= |data|
    ensures r.Ok? ==> Extends(t, r.value.0) && r.value.0.LargestRef() == t.LargestRef() + 1
    ensures r.Ok? ==> r.value.0.maxSize == t.maxSize
    ensures var name := DecodeLiteral(data, 6, huffman);
      name.Err? ==> r == Err(name.error)
    ensures var name := DecodeLiteral(data, 6, huffman);
      name.Ok? ==>
        var value := DecodeLiteral(data[name.value.consumed..], 8, huffman);
        (value.Err? ==> r == Err(value.error)) &&
        (value.Ok? ==> r == Ok((t.Add(name.value.value, value.value.value), name.value.consumed + value.value.consumed)))
  {
    var name :- DecodeLiteral(data, 6, huffman);
    var value :- DecodeLiteral(data[name.consumed..], 8, huffman);
    Ok((t.Add(name.value, value.value), name.consumed + value.consumed))
  }

  /** _insert_dup (hpack/qpack.py:462-467): a 5-bit-prefix index relative
      to largest_ref; that dynamic entry is appended again. An integer
      error passes through, and an index outside the dynamic table is
      InvalidTableIndex. */
  function InsertDuplicate(t: Table, data: seq<byte>): (r: Result<(Table, nat)>)
    ensures r.Ok? ==> 1 <= r.value.1 <= |data|
    ensures r.Ok? ==> Extends(t, r.value.0) && r.value.0.LargestRef() == t.LargestRef() + 1
    ensures r.Ok? ==> r.value.0.maxSize == t.maxSize
    ensures r.Ok? && DecodeInteger(data, 5).Ok? ==>
      r.value.0.GetByIndex(r.value.0.LargestRef(), false)
      == t.GetByIndex(t.LargestRef() - DecodeInteger(data, 5).value.0, false)
    ensures DecodeInteger(data, 5).Err? ==> r == Err(DecodeInteger(data, 5).error)
    ensures DecodeInteger(data, 5).Ok? ==>
      (r.Ok? <==> t.GetByIndex(t.LargestRef() - DecodeInteger(data, 5).value.0, false).Ok?)
    ensures DecodeInteger(data, 5).Ok? && r.Err? ==> r == Err(HpackDecodingError(InvalidTableIndex))
    ensures r.Ok? ==> DecodeInteger(data, 5).Ok? && r.value.1 == DecodeInteger(data, 5).value.1
  {
    var (relative, consumed) :- DecodeInteger(data, 5);
    var entry :- t.GetByIndex(t.LargestRef() - relative, false);
    Ok((t.Add(entry.name, entry.value), consumed))
  }

  /** _dynamic_table_size_update (hpack/qpack.py:468-475): a 5-bit-prefix
      size; above max_allowed_table_size it is refused, otherwise it becomes
      the table's maxsize. */
  function SizeUpdate(t: Table, data: seq<byte>, maxAllowed: nat): (r: Result<(Table, nat)>)
    ensures r.Ok? ==> 1 <= r.value.1 <= |data|
    ensures r.Ok? ==> r.value.0.entries == t.entries && r.value.0.staticEntries == t.staticEntries
    ensures r.Ok? ==> r.value.0.maxSize <= maxAllowed
    ensures DecodeInteger(data, 5).Ok? ==>
      (DecodeInteger(data, 5).value.0 > maxAllowed <==> r == Err(InvalidTableSizeError))
    ensures DecodeInteger(data, 5).Ok? && r.Ok? ==> r.value.0.maxSize == DecodeInteger(data, 5).value.0
  {
    var (size, consumed) :- DecodeInteger(data, 5);
    if size > maxAllowed then Err(InvalidTableSizeError)
    else Ok((t.Resize(size), consumed))
  }

  /** One pass of the update loop: classify the first byte, run the
      instruction. */
  function Step(t: Table, data: seq<byte>, maxAllowed: nat, huffman: HuffmanDecoder): (r: Result<(Table, nat)>)
    requires |data| > 0
    ensures r.Ok? ==> 1 <= r.value.1 <= |data|
    ensures r.Ok? ==> Extends(t, r.value.0)
    ensures r.Ok? ==> r.value.0.maxSize == t.maxSize || r.value.0.maxSize <= maxAllowed
    ensures r.Ok? && !(0x20 <= data[0] < 0x40) ==>
      r.value.0.LargestRef() == t.LargestRef() + 1 && r.value.0.maxSize == t.maxSize
    ensures r.Ok? && 0x20 <= data[0] < 0x40 ==> r.value.0.entries == t.entries
  {
    match ClassifyInstruction(data[0]).value
    case InsertWithNameRef => InsertNameRef(t, data, huffman)
    case InsertWithoutNameRef => InsertWithoutNameRefOp(t, data, huffman)
    case TableSizeUpdate => SizeUpdate(t, data, maxAllowed)
    case Duplicate => InsertDuplicate(t, data)
  }

  /** The update loop over a whole buffer: instructions run one after the
      other, each starting where the previous one ended, until the buffer is
      used up or one fails. The table keeps every instruction applied before
      a failure. */
  function Run(t: Table, data: seq<byte>, maxAllowed: nat, huffman: HuffmanDecoder): (r: (Table, Option<Error>))
    ensures Extends(t, r.0)
    ensures r.0.maxSize == t.maxSize || r.0.maxSize <= maxAllowed
    decreases |data|
  {
    if |data| == 0 then (t, None)
    else match Step(t, data, maxAllowed, huffman)
      case Err(e) => (t, Some(e))
      case Ok((t', consumed)) =>
        var r := Run(t', data[consumed..], maxAllowed, huffman);
        ExtendsTransitive(t, t', r.0);
        r
  }

  // ---------------------------------------------------------------------
  // The encoder side of each instruction, and the round trips

  /** Insert with name reference: 1, static flag, 6-bit index (relative to
      largest_ref when dynamic), then the value as a plain literal. */
  function EncodeInsertNameRef(ref: nat, isStatic: bool, largestRef: nat, value: seq<byte>): (r: seq<byte>)
    requires !isStatic ==> ref <= largestRef
    ensures |r| >= 1 && 0x80 <= r[0]
  {
    assert Pow2(7) == 128 && Pow2(8) == 256 && Pow2(6) == 64;
    var e := EncodeIndex(ref, isStatic, largestRef, 7, 0x80);
    assert e[0] - e[0] % 64 >= 0x80 by {
      assert e[0] - e[0] % Pow2(6) == 0x80 + (if isStatic then Pow2(6) else 0);
    }
    e + EncodeLiteral(value, 8, 0, false)
  }

  function EncodeInsertWithoutNameRef(name: seq<byte>, value: seq<byte>): (r: seq<byte>)
    ensures |r| >= 1 && 0x40 <= r[0] < 0x80
  {
    assert Pow2(6) == 64 && Pow2(5) == 32 && Pow2(8) == 256;
    var e := EncodeLiteral(name, 6, 0x40, false);
    assert e[0] - e[0] % 32 == 0x40;
    e + EncodeLiteral(value, 8, 0, false)
  }

  function EncodeDuplicate(relative: nat): (r: seq<byte>)
    ensures |r| >= 1 && r[0] < 0x20
  {
    assert Pow2(5) == 32;
    EncodeInteger(relative, 5, 0)
  }

  function EncodeSizeUpdate(size: nat): (r: seq<byte>)
    ensures |r| >= 1 && 0x20 <= r[0] < 0x40
  {
    assert Pow2(5) == 32;
    EncodeInteger(size, 5, 0x20)
  }

  /** A run whose first instruction succeeds continues after it. */
  lemma RunOneStep(t: Table, d: seq<byte>, maxAllowed: nat, huffman: HuffmanDecoder, t2: Table, c: nat)
    requires |d| > 0 && Step(t, d, maxAllowed, huffman) == Ok((t2, c))
    ensures Run(t, d, maxAllowed, huffman) == Run(t2, d[c..], maxAllowed, huffman)
  {
  }

  /** An encoded insert with name reference appends the referenced entry's
      name with the sent value, whatever follows it. */
  lemma InsertNameRefRoundTrip(t: Table, ref: nat, isStatic: bool, value: seq<byte>,
                               maxAllowed: nat, huffman: HuffmanDecoder, rest: seq<byte>)
    requires t.GetByIndex(ref, isStatic).Ok?
    ensures var e := EncodeInsertNameRef(ref, isStatic, t.LargestRef(), value);
      Run(t, e + rest, maxAllowed, huffman)
      == Run(t.Add(t.GetByIndex(ref, isStatic).value.name, value), rest, maxAllowed, huffman)
  {
    var e := EncodeInsertNameRef(ref, isStatic, t.LargestRef(), value);
    var t2 := t.Add(t.GetByIndex(ref, isStatic).value.name, value);
    InsertNameRefDecodes(t, ref, isStatic, value, huffman, rest);
    assert (e + rest)[0] == e[0];
    assert Step(t, e + rest, maxAllowed, huffman) == Ok((t2, |e|));
    RunOneStep(t, e + rest, maxAllowed, huffman, t2, |e|);
    AppendDrop(e, rest);
  }

  lemma InsertNameRefDecodes(t: Table, ref: nat, isStatic: bool, value: seq<byte>,
                             huffman: HuffmanDecoder, rest: seq<byte>)
    requires t.GetByIndex(ref, isStatic).Ok?
    ensures var e := EncodeInsertNameRef(ref, isStatic, t.LargestRef(), value);
      InsertNameRef(t, e + rest, huffman) == Ok((t.Add(t.GetByIndex(ref, isStatic).value.name, value), |e|))
  {
    var lr := t.LargestRef();
    var e := EncodeInsertNameRef(ref, isStatic, lr, value);
    var c := InsertNameRefPieces(ref, isStatic, lr, value, huffman, rest);
    InsertNameRefFromParts(t, e + rest, huffman, IndexRef(ref, isStatic, c), Literal(value, |e| - c));
  }

  /** The reference and the value literal of an encoded insert. */
  lemma InsertNameRefPieces(ref: nat, isStatic: bool, lr: nat, value: seq<byte>,
                            huffman: HuffmanDecoder, rest: seq<byte>) returns (c: nat)
    requires !isStatic ==> ref <= lr
    ensures var e := EncodeInsertNameRef(ref, isStatic, lr, value);
      && c <= |e|
      && DecodeIndex(e + rest, 7, lr, lr) == Ok(IndexRef(ref, isStatic, c))
      && DecodeLiteral((e + rest)[c..], 8, huffman) == Ok(Literal(value, |e| - c))
  {
    assert Pow2(7) == 128 && Pow2(8) == 256;
    var a := EncodeIndex(ref, isStatic, lr, 7, 0x80);
    var b := EncodeLiteral(value, 8, 0, false);
    var e := EncodeInsertNameRef(ref, isStatic, lr, value);
    assert e == a + b;
    AppendAssoc(a, b, rest);
    IndexRoundTrip(ref, isStatic, lr, lr, 7, 0x80, b + rest);
    AppendDrop(a, b + rest);
    LiteralRoundTrip(value, 8, 0, false, huffman, rest);
    c := |a|;
  }

  /** InsertNameRef put together from its reference and its literal. */
  lemma InsertNameRefFromParts(t: Table, d: seq<byte>, huffman: HuffmanDecoder, r: IndexRef, lit: Literal)
    requires DecodeIndex(d, 7, t.LargestRef(), t.LargestRef()) == Ok(r)
    requires t.GetByIndex(r.index, r.isStatic).Ok?
    requires DecodeLiteral(d[r.consumed..], 8, huffman) == Ok(lit)
    ensures InsertNameRef(t, d, huffman)
            == Ok((t.Add(t.GetByIndex(r.index, r.isStatic).value.name, lit.value), r.consumed + lit.consumed))
  {
  }

  lemma InsertWithoutNameRefRoundTrip(t: Table, name: seq<byte>, value: seq<byte>,
                                      maxAllowed: nat, huffman: HuffmanDecoder, rest: seq<byte>)
    ensures Run(t, EncodeInsertWithoutNameRef(name, value) + rest, maxAllowed, huffman)
            == Run(t.Add(name, value), rest, maxAllowed, huffman)
  {
    var e := EncodeInsertWithoutNameRef(name, value);
    InsertWithoutNameRefDecodes(t, name, value, huffman, rest);
    assert (e + rest)[0] == e[0];
    assert Step(t, e + rest, maxAllowed, huffman) == Ok((t.Add(name, value), |e|));
    RunOneStep(t, e + rest, maxAllowed, huffman, t.Add(name, value), |e|);
    AppendDrop(e, rest);
  }

  lemma InsertWithoutNameRefDecodes(t: Table, name: seq<byte>, value: seq<byte>,
                                    huffman: HuffmanDecoder, rest: seq<byte>)
    ensures var e := EncodeInsertWithoutNameRef(name, value);
      InsertWithoutNameRefOp(t, e + rest, huffman) == Ok((t.Add(name, value), |e|))
  {
    assert Pow2(6) == 64 && Pow2(8) == 256;
    var a := EncodeLiteral(name, 6, 0x40, false);
    var b := EncodeLiteral(value, 8, 0, false);
    var e := EncodeInsertWithoutNameRef(name, value);
    assert e == a + b;
    AppendAssoc(a, b, rest);
    LiteralRoundTrip(name, 6, 0x40, false, huffman, b + rest);
    AppendDrop(a, b + rest);
    LiteralRoundTrip(value, 8, 0, false, huffman, rest);
  }

  /** Duplicating the entry `relative` places before the newest appends a
      copy of it. */
  lemma DuplicateRoundTrip(t: Table, relative: nat, maxAllowed: nat, huffman: HuffmanDecoder, rest: seq<byte>)
    requires relative < t.LargestRef()
    ensures var entry := t.GetByIndex(t.LargestRef() - relative, false).value;
      Run(t, EncodeDuplicate(relative) + rest, maxAllowed, huffman)
      == Run(t.Add(entry.name, entry.value), rest, maxAllowed, huffman)
  {
    assert Pow2(5) == 32;
    var e := EncodeDuplicate(relative);
    var entry := t.GetByIndex(t.LargestRef() - relative, false).value;
    IntegerRoundTripAt(e + rest, relative, 5, 0, rest);
    assert InsertDuplicate(t, e + rest) == Ok((t.Add(entry.name, entry.value), |e|));
    assert (e + rest)[0] == e[0];
    assert Step(t, e + rest, maxAllowed, huffman) == Ok((t.Add(entry.name, entry.value), |e|));
    RunOneStep(t, e + rest, maxAllowed, huffman, t.Add(entry.name, entry.value), |e|);
    AppendDrop(e, rest);
  }

  /** A size update within the allowed maximum becomes the table's maxsize;
      one above it stops the run with InvalidTableSizeError. */
  lemma SizeUpdateRoundTrip(t: Table, size: nat, maxAllowed: nat, huffman: HuffmanDecoder, rest: seq<byte>)
    ensures size <= maxAllowed ==>
      Run(t, EncodeSizeUpdate(size) + rest, maxAllowed, huffman) == Run(t.Resize(size), rest, maxAllowed, huffman)
    ensures size > maxAllowed ==>
      Run(t, EncodeSizeUpdate(size) + rest, maxAllowed, huffman) == (t, Some(InvalidTableSizeError))
  {
    assert Pow2(5) == 32;
    var e := EncodeSizeUpdate(size);
    IntegerRoundTripAt(e + rest, size, 5, 0x20, rest);
    AppendDrop(e, rest);
  }
}

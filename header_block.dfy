/** The header-block representations that Decoder.decode reads
    (hpack/qpack.py:324-345 and 411-445): the dispatch on the first byte,
    one function per representation, the whole sequence of field lines, and
    the encoder of each representation as its reference. */
module HeaderBlock {
  import opened Errors
  import opened Bytes
  import opened PrefixInt
  import opened Primitives
  import opened HeaderTable
  import opened Struct

  datatype Representation =
    | Indexed                  // 1 S index(6+)
    | LiteralNameRef           // 0 0 N S index(4+), then a value literal
    | LiteralWithoutNameRef    // 0 1 1 N H name-length(3+), then a value literal
    | LiteralPostBaseNameRef   // 0 1 0 1 N index(3+), then a value literal
    | IndexedPostBase          // 0 1 0 0 index(4+)

  /** The dispatch as written (hpack/qpack.py:329-345). The third test
      compares the top three bits with 0x30, which has a bit outside the
      mask, so a literal without name reference is never recognised and
      its first bytes, 0x60 to 0x7f, fall to "Invalid instruction". */
  function ClassifyRepresentationAsWritten(b: byte): (r: Result<Representation>)
    ensures r.Ok? ==> r.value != LiteralWithoutNameRef
    ensures r.Err? <==> 0x60 <= b < 0x80
  {
    FirstByteMasks(b);
    if Masked(b, 0x80) == 0x80 then Ok(Indexed)
    else if Masked(b, 0xC0) == 0x00 then Ok(LiteralNameRef)
    else if Masked(b, 0xE0) == 0x30 then Ok(LiteralWithoutNameRef)
    else if Masked(b, 0xF0) == 0x50 then Ok(LiteralPostBaseNameRef)
    else if Masked(b, 0xF0) == 0x40 then Ok(IndexedPostBase)
    else Err(QpackDecodingError(InvalidInstruction))
  }

  /** The dispatch with the evidently intended 0x60 pattern, stated by the
      ranges of first bytes it gives each representation
      (ClassifyIsMaskDispatch): the five patterns cover every byte, each
      exactly once. */
  function ClassifyRepresentation(b: byte): (r: Result<Representation>)
    ensures r.Ok?
    ensures r.value == Indexed <==> 0x80 <= b
    ensures r.value == LiteralNameRef <==> b < 0x40
    ensures r.value == IndexedPostBase <==> 0x40 <= b < 0x50
    ensures r.value == LiteralPostBaseNameRef <==> 0x50 <= b < 0x60
    ensures r.value == LiteralWithoutNameRef <==> 0x60 <= b < 0x80
  {
    if b >= 0x80 then Ok(Indexed)
    else if b < 0x40 then Ok(LiteralNameRef)
    else if b >= 0x60 then Ok(LiteralWithoutNameRef)
    else if b >= 0x50 then Ok(LiteralPostBaseNameRef)
    else Ok(IndexedPostBase)
  }

  /** The ranges above are the mask tests of the source with the 0x60
      pattern, in the source's order. */
  lemma ClassifyIsMaskDispatch(b: byte)
    ensures ClassifyRepresentation(b) ==
      if Masked(b, 0x80) == 0x80 then Ok(Indexed)
      else if Masked(b, 0xC0) == 0x00 then Ok(LiteralNameRef)
      else if Masked(b, 0xE0) == 0x60 then Ok(LiteralWithoutNameRef)
      else if Masked(b, 0xF0) == 0x50 then Ok(LiteralPostBaseNameRef)
      else if Masked(b, 0xF0) == 0x40 then Ok(IndexedPostBase)
      else Err(QpackDecodingError(InvalidInstruction))
  {
    FirstByteMasks(b);
  }

  /** What each mask test of the dispatch says about the first byte. */
  lemma FirstByteMasks(b: byte)
    ensures Masked(b, 0x80) == 0x80 <==> 0x80 <= b
    ensures Masked(b, 0xC0) == 0x00 <==> b < 0x40
    ensures Masked(b, 0xE0) == 0x60 <==> 0x60 <= b < 0x80
    ensures Masked(b, 0xF0) == 0x50 <==> 0x50 <= b < 0x60
    ensures Masked(b, 0xF0) == 0x40 <==> 0x40 <= b < 0x50
    ensures Masked(b, 0xE0) != 0x30
  {
  }

  /** The two dispatches differ on exactly the first bytes of a literal
      without name reference. */
  lemma ClassifiersDiffer(b: byte)
    ensures ClassifyRepresentationAsWritten(b) != ClassifyRepresentation(b) <==> 0x60 <= b < 0x80
    ensures ClassifyRepresentationAsWritten(0x70) == Err(QpackDecodingError(InvalidInstruction))
    ensures ClassifyRepresentation(0x70) == Ok(LiteralWithoutNameRef)
  {
    FirstByteMasks(b);
    FirstByteMasks(0x70);
  }

  /** _decode_indexed (hpack/qpack.py:411-417): a 4-bit post-base index or
      a 7-bit-prefix index with its static flag; the entry is the header. */
  function DecodeIndexed(t: Table, data: seq<byte>, largestRef: int, base: int, postBase: bool): (r: Result<(Header, nat)>)
    ensures r.Ok? ==> 1 <= r.value.1 <= |data|
    ensures r.Ok? ==> r.value.0.HeaderTuple?
    ensures r.Ok? ==> Entry(r.value.0.name, r.value.0.value) in t.staticEntries + t.entries
  {
    var ref :- if postBase then DecodeIndexPost(data, 4, largestRef, base) else DecodeIndex(data, 7, largestRef, base);
    var entry :- t.GetByIndex(ref.index, ref.isStatic);
    Ok((HeaderTuple(entry.name, entry.value), ref.consumed))
  }

  /** _decode_literal_name_ref (hpack/qpack.py:431-445): the never-index
      flag is 0x08 after a post-base pattern and 0x20 otherwise; the name
      comes from the referenced entry, the value from an 8-bit-prefix
      literal. */
  function DecodeLiteralNameRef(t: Table, data: seq<byte>, largestRef: int, base: int, postBase: bool,
                                huffman: HuffmanDecoder): (r: Result<(Header, nat)>)
    requires |data| > 0
    ensures r.Ok? ==> 1 <= r.value.1 <= |data|
    ensures r.Ok? ==> (r.value.0.NeverIndexedHeaderTuple? <==> FlagBit(data[0], if postBase then 0x08 else 0x20))
    ensures r.Ok? ==> exists e :: e in t.staticEntries + t.entries && e.name == r.value.0.name
  {
    var never := FlagBit(data[0], if postBase then 0x08 else 0x20);
    var ref :- if postBase then DecodeIndexPost(data, 3, largestRef, base) else DecodeIndex(data, 5, largestRef, base);
    var entry :- t.GetByIndex(ref.index, ref.isStatic);
    var value :- DecodeLiteral(data[ref.consumed..], 8, huffman);
    var header := if never then NeverIndexedHeaderTuple(entry.name, value.value)
                  else HeaderTuple(entry.name, value.value);
    Ok((header, ref.consumed + value.consumed))
  }

  /** _decode_literal_wo_name_ref (hpack/qpack.py:419-428): never-index flag
      0x10, a name literal with a 4-bit prefix, then a value literal. */
  function DecodeLiteralWithoutNameRef(data: seq<byte>, huffman: HuffmanDecoder): (r: Result<(Header, nat)>)
    requires |data| > 0
    ensures r.Ok? ==> 1 <= r.value.1 <= |data|
    ensures r.Ok? ==> (r.value.0.NeverIndexedHeaderTuple? <==> FlagBit(data[0], 0x10))
  {
    var never := FlagBit(data[0], 0x10);
    var name :- DecodeLiteral(data, 4, huffman);
    var value :- DecodeLiteral(data[name.consumed..], 8, huffman);
    var header := if never then NeverIndexedHeaderTuple(name.value, value.value)
                  else HeaderTuple(name.value, value.value);
    Ok((header, name.consumed + value.consumed))
  }

  /** One pass of the decode loop (hpack/qpack.py:329-346): classify the
      first byte, decode that representation. Only the three literal
      patterns can yield a never-indexed header, each through its own flag
      bit; the two indexed patterns yield an entry of the table. */
  function DecodeRepresentation(t: Table, data: seq<byte>, largestRef: int, base: int,
                                huffman: HuffmanDecoder): (r: Result<(Header, nat)>)
    requires |data| > 0
    ensures r.Ok? ==> 1 <= r.value.1 <= |data|
    ensures r.Ok? ==> (r.value.0.NeverIndexedHeaderTuple? <==>
      || (data[0] < 0x40 && FlagBit(data[0], 0x20))
      || (0x50 <= data[0] < 0x60 && FlagBit(data[0], 0x08))
      || (0x60 <= data[0] < 0x80 && FlagBit(data[0], 0x10)))
    ensures r.Ok? && (0x80 <= data[0] || 0x40 <= data[0] < 0x50) ==>
      Entry(r.value.0.name, r.value.0.value) in t.staticEntries + t.entries
  {
    match ClassifyRepresentation(data[0]).value
    case Indexed => DecodeIndexed(t, data, largestRef, base, false)
    case LiteralNameRef => DecodeLiteralNameRef(t, data, largestRef, base, false, huffman)
    case LiteralWithoutNameRef => DecodeLiteralWithoutNameRef(data, huffman)
    case LiteralPostBaseNameRef => DecodeLiteralNameRef(t, data, largestRef, base, true, huffman)
    case IndexedPostBase => DecodeIndexed(t, data, largestRef, base, true)
  }

  /** Every field line of a block, in order; the first failure stops it.
      Each line takes at least one byte, so a non-empty block has at least
      one header and never more headers than bytes. */
  function DecodeFields(t: Table, data: seq<byte>, largestRef: int, base: int,
                        huffman: HuffmanDecoder): (r: Result<seq<Header>>)
    ensures |data| == 0 ==> r == Ok([])
    ensures r.Ok? ==> |r.value| <= |data|
    ensures r.Ok? && |data| > 0 ==> |r.value| > 0
    decreases |data|
  {
    if |data| == 0 then Ok([])
    else
      var (header, consumed) :- DecodeRepresentation(t, data, largestRef, base, huffman);
      var rest :- DecodeFields(t, data[consumed..], largestRef, base, huffman);
      Ok([header] + rest)
  }

  /** One step of DecodeFields: the first representation, then the rest. */
  lemma DecodeFieldsStep(t: Table, data: seq<byte>, largestRef: int, base: int, huffman: HuffmanDecoder,
                         step: Result<(Header, nat)>)
    requires |data| > 0 && step == DecodeRepresentation(t, data, largestRef, base, huffman)
    ensures step.Err? ==> DecodeFields(t, data, largestRef, base, huffman) == Err(step.error)
    ensures step.Ok? ==> step.value.1 <= |data|
    ensures step.Ok? ==>
      var more := DecodeFields(t, data[step.value.1..], largestRef, base, huffman);
      DecodeFields(t, data, largestRef, base, huffman)
      == if more.Ok? then Ok([step.value.0] + more.value) else Err(more.error)
  {
  }

  /** The sum of table_entry_size over a header list, as the decode loop
      accumulates it. */
  function HeaderListSize(hs: seq<Header>): (r: nat)
    ensures r >= 32 * |hs|
  {
    if |hs| == 0 then 0
    else HeaderListSize(hs[..|hs| - 1]) + EntrySize(hs[|hs| - 1].name, hs[|hs| - 1].value)
  }

  /** Adding a header never makes the running size smaller. */
  lemma {:induction false} HeaderListSizeMonotone(hs: seq<Header>, more: seq<Header>)
    ensures HeaderListSize(hs) <= HeaderListSize(hs + more)
    decreases |more|
  {
    if |more| > 0 {
      var longer := hs + more;
      assert longer[..|longer| - 1] == hs + more[..|more| - 1];
      HeaderListSizeMonotone(hs, more[..|more| - 1]);
    } else {
      assert hs + more == hs;
    }
  }

  // ---------------------------------------------------------------------
  // The encoder side: one field line per representation

  datatype FieldLine =
    | IndexedLine(ref: nat, isStatic: bool)
    | IndexedPostBaseLine(ref: nat)
    | NameRefLine(ref: nat, isStatic: bool, never: bool, value: seq<byte>)
    | PostBaseNameRefLine(ref: nat, never: bool, value: seq<byte>)
    | LiteralLine(never: bool, name: seq<byte>, value: seq<byte>)

  /** A line the encoder may send against this table and block prefix: a
      dynamic reference names an entry at or below largest_ref, at or below
      base for the relative form and above it for the post-base form. */
  ghost predicate LineValid(t: Table, largestRef: int, base: int, line: FieldLine)
  {
    match line
    case IndexedLine(ref, isStatic) =>
      t.GetByIndex(ref, isStatic).Ok? && (!isStatic ==> ref <= base && ref <= largestRef)
    case IndexedPostBaseLine(ref) =>
      t.GetByIndex(ref, false).Ok? && base < ref <= largestRef
    case NameRefLine(ref, isStatic, _, _) =>
      t.GetByIndex(ref, isStatic).Ok? && (!isStatic ==> ref <= base && ref <= largestRef)
    case PostBaseNameRefLine(ref, _, _) =>
      t.GetByIndex(ref, false).Ok? && base < ref <= largestRef
    case LiteralLine(_, _, _) => true
  }

  /** A line's dynamic reference is expressible relative to base. */
  predicate LineEncodable(base: int, line: FieldLine)
  {
    match line
    case IndexedLine(ref, isStatic) => !isStatic ==> ref <= base
    case IndexedPostBaseLine(ref) => base < ref
    case NameRefLine(ref, isStatic, _, _) => !isStatic ==> ref <= base
    case PostBaseNameRefLine(ref, _, _) => base < ref
    case LiteralLine(_, _, _) => true
  }

  /** The header a valid line stands for. */
  function LineHeader(t: Table, largestRef: int, base: int, line: FieldLine): Header
    requires LineValid(t, largestRef, base, line)
  {
    match line
    case IndexedLine(ref, isStatic) =>
      var e := t.GetByIndex(ref, isStatic).value; HeaderTuple(e.name, e.value)
    case IndexedPostBaseLine(ref) =>
      var e := t.GetByIndex(ref, false).value; HeaderTuple(e.name, e.value)
    case NameRefLine(ref, isStatic, never, value) =>
      var e := t.GetByIndex(ref, isStatic).value;
      if never then NeverIndexedHeaderTuple(e.name, value) else HeaderTuple(e.name, value)
    case PostBaseNameRefLine(ref, never, value) =>
      var e := t.GetByIndex(ref, false).value;
      if never then NeverIndexedHeaderTuple(e.name, value) else HeaderTuple(e.name, value)
    case LiteralLine(never, name, value) =>
      if never then NeverIndexedHeaderTuple(name, value) else HeaderTuple(name, value)
  }

  function EncodeLine(base: int, line: FieldLine): (r: seq<byte>)
    requires LineEncodable(base, line)
  {
    assert Pow2(3) == 8 && Pow2(4) == 16 && Pow2(5) == 32 && Pow2(6) == 64 && Pow2(7) == 128 && Pow2(8) == 256;
    match line
    case IndexedLine(ref, isStatic) => EncodeIndex(ref, isStatic, base, 7, 0x80)
    case IndexedPostBaseLine(ref) => EncodeInteger(ref - base - 1, 4, 0x40)
    case NameRefLine(ref, isStatic, never, value) =>
      EncodeIndex(ref, isStatic, base, 5, if never then 0x20 else 0) + EncodeLiteral(value, 8, 0, false)
    case PostBaseNameRefLine(ref, never, value) =>
      EncodeInteger(ref - base - 1, 3, if never then 0x58 else 0x50) + EncodeLiteral(value, 8, 0, false)
    case LiteralLine(never, name, value) =>
      EncodeLiteral(name, 4, if never then 0x70 else 0x60, false) + EncodeLiteral(value, 8, 0, false)
  }

  lemma IndexedLineRoundTrip(t: Table, largestRef: int, base: int, ref: nat, isStatic: bool,
                             huffman: HuffmanDecoder, rest: seq<byte>)
    requires LineValid(t, largestRef, base, IndexedLine(ref, isStatic))
    ensures var line := IndexedLine(ref, isStatic);
      var e := EncodeLine(base, line);
      DecodeRepresentation(t, e + rest, largestRef, base, huffman) == Ok((LineHeader(t, largestRef, base, line), |e|))
  {
    assert Pow2(6) == 64 && Pow2(7) == 128;
    var e := EncodeIndex(ref, isStatic, base, 7, 0x80);
    IndexFirstByte(ref, isStatic, base, 7, 0x80);
    IndexRoundTrip(ref, isStatic, largestRef, base, 7, 0x80, rest);
    assert (e + rest)[0] == e[0];
  }

  lemma IndexedPostBaseLineRoundTrip(t: Table, largestRef: int, base: int, ref: nat,
                                     huffman: HuffmanDecoder, rest: seq<byte>)
    requires LineValid(t, largestRef, base, IndexedPostBaseLine(ref))
    ensures var line := IndexedPostBaseLine(ref);
      var e := EncodeLine(base, line);
      DecodeRepresentation(t, e + rest, largestRef, base, huffman) == Ok((LineHeader(t, largestRef, base, line), |e|))
  {
    assert Pow2(4) == 16;
    var e := EncodeInteger(ref - base - 1, 4, 0x40);
    IndexPostRoundTrip(ref, largestRef, base, 4, 0x40, rest);
    assert (e + rest)[0] == e[0];
  }

  lemma NameRefLineRoundTrip(t: Table, largestRef: int, base: int, ref: nat, isStatic: bool, never: bool,
                             value: seq<byte>, huffman: HuffmanDecoder, rest: seq<byte>)
    requires LineValid(t, largestRef, base, NameRefLine(ref, isStatic, never, value))
    ensures var line := NameRefLine(ref, isStatic, never, value);
      var e := EncodeLine(base, line);
      DecodeRepresentation(t, e + rest, largestRef, base, huffman) == Ok((LineHeader(t, largestRef, base, line), |e|))
  {
    var e := EncodeLine(base, NameRefLine(ref, isStatic, never, value));
    var c1 := NameRefLinePieces(largestRef, base, ref, isStatic, never, value, huffman, rest);
    NameRefLineFromParts(t, e + rest, largestRef, base, huffman, NameRefLine(ref, isStatic, never, value), c1, |e| - c1);
  }

  /** The parts of an encoded line with a name reference. */
  lemma NameRefLinePieces(largestRef: int, base: int, ref: nat, isStatic: bool, never: bool,
                          value: seq<byte>, huffman: HuffmanDecoder, rest: seq<byte>) returns (c1: nat)
    requires !isStatic ==> ref <= base && ref <= largestRef
    ensures LineEncodable(base, NameRefLine(ref, isStatic, never, value))
    ensures var e := EncodeLine(base, NameRefLine(ref, isStatic, never, value));
      && c1 <= |e| && (e + rest)[0] < 0x40
      && FlagBit((e + rest)[0], 0x20) == never
      && DecodeIndex(e + rest, 5, largestRef, base) == Ok(IndexRef(ref, isStatic, c1))
      && DecodeLiteral((e + rest)[c1..], 8, huffman) == Ok(Literal(value, |e| - c1))
  {
    assert Pow2(4) == 16 && Pow2(5) == 32 && Pow2(6) == 64 && Pow2(8) == 256;
    var pattern: byte := if never then 0x20 else 0;
    var a := EncodeIndex(ref, isStatic, base, 5, pattern);
    var b := EncodeLiteral(value, 8, 0, false);
    var e := EncodeLine(base, NameRefLine(ref, isStatic, never, value));
    assert e == a + b;
    AppendAssoc(a, b, rest);
    IndexFirstByte(ref, isStatic, base, 5, pattern);
    IndexRoundTrip(ref, isStatic, largestRef, base, 5, pattern, b + rest);
    FlagOfFirstByte(0, never, a[0] - pattern, 5);
    assert (a + (b + rest))[0] == a[0];
    AppendDrop(a, b + rest);
    LiteralRoundTrip(value, 8, 0, false, huffman, rest);
    c1 := |a|;
  }

  lemma PostBaseNameRefLineRoundTrip(t: Table, largestRef: int, base: int, ref: nat, never: bool,
                                     value: seq<byte>, huffman: HuffmanDecoder, rest: seq<byte>)
    requires LineValid(t, largestRef, base, PostBaseNameRefLine(ref, never, value))
    ensures var line := PostBaseNameRefLine(ref, never, value);
      var e := EncodeLine(base, line);
      DecodeRepresentation(t, e + rest, largestRef, base, huffman) == Ok((LineHeader(t, largestRef, base, line), |e|))
  {
    var e := EncodeLine(base, PostBaseNameRefLine(ref, never, value));
    var c1 := PostBaseNameRefLinePieces(largestRef, base, ref, never, value, huffman, rest);
    PostBaseNameRefLineFromParts(t, e + rest, largestRef, base, huffman, PostBaseNameRefLine(ref, never, value), c1, |e| - c1);
  }

  /** The parts of an encoded line with a post-base name reference. */
  lemma PostBaseNameRefLinePieces(largestRef: int, base: int, ref: nat, never: bool,
                                  value: seq<byte>, huffman: HuffmanDecoder, rest: seq<byte>) returns (c1: nat)
    requires base < ref <= largestRef
    ensures LineEncodable(base, PostBaseNameRefLine(ref, never, value))
    ensures var e := EncodeLine(base, PostBaseNameRefLine(ref, never, value));
      && c1 <= |e|
      && 0x50 <= (e + rest)[0] < 0x60
      && FlagBit((e + rest)[0], 0x08) == never
      && DecodeIndexPost(e + rest, 3, largestRef, base) == Ok(IndexRef(ref, false, c1))
      && DecodeLiteral((e + rest)[c1..], 8, huffman) == Ok(Literal(value, |e| - c1))
  {
    assert Pow2(3) == 8 && Pow2(4) == 16 && Pow2(8) == 256;
    var high: byte := if never then 0x58 else 0x50;
    var a := EncodeInteger(ref - base - 1, 3, high);
    var b := EncodeLiteral(value, 8, 0, false);
    var e := EncodeLine(base, PostBaseNameRefLine(ref, never, value));
    assert e == a + b;
    AppendAssoc(a, b, rest);
    PostBaseNameRefHead(largestRef, base, ref, never, b + rest);
    AppendDrop(a, b + rest);
    LiteralRoundTrip(value, 8, 0, false, huffman, rest);
    c1 := |a|;
  }

  /** A first byte below 0x40 whose reference and value decode: the
      representation is the name-reference line they make up. */
  lemma NameRefLineFromParts(t: Table, d: seq<byte>, largestRef: int, base: int, huffman: HuffmanDecoder,
                             line: FieldLine, c1: nat, c2: nat)
    requires line.NameRefLine? && LineValid(t, largestRef, base, line)
    requires |d| > 0 && c1 <= |d| && d[0] < 0x40 && FlagBit(d[0], 0x20) == line.never
    requires DecodeIndex(d, 5, largestRef, base) == Ok(IndexRef(line.ref, line.isStatic, c1))
    requires DecodeLiteral(d[c1..], 8, huffman) == Ok(Literal(line.value, c2))
    ensures DecodeRepresentation(t, d, largestRef, base, huffman) == Ok((LineHeader(t, largestRef, base, line), c1 + c2))
  {
    NameRefDecodes(t, d, largestRef, base, false, huffman, line.ref, line.isStatic, c1, line.never, line.value, c2);
  }

  /** The same for a post-base name reference, first bytes 0x50 to 0x5f. */
  lemma PostBaseNameRefLineFromParts(t: Table, d: seq<byte>, largestRef: int, base: int, huffman: HuffmanDecoder,
                                     line: FieldLine, c1: nat, c2: nat)
    requires line.PostBaseNameRefLine? && LineValid(t, largestRef, base, line)
    requires |d| > 0 && c1 <= |d| && 0x50 <= d[0] < 0x60
    requires FlagBit(d[0], 0x08) == line.never
    requires DecodeIndexPost(d, 3, largestRef, base) == Ok(IndexRef(line.ref, false, c1))
    requires DecodeLiteral(d[c1..], 8, huffman) == Ok(Literal(line.value, c2))
    ensures DecodeRepresentation(t, d, largestRef, base, huffman) == Ok((LineHeader(t, largestRef, base, line), c1 + c2))
  {
    NameRefDecodes(t, d, largestRef, base, true, huffman, line.ref, false, c1, line.never, line.value, c2);
  }

  /** _decode_literal_name_ref on input whose parts are known to decode. */
  lemma NameRefDecodes(t: Table, d: seq<byte>, largestRef: int, base: int, postBase: bool, huffman: HuffmanDecoder,
                       ref: int, isStatic: bool, c1: nat, never: bool, value: seq<byte>, c2: nat)
    requires |d| > 0 && c1 <= |d|
    requires FlagBit(d[0], if postBase then 0x08 else 0x20) == never
    requires (if postBase then DecodeIndexPost(d, 3, largestRef, base) else DecodeIndex(d, 5, largestRef, base))
             == Ok(IndexRef(ref, isStatic, c1))
    requires t.GetByIndex(ref, isStatic).Ok?
    requires DecodeLiteral(d[c1..], 8, huffman) == Ok(Literal(value, c2))
    ensures var e := t.GetByIndex(ref, isStatic).value;
      DecodeLiteralNameRef(t, d, largestRef, base, postBase, huffman)
      == Ok((if never then NeverIndexedHeaderTuple(e.name, value) else HeaderTuple(e.name, value), c1 + c2))
  {
  }

  /** The first byte and the reference of an encoded post-base name
      reference. */
  lemma PostBaseNameRefHead(largestRef: int, base: int, ref: nat, never: bool, rest: seq<byte>)
    requires base < ref <= largestRef
    ensures Pow2(3) == 8 && Pow2(4) == 16
    ensures var a := EncodeInteger(ref - base - 1, 3, if never then 0x58 else 0x50);
      && 0x50 <= (a + rest)[0] < 0x60
      && FlagBit((a + rest)[0], 0x08) == never
      && DecodeIndexPost(a + rest, 3, largestRef, base) == Ok(IndexRef(ref, false, |a|))
  {
    assert Pow2(3) == 8 && Pow2(4) == 16;
    var high: byte := if never then 0x58 else 0x50;
    var a := EncodeInteger(ref - base - 1, 3, high);
    IndexPostRoundTrip(ref, largestRef, base, 3, high, rest);
    FlagOfFirstByte(0x50, never, a[0] % 8, 3);
    assert (a + rest)[0] == a[0];
  }

  lemma LiteralLineRoundTrip(t: Table, largestRef: int, base: int, never: bool, name: seq<byte>,
                             value: seq<byte>, huffman: HuffmanDecoder, rest: seq<byte>)
    ensures var line := LiteralLine(never, name, value);
      var e := EncodeLine(base, line);
      DecodeRepresentation(t, e + rest, largestRef, base, huffman) == Ok((LineHeader(t, largestRef, base, line), |e|))
  {
    var e := EncodeLine(base, LiteralLine(never, name, value));
    var c1 := LiteralLinePieces(base, never, name, value, huffman, rest);
    LiteralLineFromParts(t, e + rest, largestRef, base, huffman, LiteralLine(never, name, value), c1, |e|);
  }

  /** The parts of an encoded line without name reference. */
  lemma LiteralLinePieces(base: int, never: bool, name: seq<byte>, value: seq<byte>,
                          huffman: HuffmanDecoder, rest: seq<byte>) returns (c1: nat)
    ensures var e := EncodeLine(base, LiteralLine(never, name, value));
      && c1 <= |e|
      && 0x60 <= (e + rest)[0] < 0x80
      && FlagBit((e + rest)[0], 0x10) == never
      && DecodeLiteral(e + rest, 4, huffman) == Ok(Literal(name, c1))
      && DecodeLiteral((e + rest)[c1..], 8, huffman) == Ok(Literal(value, |e| - c1))
  {
    assert Pow2(3) == 8 && Pow2(4) == 16 && Pow2(8) == 256;
    var pattern: byte := if never then 0x70 else 0x60;
    var a := EncodeLiteral(name, 4, pattern, false);
    var b := EncodeLiteral(value, 8, 0, false);
    var e := EncodeLine(base, LiteralLine(never, name, value));
    assert e == a + b;
    AppendAssoc(a, b, rest);
    LiteralLineHead(never, name, huffman, b + rest);
    AppendDrop(a, b + rest);
    LiteralRoundTrip(value, 8, 0, false, huffman, rest);
    c1 := |a|;
  }

  /** A literal without name reference whose name and value decode. */
  lemma LiteralLineFromParts(t: Table, d: seq<byte>, largestRef: int, base: int, huffman: HuffmanDecoder,
                             line: FieldLine, c1: nat, c: nat)
    requires line.LiteralLine?
    requires |d| > 0 && c1 <= c && c1 <= |d| && 0x60 <= d[0] < 0x80
    requires FlagBit(d[0], 0x10) == line.never
    requires DecodeLiteral(d, 4, huffman) == Ok(Literal(line.name, c1))
    requires DecodeLiteral(d[c1..], 8, huffman) == Ok(Literal(line.value, c - c1))
    ensures DecodeRepresentation(t, d, largestRef, base, huffman) == Ok((LineHeader(t, largestRef, base, line), c))
  {
  }

  /** The first byte and the name of an encoded literal without name
      reference. */
  lemma LiteralLineHead(never: bool, name: seq<byte>, huffman: HuffmanDecoder, rest: seq<byte>)
    ensures Pow2(4) == 16 && Pow2(5) == 32
    ensures var a := EncodeLiteral(name, 4, if never then 0x70 else 0x60, false);
      && 0x60 <= (a + rest)[0] < 0x80
      && FlagBit((a + rest)[0], 0x10) == never
      && DecodeLiteral(a + rest, 4, huffman) == Ok(Literal(name, |a|))
  {
    assert Pow2(3) == 8 && Pow2(4) == 16 && Pow2(5) == 32;
    var pattern: byte := if never then 0x70 else 0x60;
    var a := EncodeLiteral(name, 4, pattern, false);
    LiteralFirstByte(name, 4, pattern, false);
    LiteralRoundTrip(name, 4, pattern, false, huffman, rest);
    FlagOfFirstByte(0x60, never, a[0] % 8, 4);
    assert (a + rest)[0] == a[0];
  }

  /** Every valid line decodes to the header it stands for and consumes
      exactly its encoding, whatever follows it. */
  lemma LineRoundTrip(t: Table, largestRef: int, base: int, line: FieldLine,
                      huffman: HuffmanDecoder, rest: seq<byte>)
    requires LineValid(t, largestRef, base, line)
    ensures LineEncodable(base, line)
    ensures var e := EncodeLine(base, line);
      DecodeRepresentation(t, e + rest, largestRef, base, huffman) == Ok((LineHeader(t, largestRef, base, line), |e|))
  {
    match line
    case IndexedLine(ref, isStatic) =>
      IndexedLineRoundTrip(t, largestRef, base, ref, isStatic, huffman, rest);
    case IndexedPostBaseLine(ref) =>
      IndexedPostBaseLineRoundTrip(t, largestRef, base, ref, huffman, rest);
    case NameRefLine(ref, isStatic, never, value) =>
      NameRefLineRoundTrip(t, largestRef, base, ref, isStatic, never, value, huffman, rest);
    case PostBaseNameRefLine(ref, never, value) =>
      PostBaseNameRefLineRoundTrip(t, largestRef, base, ref, never, value, huffman, rest);
    case LiteralLine(never, name, value) =>
      LiteralLineRoundTrip(t, largestRef, base, never, name, value, huffman, rest);
  }

  /** A block's field lines, one after the other. */
  function EncodeLines(base: int, lines: seq<FieldLine>): seq<byte>
    requires forall i :: 0 <= i < |lines| ==> LineEncodable(base, lines[i])
  {
    if |lines| == 0 then [] else EncodeLine(base, lines[0]) + EncodeLines(base, lines[1..])
  }

  function LineHeaders(t: Table, largestRef: int, base: int, lines: seq<FieldLine>): (r: seq<Header>)
    requires forall i :: 0 <= i < |lines| ==> LineValid(t, largestRef, base, lines[i])
    ensures |r| == |lines|
  {
    if |lines| == 0 then [] else [LineHeader(t, largestRef, base, lines[0])] + LineHeaders(t, largestRef, base, lines[1..])
  }

  /** An encoded sequence of valid lines decodes to their headers, in order. */
  lemma {:induction false} FieldsRoundTrip(t: Table, largestRef: int, base: int, lines: seq<FieldLine>,
                                           huffman: HuffmanDecoder)
    requires forall i :: 0 <= i < |lines| ==> LineValid(t, largestRef, base, lines[i])
    ensures forall i :: 0 <= i < |lines| ==> LineEncodable(base, lines[i])
    ensures DecodeFields(t, EncodeLines(base, lines), largestRef, base, huffman)
            == Ok(LineHeaders(t, largestRef, base, lines))
    decreases |lines|
  {
    forall i | 0 <= i < |lines|
      ensures LineEncodable(base, lines[i])
    {
      LineRoundTrip(t, largestRef, base, lines[i], huffman, []);
    }
    if |lines| > 0 {
      var e := EncodeLine(base, lines[0]);
      var more := EncodeLines(base, lines[1..]);
      LineRoundTrip(t, largestRef, base, lines[0], huffman, more);
      FieldsRoundTrip(t, largestRef, base, lines[1..], huffman);
      assert (e + more)[|e|..] == more;
    }
  }
}

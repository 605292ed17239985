/** The stateless parsing helpers of hpack/qpack.py: string literals
    (decode_literal), table references relative to a base (decode_index,
    decode_index_post) and the header-block prefix (Decoder._decode_prefix,
    which reads no decoder state). Each comes with the encoder the draft
    defines for it, as its reference, and a round-trip lemma. */
module Primitives {
  import opened Errors
  import opened Bytes
  import opened PrefixInt

  /** hpack's decode_huffman (hpack/huffman_table.py, not part of this
      model): a partial function from a Huffman-coded payload to the bytes it
      stands for. The decoder takes it as a parameter. */
  type HuffmanDecoder = seq<byte> -> Option<seq<byte>>

  /** The bit of weight w of a byte: the test `b & w` that the decoder
      applies to the first byte of an instruction, for w a power of two
      (FlagBitIsMask). */
  predicate FlagBit(b: byte, w: nat)
    requires w > 0
  {
    (b / w) % 2 == 1
  }

  lemma FlagBitIsMask(b: byte, j: nat)
    requires j <= 7
    ensures Pow2(j) < 256
    ensures FlagBit(b, Pow2(j)) <==> Masked(b, Pow2(j)) != 0
  {
    MaskedBit(b, j);
  }

  /** The flag bit of a first byte built as `pattern + flag + low`, where
      `pattern` holds the bits above the flag and `low` the integer prefix. */
  lemma FlagOfFirstByte(pattern: nat, flag: bool, low: nat, j: nat)
    requires j <= 7 && pattern % Pow2(j + 1) == 0 && low < Pow2(j)
    requires pattern + Pow2(j + 1) <= 256
    ensures pattern + (if flag then Pow2(j) else 0) + low < 256
    ensures FlagBit(pattern + (if flag then Pow2(j) else 0) + low, Pow2(j)) == flag
  {
    Pow2Add(j, 1);
    assert Pow2(1) == 2;
    FlagDigit(pattern, flag, low, Pow2(j));
    Pow2Monotone(j + 1, 8);
    assert Pow2(8) == 256;
  }

  /** A first byte whose bits from j up are `pattern` plus the flag carries
      the flag in bit j. */
  lemma FlagFromHighBits(b: byte, pattern: nat, flag: bool, j: nat)
    requires j <= 7 && pattern % Pow2(j + 1) == 0 && pattern + Pow2(j + 1) <= 256
    requires b - b % Pow2(j) == pattern + if flag then Pow2(j) else 0
    ensures FlagBit(b, Pow2(j)) == flag
  {
    FlagOfFirstByte(pattern, flag, b % Pow2(j), j);
  }

  /** Below a multiple of 2p, the flag worth p is the digit of weight p. */
  lemma FlagDigit(pattern: nat, flag: bool, low: nat, p: nat)
    requires p > 0 && pattern % (2 * p) == 0 && low < p
    ensures ((pattern + (if flag then p else 0) + low) / p) % 2 == if flag then 1 else 0
    ensures (pattern + (if flag then p else 0) + low) % p == low
  {
    var k := pattern / (2 * p);
    var f := if flag then 1 else 0;
    assert pattern == k * (2 * p);
    assert pattern + (if flag then p else 0) + low == (2 * k + f) * p + low;
    ModOfMultiplePlus(2 * k + f, p, low);
  }

  // ---------------------------------------------------------------------
  // String literals

  datatype Literal = Literal(value: seq<byte>, consumed: nat)

  /** decode_literal(data, prefix) (hpack/qpack.py:477-486): the Huffman flag
      is bit prefix-1 of the first byte, the length a (prefix-1)-bit
      integer; fewer than `length` bytes after it is a truncated block;
      the payload is Huffman-decoded when the flag is set. */
  function DecodeLiteral(data: seq<byte>, prefix: nat, huffman: HuffmanDecoder): (r: Result<Literal>)
    requires 2 <= prefix <= 8
    ensures |data| == 0 ==> r.Err?
    ensures r.Ok? ==> 1 <= r.value.consumed <= |data|
    ensures |data| > 0 && DecodeInteger(data, prefix - 1).Err? ==>
      r == Err(DecodeInteger(data, prefix - 1).error)
    ensures |data| > 0 && DecodeInteger(data, prefix - 1).Ok? ==>
      var (length, start) := DecodeInteger(data, prefix - 1).value;
      (start + length > |data| <==> r == Err(QpackDecodingError(TruncatedLiteral)))
    ensures |data| > 0 && DecodeInteger(data, prefix - 1).Ok? && !FlagBit(data[0], Pow2(prefix - 1)) ==>
      var (length, start) := DecodeInteger(data, prefix - 1).value;
      start + length <= |data| ==> r == Ok(Literal(data[start..start + length], start + length))
    ensures |data| > 0 && DecodeInteger(data, prefix - 1).Ok? && FlagBit(data[0], Pow2(prefix - 1)) ==>
      var (length, start) := DecodeInteger(data, prefix - 1).value;
      start + length <= |data| ==>
        && (r.Ok? <==> huffman(data[start..start + length]).Some?)
        && (r.Ok? ==> r.value == Literal(huffman(data[start..start + length]).value, start + length))
  {
    if |data| == 0 then Err(IndexError)
    else
      var huff := FlagBit(data[0], Pow2(prefix - 1));
      match DecodeInteger(data, prefix - 1)
      case Err(e) => Err(e)
      case Ok((length, start)) =>
        if |data| - start < length then Err(QpackDecodingError(TruncatedLiteral))
        else
          var value := data[start..start + length];
          if !huff then Ok(Literal(value, start + length))
          else match huffman(value)
            case None => Err(HpackDecodingError(InvalidHuffman))
            case Some(decoded) => Ok(Literal(decoded, start + length))
  }

  /** An integer with a (prefix-1)-bit prefix under a flag in bit
      prefix-1 and the instruction bits `pattern` above it: the shape shared
      by literal lengths and table references. */
  function FlaggedInteger(n: nat, prefix: nat, pattern: byte, flag: bool): (r: seq<byte>)
    requires 2 <= prefix <= 8 && pattern % Pow2(prefix) == 0 && pattern + Pow2(prefix) <= 256
    ensures |r| >= 1
  {
    Pow2Add(prefix - 1, 1);
    assert Pow2(1) == 2;
    FlagHigh(pattern, flag, prefix - 1);
    EncodeInteger(n, prefix - 1, pattern + if flag then Pow2(prefix - 1) else 0)
  }

  lemma FlagHigh(pattern: nat, flag: bool, j: nat)
    requires j <= 7 && pattern % Pow2(j + 1) == 0 && pattern + Pow2(j + 1) <= 256
    ensures var high := pattern + if flag then Pow2(j) else 0;
      high < 256 && high % Pow2(j) == 0 && high + Pow2(j) <= 256
  {
    Pow2Add(j, 1);
    assert Pow2(1) == 2;
    FlagDigit(pattern, flag, 0, Pow2(j));
  }

  /** The bits of a flagged integer's first byte above its prefix. */
  lemma FlaggedFirstByte(n: nat, prefix: nat, pattern: byte, flag: bool)
    requires 2 <= prefix <= 8 && pattern % Pow2(prefix) == 0 && pattern + Pow2(prefix) <= 256
    ensures var e := FlaggedInteger(n, prefix, pattern, flag);
      e[0] - e[0] % Pow2(prefix - 1) == pattern + if flag then Pow2(prefix - 1) else 0
  {
    Pow2Add(prefix - 1, 1);
    assert Pow2(1) == 2;
    FlagHigh(pattern, flag, prefix - 1);
  }

  /** Reading a flagged integer back, whatever follows it: the integer, the
      bytes it takes, and the flag. */
  lemma FlaggedRoundTrip(n: nat, prefix: nat, pattern: byte, flag: bool, d: seq<byte>, rest: seq<byte>)
    requires 2 <= prefix <= 8 && pattern % Pow2(prefix) == 0 && pattern + Pow2(prefix) <= 256
    requires d == FlaggedInteger(n, prefix, pattern, flag) + rest
    ensures |d| > |rest|
    ensures DecodeInteger(d, prefix - 1) == Ok((n, |d| - |rest|))
    ensures FlagBit(d[0], Pow2(prefix - 1)) == flag
  {
    var j := prefix - 1;
    Pow2Add(j, 1);
    assert Pow2(1) == 2;
    var high := pattern + if flag then Pow2(j) else 0;
    FlagHigh(pattern, flag, j);
    var e := FlaggedInteger(n, prefix, pattern, flag);
    assert e == EncodeInteger(n, j, high);
    IntegerRoundTripAt(d, n, j, high, rest);
    assert d[0] == e[0];
    FlagFromHighBits(e[0], pattern, flag, j);
  }

  /** The literal encoder of the draft: flag, (prefix-1)-bit length, payload;
      `pattern` holds the instruction bits above the flag. */
  function EncodeLiteral(payload: seq<byte>, prefix: nat, pattern: byte, huffmanCoded: bool): (r: seq<byte>)
    requires 2 <= prefix <= 8 && pattern % Pow2(prefix) == 0 && pattern + Pow2(prefix) <= 256
  {
    FlaggedInteger(|payload|, prefix, pattern, huffmanCoded) + payload
  }

  /** The bits of an encoded literal's first byte above its length prefix. */
  lemma LiteralFirstByte(payload: seq<byte>, prefix: nat, pattern: byte, huffmanCoded: bool)
    requires 2 <= prefix <= 8 && pattern % Pow2(prefix) == 0 && pattern + Pow2(prefix) <= 256
    ensures var e := EncodeLiteral(payload, prefix, pattern, huffmanCoded);
      |e| > |payload| && e[0] - e[0] % Pow2(prefix - 1) == pattern + if huffmanCoded then Pow2(prefix - 1) else 0
  {
    FlaggedFirstByte(|payload|, prefix, pattern, huffmanCoded);
  }

  /** Decoding an encoded literal yields the payload (through the Huffman
      decoder when flagged) and consumes exactly the encoding. */
  lemma {:induction false} LiteralRoundTrip(payload: seq<byte>, prefix: nat, pattern: byte,
                                            huffmanCoded: bool, huffman: HuffmanDecoder, rest: seq<byte>)
    requires 2 <= prefix <= 8 && pattern % Pow2(prefix) == 0 && pattern + Pow2(prefix) <= 256
    requires huffmanCoded ==> huffman(payload).Some?
    ensures var e := EncodeLiteral(payload, prefix, pattern, huffmanCoded);
      DecodeLiteral(e + rest, prefix, huffman)
      == Ok(Literal(if huffmanCoded then huffman(payload).value else payload, |e|))
  {
    var e := EncodeLiteral(payload, prefix, pattern, huffmanCoded);
    var d := e + rest;
    LiteralHeader(payload, prefix, pattern, huffmanCoded, rest);
    assert d[|e| - |payload|..|e|] == payload;
  }

  /** The first byte and the length integer of an encoded literal. */
  lemma LiteralHeader(payload: seq<byte>, prefix: nat, pattern: byte, huffmanCoded: bool, rest: seq<byte>)
    requires 2 <= prefix <= 8 && pattern % Pow2(prefix) == 0 && pattern + Pow2(prefix) <= 256
    ensures var e := EncodeLiteral(payload, prefix, pattern, huffmanCoded);
      && |e| >= |payload| + 1
      && DecodeInteger(e + rest, prefix - 1) == Ok((|payload|, |e| - |payload|))
      && FlagBit((e + rest)[0], Pow2(prefix - 1)) == huffmanCoded
  {
    var f := FlaggedInteger(|payload|, prefix, pattern, huffmanCoded);
    var e := EncodeLiteral(payload, prefix, pattern, huffmanCoded);
    assert e == f + payload;
    AppendAssoc(f, payload, rest);
    FlaggedRoundTrip(|payload|, prefix, pattern, huffmanCoded, e + rest, payload + rest);
  }

  // ---------------------------------------------------------------------
  // Table references

  /** An index as the helpers return it: absolute for the dynamic table,
      as sent for the static one. */
  datatype IndexRef = IndexRef(index: int, isStatic: bool, consumed: nat)

  /** decode_index(data, prefix, largest_ref, base) (hpack/qpack.py:488-496):
      bit prefix-1 is the static flag and a (prefix-1)-bit integer follows;
      a dynamic reference is made absolute as base - relative and must not
      exceed largest_ref; a static one is returned unchanged. */
  function DecodeIndex(data: seq<byte>, prefix: nat, largestRef: int, base: int): (r: Result<IndexRef>)
    requires 2 <= prefix <= 8
    ensures |data| == 0 ==> r.Err?
    ensures |data| > 0 ==> match DecodeInteger(data, prefix - 1)
      case Err(e) => r == Err(e)
      case Ok((relative, consumed)) =>
        if FlagBit(data[0], Pow2(prefix - 1)) then r == Ok(IndexRef(relative, true, consumed))
        else if base - relative <= largestRef then r == Ok(IndexRef(base - relative, false, consumed))
        else r == Err(QpackDecodingError(RefBeyondLargest))
    ensures r.Ok? ==> 1 <= r.value.consumed <= |data|
    ensures r.Ok? && !r.value.isStatic ==> r.value.index <= largestRef
  {
    if |data| == 0 then Err(IndexError)
    else
      var isStatic := FlagBit(data[0], Pow2(prefix - 1));
      match DecodeInteger(data, prefix - 1)
      case Err(e) => Err(e)
      case Ok((index, consumed)) =>
        if isStatic then Ok(IndexRef(index, true, consumed))
        else
          var absolute := base - index;
          if absolute > largestRef then Err(QpackDecodingError(RefBeyondLargest))
          else Ok(IndexRef(absolute, false, consumed))
  }

  /** The reference encoder: a dynamic entry is sent as base - absolute. */
  function EncodeIndex(ref: nat, isStatic: bool, base: int, prefix: nat, pattern: byte): seq<byte>
    requires 2 <= prefix <= 8 && pattern % Pow2(prefix) == 0 && pattern + Pow2(prefix) <= 256
    requires !isStatic ==> ref <= base
  {
    FlaggedInteger(if isStatic then ref else base - ref, prefix, pattern, isStatic)
  }

  /** The bits of an encoded reference's first byte above its index prefix. */
  lemma IndexFirstByte(ref: nat, isStatic: bool, base: int, prefix: nat, pattern: byte)
    requires 2 <= prefix <= 8 && pattern % Pow2(prefix) == 0 && pattern + Pow2(prefix) <= 256
    requires !isStatic ==> ref <= base
    ensures var e := EncodeIndex(ref, isStatic, base, prefix, pattern);
      |e| >= 1 && e[0] - e[0] % Pow2(prefix - 1) == pattern + if isStatic then Pow2(prefix - 1) else 0
  {
    FlaggedFirstByte(if isStatic then ref else base - ref, prefix, pattern, isStatic);
  }

  lemma IndexRoundTrip(ref: nat, isStatic: bool, largestRef: int, base: int, prefix: nat,
                       pattern: byte, rest: seq<byte>)
    requires 2 <= prefix <= 8 && pattern % Pow2(prefix) == 0 && pattern + Pow2(prefix) <= 256
    requires !isStatic ==> ref <= base && ref <= largestRef
    ensures var e := EncodeIndex(ref, isStatic, base, prefix, pattern);
      DecodeIndex(e + rest, prefix, largestRef, base) == Ok(IndexRef(ref, isStatic, |e|))
  {
    var e := EncodeIndex(ref, isStatic, base, prefix, pattern);
    FlaggedRoundTrip(if isStatic then ref else base - ref, prefix, pattern, isStatic, e + rest, rest);
  }

  /** decode_index_post(data, prefix, largest_ref, base)
      (hpack/qpack.py:498-503): a prefix-bit integer counted from the entry
      after base; always dynamic, never above largest_ref. */
  function DecodeIndexPost(data: seq<byte>, prefix: nat, largestRef: int, base: int): (r: Result<IndexRef>)
    requires 1 <= prefix <= 8
    ensures match DecodeInteger(data, prefix)
      case Err(e) => r == Err(e)
      case Ok((relative, consumed)) =>
        if base + 1 + relative <= largestRef then r == Ok(IndexRef(base + 1 + relative, false, consumed))
        else r == Err(QpackDecodingError(RefBeyondLargest))
    ensures r.Ok? ==> !r.value.isStatic && base < r.value.index <= largestRef
    ensures r.Ok? ==> 1 <= r.value.consumed <= |data|
  {
    match DecodeInteger(data, prefix)
    case Err(e) => Err(e)
    case Ok((index, consumed)) =>
      var absolute := index + base + 1;
      if absolute > largestRef then Err(QpackDecodingError(RefBeyondLargest))
      else Ok(IndexRef(absolute, false, consumed))
  }

  lemma IndexPostRoundTrip(ref: int, largestRef: int, base: int, prefix: nat, pattern: byte, rest: seq<byte>)
    requires 1 <= prefix <= 8 && pattern % Pow2(prefix) == 0 && pattern + Pow2(prefix) <= 256
    requires base < ref <= largestRef
    ensures var e := EncodeInteger(ref - base - 1, prefix, pattern);
      DecodeIndexPost(e + rest, prefix, largestRef, base) == Ok(IndexRef(ref, false, |e|))
  {
    IntegerRoundTrip(ref - base - 1, prefix, pattern, rest);
  }

  // ---------------------------------------------------------------------
  // Header-block prefix

  datatype BlockPrefix = BlockPrefix(largestRef: nat, base: int, consumed: nat)

  /** Decoder._decode_prefix (hpack/qpack.py:385-399): an 8-bit-prefix
      largest reference, then a sign bit and a 7-bit base delta; base is
      largest_ref + delta with the sign clear, largest_ref - delta with it
      set, and a set sign with a zero delta is refused. An error of either
      integer passes through, and a block that ends right after the largest
      reference fails with IndexError at the read of the sign byte (line 389);
      every other prefix is accepted. */
  function DecodePrefix(data: seq<byte>): (r: Result<BlockPrefix>)
    ensures r.Ok? ==> 2 <= r.value.consumed <= |data|
    ensures r.Ok? ==> DecodeInteger(data, 8).Ok? && r.value.largestRef == DecodeInteger(data, 8).value.0
    ensures r.Ok? ==>
      var c1 := DecodeInteger(data, 8).value.1;
      c1 < |data| && DecodeInteger(data[c1..], 7).Ok? &&
      var (delta, c2) := DecodeInteger(data[c1..], 7).value;
      && r.value.consumed == c1 + c2
      && (data[c1] < 128 ==> r.value.base == r.value.largestRef + delta)
      && (data[c1] >= 128 ==> delta != 0 && r.value.base == r.value.largestRef - delta)
    ensures DecodeInteger(data, 8).Ok? && DecodeInteger(data, 8).value.1 < |data| ==>
      var c1 := DecodeInteger(data, 8).value.1;
      data[c1] >= 128 && DecodeInteger(data[c1..], 7).Ok? && DecodeInteger(data[c1..], 7).value.0 == 0
      ==> r == Err(QpackDecodingError(InvalidBaseDelta))
    ensures DecodeInteger(data, 8).Err? ==> r == Err(DecodeInteger(data, 8).error)
    ensures DecodeInteger(data, 8).Ok? && DecodeInteger(data, 8).value.1 >= |data| ==> r == Err(IndexError)
    ensures DecodeInteger(data, 8).Ok? && DecodeInteger(data, 8).value.1 < |data| ==>
      var c1 := DecodeInteger(data, 8).value.1;
      && (DecodeInteger(data[c1..], 7).Err? ==> r == Err(DecodeInteger(data[c1..], 7).error))
      && (DecodeInteger(data[c1..], 7).Ok? && !(data[c1] >= 128 && DecodeInteger(data[c1..], 7).value.0 == 0)
          ==> r.Ok?)
  {
    match DecodeInteger(data, 8)
    case Err(e) => Err(e)
    case Ok((largestRef, consumed)) =>
      if consumed >= |data| then Err(IndexError)
      else
        var sign := FlagBit(data[consumed], 128);
        SignBit(data[consumed]);
        match DecodeInteger(data[consumed..], 7)
        case Err(e) => Err(e)
        case Ok((baseDelta, consumed2)) =>
          if !sign then Ok(BlockPrefix(largestRef, largestRef + baseDelta, consumed + consumed2))
          else if baseDelta != 0 then Ok(BlockPrefix(largestRef, largestRef - baseDelta, consumed + consumed2))
          else Err(QpackDecodingError(InvalidBaseDelta))
  }

  lemma SignBit(b: byte)
    ensures FlagBit(b, 128) <==> b >= 128
  {
    assert Pow2(7) == 128;
  }

  /** The prefix encoder: the sign is set exactly when base < largest_ref. */
  function EncodePrefix(largestRef: nat, base: int): seq<byte>
  {
    assert Pow2(7) == 128 && Pow2(8) == 256;
    EncodeInteger(largestRef, 8, 0)
      + if base >= largestRef then EncodeInteger(base - largestRef, 7, 0)
        else EncodeInteger(largestRef - base, 7, 0x80)
  }

  lemma PrefixRoundTrip(largestRef: nat, base: int, rest: seq<byte>)
    ensures var e := EncodePrefix(largestRef, base);
      DecodePrefix(e + rest) == Ok(BlockPrefix(largestRef, base, |e|))
  {
    assert Pow2(7) == 128 && Pow2(8) == 256;
    var a := EncodeInteger(largestRef, 8, 0);
    var delta := if base >= largestRef then base - largestRef else largestRef - base;
    var high := if base >= largestRef then 0 else 0x80;
    var b := EncodeInteger(delta, 7, high);
    var e := EncodePrefix(largestRef, base);
    var d := e + rest;
    assert e == a + b;
    AppendAssoc(a, b, rest);
    IntegerRoundTripAt(d, largestRef, 8, 0, b + rest);
    AppendDrop(a, b + rest);
    DeltaRoundTrip(delta, high, rest);
    assert d[|a|] == (b + rest)[0];
    PrefixFromParts(d, largestRef, |a|, delta, |b|, base);
  }

  /** DecodePrefix put together from its two integers and the sign bit. */
  lemma PrefixFromParts(d: seq<byte>, largestRef: nat, c1: nat, delta: nat, c2: nat, base: int)
    requires DecodeInteger(d, 8) == Ok((largestRef, c1)) && c1 < |d|
    requires DecodeInteger(d[c1..], 7) == Ok((delta, c2))
    requires if d[c1] < 128 then base == largestRef + delta else delta != 0 && base == largestRef - delta
    ensures DecodePrefix(d) == Ok(BlockPrefix(largestRef, base, c1 + c2))
  {
    SignBit(d[c1]);
  }

  /** The sign-and-delta part of an encoded prefix. */
  lemma DeltaRoundTrip(delta: nat, high: byte, rest: seq<byte>)
    requires high == 0 || high == 0x80
    ensures Pow2(7) == 0x80
    ensures var b := EncodeInteger(delta, 7, high);
      && DecodeInteger(b + rest, 7) == Ok((delta, |b|))
      && ((b + rest)[0] < 128 <==> high == 0)
  {
    assert Pow2(7) == 0x80;
    var b := EncodeInteger(delta, 7, high);
    IntegerRoundTrip(delta, 7, high, rest);
    assert (b + rest)[0] == b[0];
  }
}

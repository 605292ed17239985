/** The variable-length integer of section 16 of RFC 9000, which the decoder
    uses for its acknowledgements (hpack/qpack.py:35-84): a 2-bit tag in the
    top of the first byte gives the length (1, 2, 4 or 8 bytes), the
    remaining 6, 14, 30 or 62 bits hold the value, big-endian.

    EncodeQuicInt and DecodeQuicInt are the functions as evidently intended;
    the ...AsWritten functions follow the code line by line and exhibit the
    places where it cannot run. */
module QuicInt {
  import opened Errors
  import opened Bytes

  /** Python's int.bit_length() on a non-negative integer. */
  function BitLength(n: nat): nat
  {
    if n == 0 then 0 else 1 + BitLength(n / 2)
  }

  lemma {:induction false} BitLengthBound(n: nat, k: nat)
    ensures BitLength(n) <= k <==> n < Pow2(k)
  {
    if n > 0 && k > 0 {
      BitLengthBound(n / 2, k - 1);
    }
  }

  /** Bytes of the encoding for each 2-bit tag. */
  function WordLength(size: nat): nat
    requires size < 4
  {
    if size == 0 then 1 else if size == 1 then 2 else if size == 2 then 4 else 8
  }

  /** Exclusive bound of the values a tag can carry; also the weight of the
      tag itself, `size << (8*word_length-2)`. */
  function Limit(size: nat): nat
    requires size < 4
  {
    if size == 0 then 0x40 else if size == 1 then 0x4000
    else if size == 2 then 0x4000_0000 else 0x4000_0000_0000_0000
  }

  /** The limit is 2^(8*len-2): six value bits in the first byte and eight
      in each of the others. */
  lemma LimitFactor(size: nat)
    requires size < 4
    ensures Limit(size) == Pow2(8 * WordLength(size) - 2)
    ensures Limit(size) == 64 * Pow2(8 * (WordLength(size) - 1))
  {
    var x := 8 * (WordLength(size) - 1);
    assert 8 * WordLength(size) - 2 == 6 + x;
    Pow2Shift6(x);
    if size == 0 {
      assert Pow2(6) == 64;
    } else if size == 1 {
      Pow2Bytes();
    } else {
      Pow2Words();
    }
  }

  lemma Pow2Shift6(x: nat)
    ensures Pow2(6 + x) == 64 * Pow2(x)
  {
    Pow2Add(6, x);
    assert Pow2(6) == 64;
  }

  /** BitLength against the four limits. */
  lemma BitLengthLimits(n: nat)
    ensures BitLength(n) <= 6 <==> n < 0x40
    ensures BitLength(n) <= 14 <==> n < 0x4000
    ensures BitLength(n) <= 30 <==> n < 0x4000_0000
    ensures BitLength(n) <= 62 <==> n < 0x4000_0000_0000_0000
  {
    BitLengthBound(n, 6);
    BitLengthBound(n, 14);
    BitLengthBound(n, 30);
    BitLengthBound(n, 62);
    Pow2Bytes();
    Pow2Words();
  }

  /** The value packed into WordLength(size) bytes with the tag ORed into
      the top two bits of the first byte (the value leaves them clear, so
      the OR is an addition). */
  function Tagged(n: nat, size: nat): (r: seq<byte>)
    requires size < 4 && n < Limit(size)
    ensures |r| == WordLength(size)
  {
    var b := ToBigEndian(n, WordLength(size));
    LimitFactor(size);
    ToBigEndianFirstBound(n, WordLength(size), 6);
    assert Pow2(6) == 64;
    [b[0] + size * 64] + b[1..]
  }

  lemma TaggedValue(n: nat, size: nat)
    requires size < 4 && n < Limit(size)
    ensures Tagged(n, size)[0] / 64 == size
    ensures FromBigEndian(Tagged(n, size)) == n + size * Limit(size)
  {
    var wl := WordLength(size);
    var b := ToBigEndian(n, wl);
    var p := Pow2(8 * (wl - 1));
    LimitFactor(size);
    assert 8 * (wl - 1) + 6 == 8 * wl - 2;
    ToBigEndianFirstBound(n, wl, 6);
    assert Pow2(6) == 64;
    assert Tagged(n, size) == [b[0] + size * 64] + b[1..];
    TagDigit(b[0], size);
    BigEndianAddFirst(b, size * 64);
    Pow2Byte(wl - 1);
    assert 8 * (wl - 1) + 8 == 8 * wl;
    BigEndianRoundTrip(n, wl);
    TagScale(size, p);
  }

  lemma TagDigit(low: nat, size: nat)
    requires low < 64
    ensures (low + size * 64) / 64 == size
  {
  }

  lemma TagScale(size: nat, p: nat)
    ensures (size * 64) * p == size * (64 * p)
  {
  }

  /** The length tag encode_quic_int picks: the shortest word whose 8*len-2
      value bits hold the integer. */
  function SizeTag(n: nat): (size: nat)
    requires n < 0x4000_0000_0000_0000
    ensures size < 4 && n < Limit(size)
    ensures size > 0 ==> n >= Limit(size - 1)
  {
    var wl := (BitLength(n) + 2 + 7) / 8;
    BitLengthLimits(n);
    if wl == 1 then 0 else if wl <= 2 then 1 else if wl <= 4 then 2 else 3
  }

  /** encode_quic_int as intended (hpack/qpack.py:35-67): negative integers
      and integers of 62 bits or more are refused with ValueError; otherwise
      the result is the shortest of the four widths that holds the value,
      tagged with that width. */
  function EncodeQuicInt(integer: int): (r: Result<seq<byte>>)
    ensures r.Ok? <==> 0 <= integer < 0x4000_0000_0000_0000
    ensures r.Err? ==> r.error == ValueError
    ensures r.Ok? ==> |r.value| > 0
    ensures r.Ok? ==> var tag := r.value[0] / 64;
      && tag < 4 && |r.value| == WordLength(tag)
      && integer < Limit(tag) && (tag > 0 ==> integer >= Limit(tag - 1))
  {
    if integer < 0 then Err(ValueError)
    else
      var wl := (BitLength(integer) + 2 + 7) / 8;
      BitLengthLimits(integer);
      if wl > 8 then Err(ValueError)
      else
        var size := SizeTag(integer);
        TaggedValue(integer, size);
        Ok(Tagged(integer, size))
  }

  /** decode_quic_int as intended (hpack/qpack.py:68-84): the tag in the top
      two bits of the first byte gives the width, the input must be exactly
      that wide (struct.unpack's rule), and the tag's weight is subtracted. */
  function DecodeQuicInt(data: seq<byte>): (r: Result<nat>)
    ensures r.Ok? <==> |data| > 0 && |data| == WordLength(data[0] / 64)
    ensures r.Ok? ==> r.value < Limit(data[0] / 64)
  {
    if |data| == 0 then Err(IndexError)
    else
      var size := data[0] / 64;
      var wl := WordLength(size);
      if |data| != wl then Err(StructError)
      else
        TagWeight(data);
        Ok(FromBigEndian(data) - size * Limit(size))
  }

  /** The tag contributes exactly its weight to the big-endian value, and
      the rest stays below the tag's limit. */
  lemma TagWeight(data: seq<byte>)
    requires |data| > 0 && |data| == WordLength(data[0] / 64)
    ensures var size := data[0] / 64;
      size * Limit(size) <= FromBigEndian(data) < (size + 1) * Limit(size)
  {
    var size := data[0] / 64;
    var low: nat := data[0] % 64;
    var p := Pow2(8 * (|data| - 1));
    var base := [low] + data[1..];
    assert Pow2(6) == 64;
    BigEndianSplitFirst(data);
    BigEndianSplitFirst(base);
    assert base[1..] == data[1..];
    BigEndianBoundFirst(base, 6);
    LimitFactor(size);
    TagArithmetic(size, low, p, FromBigEndian(data[1..]));
  }

  lemma TagArithmetic(size: nat, low: nat, p: nat, rest: nat)
    requires low * p + rest < p * 64
    ensures size * (64 * p) <= (size * 64 + low) * p + rest < (size + 1) * (64 * p)
  {
  }

  /** A word whose first byte is below 2^k is below 2^(8*(len-1)+k). */
  lemma BigEndianBoundFirst(s: seq<byte>, k: nat)
    requires |s| >= 1 && s[0] < Pow2(k)
    ensures FromBigEndian(s) < Pow2(8 * (|s| - 1)) * Pow2(k)
  {
    var rest := s[1..];
    BigEndianSplitFirst(s);
    BigEndianBound(rest);
    DigitBound(s[0], Pow2(8 * (|s| - 1)), Pow2(k), FromBigEndian(rest));
  }

  lemma DigitBound(d: nat, p: nat, q: nat, r: nat)
    requires r < p && d < q
    ensures d * p + r < p * q
  {
    MulMonotone(d + 1, q, p);
  }

  lemma BigEndianSplitFirst(s: seq<byte>)
    requires |s| >= 1
    ensures FromBigEndian(s) == s[0] * Pow2(8 * (|s| - 1)) + FromBigEndian(s[1..])
  {
    var rest := s[1..];
    var zero := [0] + rest;
    BigEndianAddFirst(zero, s[0]);
    assert [zero[0] + s[0]] + zero[1..] == s;
    BigEndianLeadingZero(rest);
  }

  lemma {:induction false} BigEndianLeadingZero(s: seq<byte>)
    ensures FromBigEndian([0] + s) == FromBigEndian(s)
  {
    if |s| > 0 {
      BigEndianLeadingZero(s[..|s| - 1]);
      assert ([0] + s)[..|s|] == [0] + s[..|s| - 1];
    }
  }

  /** Decoding an encoding gives the integer back. */
  lemma QuicIntRoundTrip(n: nat)
    requires n < 0x4000_0000_0000_0000
    ensures EncodeQuicInt(n).Ok? && DecodeQuicInt(EncodeQuicInt(n).value) == Ok(n)
  {
    var size := SizeTag(n);
    TaggedValue(n, size);
  }

  /** Two integers with the same encoding are equal. */
  lemma QuicIntInjective(m: nat, n: nat)
    requires m < 0x4000_0000_0000_0000 && n < 0x4000_0000_0000_0000
    requires EncodeQuicInt(m) == EncodeQuicInt(n)
    ensures m == n
  {
    QuicIntRoundTrip(m);
    QuicIntRoundTrip(n);
  }

  // ---------------------------------------------------------------------
  // The code as written.

  /** struct format codes used by the two functions; '!' selects standard
      sizes, under which "!L" is 4 bytes, like "!I". */
  datatype PackFormat = FormatB | FormatH | FormatI | FormatL

  function FormatSize(f: PackFormat): nat
  {
    match f
    case FormatB => 1
    case FormatH => 2
    case FormatI => 4
    case FormatL => 4
  }

  /** Lines 40-58: the buffer length, format and tag chosen from the
      computed word length. The second test is `if`, not `elif`, so the
      1-byte choice of lines 41-43 is always overwritten: tag 0 is never
      chosen, a 1-byte word gets a format wider than its buffer, and a
      5- to 8-byte word gets a format narrower than its buffer. */
  function SelectFormatAsWritten(wordLength: nat): (r: Result<(nat, PackFormat, nat)>)
    ensures r.Err? <==> 8 < wordLength
    ensures r.Err? ==> r.error == ValueError
    ensures r.Ok? ==> wordLength <= r.value.0 && r.value.2 != 0
    ensures r.Ok? ==> (FormatSize(r.value.1) <= r.value.0 <==> 2 <= wordLength)
    ensures r.Ok? ==> (FormatSize(r.value.1) < r.value.0 <==> 4 < wordLength)
  {
    if wordLength <= 2 then Ok((wordLength, FormatH, 1))
    else if wordLength <= 4 then Ok((4, FormatI, 2))
    else if wordLength <= 8 then Ok((8, FormatL, 3))
    else Err(ValueError)
  }

  /** struct.pack_into(f, bytearray(len), 0, n) for an unsigned format:
      it fails unless the format fits the buffer and the integer fits the
      format, and then the buffer starts with the integer, big-endian. */
  function PackIntoAsWritten(f: PackFormat, len: nat, n: nat): (r: Result<seq<byte>>)
    ensures r.Ok? <==> FormatSize(f) <= len && n < Pow2(8 * FormatSize(f))
    ensures r.Err? ==> r.error == StructError
    ensures r.Ok? ==> |r.value| == len && FromBigEndian(r.value[..FormatSize(f)]) == n
  {
    if FormatSize(f) > len || n >= Pow2(8 * FormatSize(f)) then Err(StructError)
    else
      var packed := ToBigEndian(n, FormatSize(f));
      var buffer := packed + seq(len - FormatSize(f), _ => 0);
      BigEndianRoundTrip(n, FormatSize(f));
      assert buffer[..FormatSize(f)] == packed;
      Ok(buffer)
  }

  /** encode_quic_int exactly as written: after packing, line 66 applies
      `|=` to a character of the format string, which raises TypeError.
      No integer is encoded: integers of 62 bits or more are refused with
      ValueError, those below 2^6 (the overwritten 1-byte case) and those
      from 2^32 (too wide for "!L") fail to pack, and every other one
      reaches line 66. */
  function EncodeQuicIntAsWritten(integer: int): (r: Result<seq<byte>>)
    ensures r.Err?
    ensures r == Err(ValueError) <==> integer < 0 || 0x4000_0000_0000_0000 <= integer
    ensures r == Err(StructError) <==>
      0 <= integer < 0x40 || 0x1_0000_0000 <= integer < 0x4000_0000_0000_0000
    ensures r == Err(TypeError) <==> 0x40 <= integer < 0x1_0000_0000
  {
    if integer < 0 then Err(ValueError)
    else
      var wordLength := (BitLength(integer) + 2 + 7) / 8;
      WordLengthLimits(integer);
      PackOutcomeAsWritten(integer);
      match SelectFormatAsWritten(wordLength)
      case Err(e) => Err(e)
      case Ok((len, f, size)) =>
        match PackIntoAsWritten(f, len, integer)
        case Err(e) => Err(e)
        case Ok(elements) => Err(TypeError)
  }

  /** A format is chosen exactly below 2^62, and then packing fails exactly
      for the overwritten 1-byte case and for integers too wide for "!L". */
  lemma PackOutcomeAsWritten(n: nat)
    ensures var select := SelectFormatAsWritten((BitLength(n) + 2 + 7) / 8);
      && (select.Ok? <==> n < 0x4000_0000_0000_0000)
      && (select.Ok? ==>
            (PackIntoAsWritten(select.value.1, select.value.0, n).Err? <==> n < 0x40 || 0x1_0000_0000 <= n))
  {
    WordLengthLimits(n);
    if 0x4000_0000_0000_0000 <= n {
    } else if n < 0x40 {
    } else if n < 0x4000 {
      assert Pow2(16) == 0x1_0000 by { Pow2Bytes(); }
    } else {
      assert Pow2(32) == 0x1_0000_0000 by { Pow2Words(); }
    }
  }

  /** The word length line 40 computes, against the four limits. */
  lemma WordLengthLimits(n: nat)
    ensures var wordLength := (BitLength(n) + 2 + 7) / 8;
      && (wordLength <= 1 <==> n < 0x40)
      && (wordLength <= 2 <==> n < 0x4000)
      && (wordLength <= 4 <==> n < 0x4000_0000)
      && (wordLength <= 8 <==> n < 0x4000_0000_0000_0000)
  {
    BitLengthLimits(n);
  }

  /** Lines 41-46: a 1-byte integer gets the 2-byte format and tag, and
      packing two bytes into the 1-byte buffer fails. Input 0 shows it. */
  lemma OneByteCaseOverwritten()
    ensures SelectFormatAsWritten((BitLength(0) + 2 + 7) / 8) == Ok((1, FormatH, 1))
    ensures EncodeQuicIntAsWritten(0) == Err(StructError)
    ensures EncodeQuicInt(0) == Ok([0])
  {
    assert Tagged(0, 0) == [0];
  }

  /** Line 66: even where packing succeeds (here 100, a 2-byte integer),
      the tag is ORed into the format string and TypeError is raised. */
  lemma TagOredIntoFormatString()
    ensures EncodeQuicIntAsWritten(100) == Err(TypeError)
    ensures EncodeQuicInt(100) == Ok([0x40, 100])
  {
    assert BitLength(100) == 7;
    Pow2Bytes();
    assert ToBigEndian(100, 2) == [0, 100];
    assert SizeTag(100) == 1;
    assert Tagged(100, 1) == [0x40, 100];
  }

  /** Lines 51-54: "!L" holds 4 bytes, so every integer needing 8 bytes
      from 2^32 on overflows the format, while the intended encoder
      encodes it and the decoder gives it back. */
  lemma EightByteFormatTooNarrow(n: nat)
    requires 0x1_0000_0000 <= n < 0x4000_0000_0000_0000
    ensures EncodeQuicIntAsWritten(n) == Err(StructError)
    ensures EncodeQuicInt(n).Ok? && DecodeQuicInt(EncodeQuicInt(n).value) == Ok(n)
  {
    QuicIntRoundTrip(n);
  }

  /** decode_quic_int exactly as written: "!I" for the 8-byte tag (line 80),
      struct.unpack demanding exactly the format's size, and a subtraction
      from the tuple that unpack returns, which raises TypeError. Nothing
      is decoded, and every well-formed 8-byte word is refused already by
      the unpack width. */
  function DecodeQuicIntAsWritten(data: seq<byte>): (r: Result<nat>)
    ensures r.Err?
    ensures r == Err(IndexError) <==> |data| == 0
    ensures |data| > 0 ==>
      (r == Err(TypeError) <==> |data| == if data[0] < 0xC0 then WordLength(data[0] / 64) else 4)
    ensures |data| > 0 && 0xC0 <= data[0] && DecodeQuicInt(data).Ok? ==> r == Err(StructError)
  {
    if |data| == 0 then Err(IndexError)
    else
      var size := data[0] / 64;
      var f := if size == 0 then FormatB else if size == 1 then FormatH else FormatI;
      if |data| != FormatSize(f) then Err(StructError)
      else Err(TypeError)
  }

  /** Every integer from 2^30 on is encoded in 8 bytes, which the decoder
      as written refuses and the intended one decodes. */
  lemma EightByteDecodeRefused(n: nat)
    requires 0x4000_0000 <= n < 0x4000_0000_0000_0000
    ensures EncodeQuicInt(n).Ok?
    ensures DecodeQuicIntAsWritten(EncodeQuicInt(n).value) == Err(StructError)
    ensures DecodeQuicInt(EncodeQuicInt(n).value) == Ok(n)
  {
    QuicIntRoundTrip(n);
  }
}

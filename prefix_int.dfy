/** The prefix-integer representation of section 5.1 of RFC 7541, which the
    decoder reads through hpack's `decode_integer`. That function lives in
    hpack/hpack.py, which is not part of this model; it is stated here as
    section 5.1 defines it, together with the encoder the section describes,
    which serves as its reference. */
module PrefixInt {
  import opened Errors
  import opened Bytes

  /** The continuation bytes after a saturated prefix: seven payload bits
      each, least significant group first, a set high bit meaning "more".
      Yields the accumulated value and the number of bytes read, or None
      when the input ends before a byte with the high bit clear. */
  function DecodeContinuation(s: seq<byte>): (r: Option<(nat, nat)>)
    ensures r.Some? ==> 1 <= r.value.1 <= |s|
  {
    if |s| == 0 then None
    else if s[0] < 128 then Some((s[0], 1))
    else match DecodeContinuation(s[1..])
      case None => None
      case Some((v, n)) => Some((s[0] - 128 + 128 * v, n + 1))
  }

  /** decode_integer(data, prefix): the integer in the low `prefix` bits of
      the first byte, extended by continuation bytes when those bits are all
      ones; returns the value and the number of bytes consumed. Bits of the
      first byte above the prefix are ignored. */
  function DecodeInteger(data: seq<byte>, prefix: nat): (r: Result<(nat, nat)>)
    requires 1 <= prefix <= 8
    ensures r.Ok? ==> 1 <= r.value.1 <= |data|
    ensures |data| == 0 ==> r == Err(HpackDecodingError(TruncatedInteger))
    ensures |data| > 0 && data[0] % Pow2(prefix) < Pow2(prefix) - 1 ==>
              r == Ok((data[0] % Pow2(prefix), 1))
  {
    if |data| == 0 then Err(HpackDecodingError(TruncatedInteger))
    else
      var maxNumber := Pow2(prefix) - 1;
      var number := data[0] % Pow2(prefix);
      if number != maxNumber then Ok((number, 1))
      else match DecodeContinuation(data[1..])
        case None => Err(HpackDecodingError(TruncatedInteger))
        case Some((extra, n)) => Ok((maxNumber + extra, n + 1))
  }

  /** The continuation bytes for `m`, as section 5.1 emits them. */
  function EncodeContinuation(m: nat): (r: seq<byte>)
    ensures |r| >= 1
  {
    if m < 128 then [m] else [m % 128 + 128] + EncodeContinuation(m / 128)
  }

  /** Section 5.1's encoding of `n` with an N-bit prefix; `high` holds the
      bits of the first byte above the prefix (flags, instruction pattern). */
  function EncodeInteger(n: nat, prefix: nat, high: byte): (r: seq<byte>)
    requires 1 <= prefix <= 8
    requires high % Pow2(prefix) == 0 && high + Pow2(prefix) <= 256
    ensures |r| >= 1 && r[0] - r[0] % Pow2(prefix) == high
  {
    var maxNumber := Pow2(prefix) - 1;
    if n < maxNumber then PrefixSplit(high, n, prefix); [high + n]
    else
      PrefixSplit(high, maxNumber, prefix);
      [high + maxNumber] + EncodeContinuation(n - maxNumber)
  }

  lemma PrefixSplit(high: nat, low: nat, prefix: nat)
    requires 1 <= prefix <= 8 && high % Pow2(prefix) == 0 && low < Pow2(prefix)
    ensures (high + low) % Pow2(prefix) == low
  {
    ModOfMultipleSplit(high, low, Pow2(prefix));
  }

  lemma {:induction false} ContinuationRoundTrip(m: nat, rest: seq<byte>)
    ensures DecodeContinuation(EncodeContinuation(m) + rest) == Some((m, |EncodeContinuation(m)|))
  {
    var e := EncodeContinuation(m);
    if m >= 128 {
      ContinuationRoundTrip(m / 128, rest);
      assert (e + rest)[1..] == EncodeContinuation(m / 128) + rest;
    }
  }

  /** Decoding what section 5.1 encodes gives back the integer and consumes
      exactly its encoding, whatever follows it and whatever the high bits. */
  lemma {:induction false} IntegerRoundTrip(n: nat, prefix: nat, high: byte, rest: seq<byte>)
    requires 1 <= prefix <= 8
    requires high % Pow2(prefix) == 0 && high + Pow2(prefix) <= 256
    ensures DecodeInteger(EncodeInteger(n, prefix, high) + rest, prefix)
            == Ok((n, |EncodeInteger(n, prefix, high)|))
  {
    var maxNumber := Pow2(prefix) - 1;
    var e := EncodeInteger(n, prefix, high);
    if n < maxNumber {
      PrefixSplit(high, n, prefix);
    } else {
      PrefixSplit(high, maxNumber, prefix);
      ContinuationRoundTrip(n - maxNumber, rest);
      assert (e + rest)[1..] == EncodeContinuation(n - maxNumber) + rest;
    }
  }

  /** IntegerRoundTrip for input given as a whole. */
  lemma IntegerRoundTripAt(d: seq<byte>, n: nat, prefix: nat, high: byte, rest: seq<byte>)
    requires 1 <= prefix <= 8
    requires high % Pow2(prefix) == 0 && high + Pow2(prefix) <= 256
    requires d == EncodeInteger(n, prefix, high) + rest
    ensures DecodeInteger(d, prefix) == Ok((n, |d| - |rest|))
  {
    IntegerRoundTrip(n, prefix, high, rest);
  }

  /** Bytes after the integer's encoding are never read. */
  lemma {:induction false} ContinuationIgnoresSuffix(s: seq<byte>, rest: seq<byte>)
    requires DecodeContinuation(s).Some?
    ensures DecodeContinuation(s + rest) == DecodeContinuation(s)
  {
    if s[0] >= 128 {
      ContinuationIgnoresSuffix(s[1..], rest);
      assert (s + rest)[1..] == s[1..] + rest;
    }
  }

  lemma IntegerIgnoresSuffix(data: seq<byte>, prefix: nat, rest: seq<byte>)
    requires 1 <= prefix <= 8 && DecodeInteger(data, prefix).Ok?
    ensures DecodeInteger(data + rest, prefix) == DecodeInteger(data, prefix)
  {
    if data[0] % Pow2(prefix) == Pow2(prefix) - 1 {
      ContinuationIgnoresSuffix(data[1..], rest);
      assert (data + rest)[1..] == data[1..] + rest;
    }
  }
}

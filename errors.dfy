/** Error values of the decoder and of its helpers. The exception classes of
    hpack/exceptions.py become variants of one datatype; Python's built-in
    exceptions that the modelled code raises (or would raise) get their own. */
module Errors {

  /** Why hpack's own HPACKDecodingError (or its subclass InvalidTableIndex)
      was raised by a helper this code calls. */
  datatype HpackFailure =
    | TruncatedInteger      // decode_integer ran past the end of the input
    | InvalidHuffman        // decode_huffman refused the payload
    | InvalidTableIndex     // get_by_index was given an index outside both tables

  /** Why a QPACKDecodingError was raised. */
  datatype QpackFailure =
    | TruncatedLiteral      // fewer payload bytes than the literal's length
    | RefBeyondLargest      // an absolute index above the largest reference
    | InvalidBaseDelta      // sign bit set with a zero base delta
    | InvalidInstruction    // a first byte that matches no representation
    | Wrapped(cause: Error) // any other exception, chained by raise_from

  datatype Error =
    | ValueError                    // encode_quic_int given a negative or too large integer
    | StructError                   // struct.pack_into / struct.unpack refused the buffer
    | TypeError                     // an operation on a value of the wrong type
    | KeyError                      // a LinkedList key that is not present
    | AttributeError                // popSmallest on an empty LinkedList
    | IndexError                    // reading past the end of a byte string
    | HpackDecodingError(hpack: HpackFailure)   // HPACKDecodingError and InvalidTableIndex
    | QpackDecodingError(qpack: QpackFailure)   // QPACKDecodingError
    | InvalidTableSizeError                     // QPACKInvalidTableSizeError
    | OverflowError                             // QPACKOverflowError

  /** The subclasses of QPACKStreamError (hpack/exceptions.py:58-92), which
      the decoder lets through unwrapped. */
  predicate IsStreamError(e: Error)
  {
    e.QpackDecodingError? || e.InvalidTableSizeError? || e.OverflowError?
  }

  /** The decoder's `except QPACKStreamError: raise` / `except Exception:
      raise_from(QPACKDecodingError(...), e)` pair (hpack/qpack.py:303-306,
      368-374): every failure leaves the decoder as a stream error. */
  function Wrap(e: Error): (r: Error)
    ensures IsStreamError(r)
    ensures IsStreamError(e) ==> r == e
    ensures !IsStreamError(e) ==> r.QpackDecodingError? && r.qpack == Wrapped(e)
  {
    if IsStreamError(e) then e else QpackDecodingError(Wrapped(e))
  }

  /** update's `except Exception` handler as written (hpack/qpack.py:305-306):
      `raise_from` is given the new QPACKDecodingError as its only argument,
      but it takes two (the exception and its cause), so the call itself
      raises TypeError. A failure that is not a stream error therefore leaves
      update as TypeError, which is not a stream error either. */
  function WrapAsWritten(e: Error): (r: Error)
    ensures IsStreamError(r) <==> IsStreamError(e)
    ensures IsStreamError(e) ==> r == e
    ensures !IsStreamError(e) ==> r == TypeError && r != Wrap(e)
  {
    if IsStreamError(e) then e else TypeError
  }

  /** An index outside both tables in an encoder-stream instruction: as
      written update raises TypeError, while the intended handler raises
      a QPACKDecodingError chained to the InvalidTableIndex. */
  lemma InvalidIndexEscapesUpdate()
    ensures var e := HpackDecodingError(InvalidTableIndex);
      && WrapAsWritten(e) == TypeError
      && Wrap(e) == QpackDecodingError(Wrapped(e))
  {
  }

  datatype Option<+T> = None | Some(value: T)

  datatype Result<+T> = Ok(value: T) | Err(error: Error) {
    predicate IsFailure() { Err? }
    function PropagateFailure<U>(): Result<U> requires Err? { Err(error) }
    function Extract(): T requires Ok? { value }
  }
}

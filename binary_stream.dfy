/** The newer generation's stream records and endian helpers
    (include/binaryio/binary_stream.hpp): the `BufferedIO` window and its refill
    contract, `MemoryStreamData`, the default `IOStream`, and the enum-aware
    `writeXEndian`/`readXEndian` with `writeLE/BE` and `readLE/BE`. Addresses are
    natural numbers. */
module BinaryStream {
  import opened EndianCodec
  import opened BinaryTypes

  // ------------------------------------------------------------------
  // BufferedIO
  // ------------------------------------------------------------------

  /** The buffered-read window of a stream; `refillBound` says whether the
      `Refill` slot holds a function. */
  datatype BufferedIO = BufferedIO(bufferStart: nat, cursor: nat, bufferEnd: nat, refillBound: bool)

  /** `buffer_start <= cursor <= buffer_end`. */
  predicate BufferedInv(b: BufferedIO)
  {
    b.bufferStart <= b.cursor <= b.bufferEnd
  }

  /** The refill precondition: the window is exhausted. */
  predicate RefillPre(b: BufferedIO)
  {
    b.cursor == b.bufferEnd
  }

  /** The refill postcondition: the cursor is at the start of a non-empty window. */
  predicate RefillPost(b: BufferedIO)
  {
    b.cursor == b.bufferStart && b.cursor < b.bufferEnd
  }

  /** The bytes left in the window. */
  function NumBytesAvailable(b: BufferedIO): nat
    requires BufferedInv(b)
  {
    b.bufferEnd - b.cursor
  }

  /** One step of the code that drains a buffered window, as the refill
      contract intends it to be used: an exhausted window is refilled first
      (`refilled` is the window `Refill` leaves), then up to `n` bytes are
      taken from the cursor. Returns the new window and the count taken. */
  function BufferedTake(b: BufferedIO, refilled: BufferedIO, n: nat): (r: (BufferedIO, nat))
    requires BufferedInv(b)
    requires RefillPre(b) ==> RefillPost(refilled)
    ensures BufferedInv(r.0) && r.1 <= n
    ensures n > 0 ==> r.1 >= 1
    ensures RefillPre(b) <==> NumBytesAvailable(b) == 0
  {
    var w := if RefillPre(b) then refilled else b;
    var k := if n <= NumBytesAvailable(w) then n else NumBytesAvailable(w);
    (w.(cursor := w.cursor + k), k)
  }

  /** Draining `n` bytes: take steps until `n` bytes have been taken or an
      exhausted window has no refill outcome left. `refills` are the windows
      successive `Refill` calls leave. */
  function BufferedDrain(b: BufferedIO, refills: seq<BufferedIO>, n: nat): (r: (BufferedIO, nat))
    requires BufferedInv(b)
    requires forall i :: 0 <= i < |refills| ==> RefillPost(refills[i])
    ensures BufferedInv(r.0) && r.1 <= n
    decreases n
  {
    if n == 0 || (RefillPre(b) && |refills| == 0) then (b, 0)
    else
      var refilled := if RefillPre(b) then refills[0] else b;
      var rest := if RefillPre(b) then refills[1..] else refills;
      var (c, k) := BufferedTake(b, refilled, n);
      var (d, m) := BufferedDrain(c, rest, n - k);
      (d, k + m)
  }

  /** The refill contract guarantees progress: every refill leaves at least one
      byte, so `n` bytes are always delivered when `n` refills are available. */
  lemma {:induction false} DrainDelivers(b: BufferedIO, refills: seq<BufferedIO>, n: nat)
    requires BufferedInv(b)
    requires forall i :: 0 <= i < |refills| ==> RefillPost(refills[i])
    requires |refills| >= n
    ensures BufferedDrain(b, refills, n).1 == n
    decreases n
  {
    if n > 0 {
      var refilled := if RefillPre(b) then refills[0] else b;
      var rest := if RefillPre(b) then refills[1..] else refills;
      var (c, k) := BufferedTake(b, refilled, n);
      DrainDelivers(c, rest, n - k);
    }
  }

  // ------------------------------------------------------------------
  // MemoryStreamData
  // ------------------------------------------------------------------

  /** A memory stream's user data: base address, cursor and size, all `IOSize`. */
  datatype MemoryStreamData = MemoryStreamData(bufferStart: nat, cursor: nat, bufferSize: nat)

  /** `BytesLeft()`: `buffer_size - cursor` in unsigned 64-bit arithmetic. */
  function BytesLeft(m: MemoryStreamData): nat
  {
    (m.bufferSize - m.cursor) % IOSizeRange
  }

  /** `CursorBytes()`: the address `buffer_start + cursor`. */
  function CursorBytes(m: MemoryStreamData): nat
  {
    m.bufferStart + m.cursor
  }

  /** With the cursor inside the buffer, the bytes left run from the cursor's
      address exactly to the buffer's end; a cursor past the end wraps the
      unsigned subtraction around. */
  lemma MemoryStreamSpan(m: MemoryStreamData)
    requires m.cursor < IOSizeRange && m.bufferSize < IOSizeRange
    ensures m.cursor <= m.bufferSize ==>
      BytesLeft(m) == m.bufferSize - m.cursor &&
      CursorBytes(m) + BytesLeft(m) == m.bufferStart + m.bufferSize
    ensures m.cursor > m.bufferSize ==> BytesLeft(m) == IOSizeRange - (m.cursor - m.bufferSize)
  {
    if m.cursor > m.bufferSize {
      assert m.bufferSize - m.cursor == (m.bufferSize - m.cursor + IOSizeRange) + (-1) * IOSizeRange;
      Arithmetic.DivModAddMultiple(m.bufferSize - m.cursor + IOSizeRange, -1, IOSizeRange);
      Arithmetic.DivModUnique(m.bufferSize - m.cursor + IOSizeRange, IOSizeRange, 0, m.bufferSize - m.cursor + IOSizeRange);
    } else {
      Arithmetic.DivModUnique(m.bufferSize - m.cursor, IOSizeRange, 0, m.bufferSize - m.cursor);
    }
  }

  // ------------------------------------------------------------------
  // IOStream
  // ------------------------------------------------------------------

  /** The five operation slots of an `IOStream`. */
  datatype Operation = SizeOp | ReadOp | WriteOp | SeekOp | CloseOp

  /** An `IOStream`: which slots are bound, the three user-data words, the
      buffered window and the sticky error. */
  datatype IOStream = IOStream(
    bound: set<Operation>,
    userData: seq<nat>,
    buffered: BufferedIO,
    errorState: IOErrorCode)

  /** `IOStream{}`: no slot bound, zeroed user data and window, `Success`. */
  function DefaultIOStream(): (s: IOStream)
    ensures s.bound == {} && s.errorState == Success
    ensures |s.userData| == 3 && forall i :: 0 <= i < 3 ==> s.userData[i] == 0
    ensures BufferedInv(s.buffered) && !s.buffered.refillBound && NumBytesAvailable(s.buffered) == 0
  {
    IOStream({}, [0, 0, 0], BufferedIO(0, 0, 0, false), Success)
  }

  // ------------------------------------------------------------------
  // Enum-aware endian helpers
  // ------------------------------------------------------------------

  /** A value of an integral or enumeration type `T`, by the bit pattern of
      `UnderlyingType<T>`. */
  datatype Scalar = Integral(bits: nat) | Enumerator(underlying: nat)

  /** `static_cast<UnderlyingType<T>>(value)`. */
  function Underlying(x: Scalar): nat
  {
    match x
    case Integral(b) => b
    case Enumerator(u) => u
  }

  /** `static_cast<T>(value)` for the `T` that `like` has. */
  function OfUnderlying(like: Scalar, u: nat): (x: Scalar)
    ensures Underlying(x) == u
    ensures x.Integral? <==> like.Integral?
  {
    match like
    case Integral(_) => Integral(u)
    case Enumerator(_) => Enumerator(u)
  }

  /** The writes a stream receives through `IOStream_Write`, whose body is not
      part of this model; it answers every write with `writeResult`. */
  class StreamSink {
    var writes: seq<seq<byte>>
    const writeResult: IOResult

    constructor (writeResult: IOResult)
      ensures writes == [] && this.writeResult == writeResult
    {
      writes := [];
      this.writeResult := writeResult;
    }

    /** `IOStream_Write(stream, bytes, |bytes|)`. */
    method Write(bytes: seq<byte>) returns (r: IOResult)
      modifies this
      ensures writes == old(writes) + [bytes]
      ensures r == writeResult
    {
      writes := writes + [bytes];
      r := writeResult;
    }
  }

  /** `detail::writeXEndian`: exactly one write of `sizeof(T)` bytes, the
      encoding of the underlying integer, so an enumerator is written exactly as
      its underlying value. */
  method WriteXEndian(stream: StreamSink, value: Scalar, width: nat, order: ByteOrder) returns (r: IOResult)
    requires ValidWidth(width) && Fits(Underlying(value), width)
    modifies stream
    ensures stream.writes == old(stream.writes) + [ToBytes(order, width, Underlying(value))]
    ensures r == stream.writeResult
  {
    var bytes := EncodeXEndian(Underlying(value), width, order);
    r := stream.Write(bytes);
  }

  /** `writeLE`. */
  method WriteLE(stream: StreamSink, value: Scalar, width: nat) returns (r: IOResult)
    requires ValidWidth(width) && Fits(Underlying(value), width)
    modifies stream
    ensures stream.writes == old(stream.writes) + [ToBytes(LittleEndian, width, Underlying(value))]
    ensures r == stream.writeResult
  {
    r := WriteXEndian(stream, value, width, LittleEndian);
  }

  /** `writeBE`. */
  method WriteBE(stream: StreamSink, value: Scalar, width: nat) returns (r: IOResult)
    requires ValidWidth(width) && Fits(Underlying(value), width)
    modifies stream
    ensures stream.writes == old(stream.writes) + [ToBytes(BigEndian, width, Underlying(value))]
    ensures r == stream.writeResult
  {
    r := WriteXEndian(stream, value, width, BigEndian);
  }

  /** `detail::readXEndian`, given what `IOStream_Read` returned (`readResult`)
      and left in the local array (`bytes`): only on `Success` is the value
      rebuilt and stored through `out_value`; the error code is returned, as a
      result of magnitude zero. */
  method ReadXEndian(readResult: IOResult, bytes: seq<byte>, order: ByteOrder, outValue: Scalar)
    returns (r: IOResult, newOut: Scalar)
    requires ValidWidth(|bytes|)
    ensures ErrorCode(readResult) == Success ==> newOut == OfUnderlying(outValue, FromBytes(order, bytes))
    ensures ErrorCode(readResult) != Success ==> newOut == outValue
    ensures r == FromError(ErrorCode(readResult))
  {
    var result := ErrorCode(readResult);
    newOut := outValue;
    if result == Success {
      var value := DecodeXEndian(bytes, order);
      newOut := OfUnderlying(outValue, value);
    }
    r := FromError(result);
  }

  /** `readLE`. */
  method ReadLE(readResult: IOResult, bytes: seq<byte>, outValue: Scalar) returns (r: IOResult, newOut: Scalar)
    requires ValidWidth(|bytes|)
    ensures ErrorCode(readResult) == Success ==> newOut == OfUnderlying(outValue, FromBytes(LittleEndian, bytes))
    ensures ErrorCode(readResult) != Success ==> newOut == outValue
    ensures r == FromError(ErrorCode(readResult))
  {
    r, newOut := ReadXEndian(readResult, bytes, LittleEndian, outValue);
  }

  /** `readBE`. */
  method ReadBE(readResult: IOResult, bytes: seq<byte>, outValue: Scalar) returns (r: IOResult, newOut: Scalar)
    requires ValidWidth(|bytes|)
    ensures ErrorCode(readResult) == Success ==> newOut == OfUnderlying(outValue, FromBytes(BigEndian, bytes))
    ensures ErrorCode(readResult) != Success ==> newOut == outValue
    ensures r == FromError(ErrorCode(readResult))
  {
    r, newOut := ReadXEndian(readResult, bytes, BigEndian, outValue);
  }

  /** Reading back, with the same byte order and a successful read, the bytes
      `writeXEndian` wrote reconstructs the original integer or enumerator;
      the returned result is `Success` with magnitude zero. */
  lemma ScalarRoundTrip(order: ByteOrder, width: nat, value: Scalar, outValue: Scalar, readResult: IOResult)
    requires ValidWidth(width) && Fits(Underlying(value), width)
    requires outValue.Integral? <==> value.Integral?
    requires ErrorCode(readResult) == Success
    ensures OfUnderlying(outValue, FromBytes(order, ToBytes(order, width, Underlying(value)))) == value
    ensures ErrorCode(FromError(ErrorCode(readResult))) == Success && Value(FromError(ErrorCode(readResult))) == 0
  {
    DecodeEncode(order, width, Underlying(value));
    FromErrorParts(Success);
  }
}

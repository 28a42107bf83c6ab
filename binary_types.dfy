/** The newer generation's error codes and packed result
    (include/binaryio/binary_types.hpp). `IOResult` keeps a magnitude and a
    3-bit error code in one 64-bit `IOSize`: the magnitude shifted left by three
    with the code in the low bits. */
module BinaryTypes {
  import opened Arithmetic

  /** 2^64: the range of `IOSize` (`std::uint64_t`). */
  const IOSizeRange: nat := 0x1_0000_0000_0000_0000

  /** 2^61: the magnitudes that survive the shift by three. */
  const ValueRange: nat := 0x2000_0000_0000_0000

  datatype IOErrorCode =
    | Success
    | EndOfStream
    | AllocationFailure
    | ReadError
    | SeekError
    | InvalidData
    | InvalidOperation
    | UnknownError

  /** The enumerator's underlying `std::uint8_t` value; all eight fit in 3 bits. */
  function Code(e: IOErrorCode): (c: nat)
    ensures c < 8
  {
    match e
    case Success => 0
    case EndOfStream => 1
    case AllocationFailure => 2
    case ReadError => 3
    case SeekError => 4
    case InvalidData => 5
    case InvalidOperation => 6
    case UnknownError => 7
  }

  /** `IOErrorCode(c)` for a code below 8. */
  function FromCode(c: nat): (e: IOErrorCode)
    requires c < 8
    ensures Code(e) == c
  {
    if c == 0 then Success
    else if c == 1 then EndOfStream
    else if c == 2 then AllocationFailure
    else if c == 3 then ReadError
    else if c == 4 then SeekError
    else if c == 5 then InvalidData
    else if c == 6 then InvalidOperation
    else UnknownError
  }

  /** Converting a code to its value and back is the identity. */
  lemma FromCodeOfCode(e: IOErrorCode)
    ensures FromCode(Code(e)) == e
  {
  }

  /** Where a seek offset is counted from. */
  datatype SeekOrigin = Begin | Current | End

  /** The packed 64-bit word. */
  datatype IOResult = IOResult(value: nat)

  /** `IOResult(valid_value, error_code)`: `valid_value << 3 | error_code` in 64
      bits. The shift drops the magnitude's top three bits and leaves the low
      three bits zero, so OR-ing in the code is adding it. */
  function Make(v: nat, e: IOErrorCode): (r: IOResult)
    ensures r.value < IOSizeRange
  {
    IOResult((v * 8) % IOSizeRange + Code(e))
  }

  /** `IOResult(error_code)`: magnitude zero. */
  function FromError(e: IOErrorCode): IOResult
  {
    Make(0, e)
  }

  /** `IOResult(valid_value)`: `Success` with a magnitude. */
  function FromSize(v: nat): IOResult
  {
    Make(v, Success)
  }

  /** `ErrorCode()`: `IOErrorCode(value & 0x7)`. */
  function ErrorCode(r: IOResult): IOErrorCode
  {
    FromCode(r.value % 8)
  }

  /** `Value()`: `value >> 3`. */
  function Value(r: IOResult): nat
  {
    r.value / 8
  }

  /** The packed word splits into the magnitude's low 61 bits and the code. */
  lemma MakeSplits(v: nat, e: IOErrorCode)
    ensures Make(v, e).value / 8 == v % ValueRange
    ensures Make(v, e).value % 8 == Code(e)
  {
    DivModUnique(v * 8, IOSizeRange, v / ValueRange, (v % ValueRange) * 8);
    DivModUnique(Make(v, e).value, 8, v % ValueRange, Code(e));
  }

  /** Every error code survives packing, whatever the magnitude. */
  lemma ErrorCodeOfMake(v: nat, e: IOErrorCode)
    ensures ErrorCode(Make(v, e)) == e
  {
    MakeSplits(v, e);
    FromCodeOfCode(e);
  }

  /** The magnitude survives packing exactly when it is below 2^61; a larger
      one loses its top three bits. */
  lemma ValueOfMake(v: nat, e: IOErrorCode)
    ensures Value(Make(v, e)) == v % ValueRange
    ensures Value(Make(v, e)) == v <==> v < ValueRange
  {
    MakeSplits(v, e);
    if v >= ValueRange {
      assert v % ValueRange < ValueRange <= v;
    } else {
      DivModUnique(v, ValueRange, 0, v);
    }
  }

  /** A result built from an error code alone has magnitude zero. */
  lemma FromErrorParts(e: IOErrorCode)
    ensures ErrorCode(FromError(e)) == e && Value(FromError(e)) == 0
  {
    ValueOfMake(0, e);
    ErrorCodeOfMake(0, e);
  }

  /** A result built from a magnitude alone reports `Success`. */
  lemma FromSizeParts(v: nat)
    ensures ErrorCode(FromSize(v)) == Success
    ensures v < ValueRange ==> Value(FromSize(v)) == v
  {
    ErrorCodeOfMake(v, Success);
    ValueOfMake(v, Success);
  }

  /** Packing is lossless on the magnitudes it keeps: two results with
      magnitudes below 2^61 are equal exactly when both parts are. */
  lemma MakeInjective(v1: nat, e1: IOErrorCode, v2: nat, e2: IOErrorCode)
    requires v1 < ValueRange && v2 < ValueRange
    ensures Make(v1, e1) == Make(v2, e2) <==> v1 == v2 && e1 == e2
  {
    ValueOfMake(v1, e1);
    ValueOfMake(v2, e2);
    ErrorCodeOfMake(v1, e1);
    ErrorCodeOfMake(v2, e2);
  }
}

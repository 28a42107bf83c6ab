/** The older generation's `assetio::IOResult` and its `operator+=`
    (include/assetio/binary_stream.hpp). */
module AssetResult {

  /** The error listing of a read or write. Its numbering differs from the newer
      generation's `IOErrorCode`: there is no `InvalidOperation` here, so
      `UnknownError` is 6. */
  datatype IOResult =
    | Success
    | EndOfStream
    | AllocationFailure
    | ReadError
    | SeekError
    | InvalidData
    | UnknownError

  /** The enumerator's underlying value. */
  function Code(r: IOResult): (c: nat)
    ensures c < 7
    ensures r == Success <==> c == 0
  {
    match r
    case Success => 0
    case EndOfStream => 1
    case AllocationFailure => 2
    case ReadError => 3
    case SeekError => 4
    case InvalidData => 5
    case UnknownError => 6
  }

  /** `lhs += rhs`: a non-`Success` right-hand side replaces the left-hand side. */
  function Accumulate(lhs: IOResult, rhs: IOResult): IOResult
  {
    if rhs != Success then rhs else lhs
  }

  /** `acc += rs[0]; acc += rs[1]; ...` in order. */
  function AccumulateAll(acc: IOResult, rs: seq<IOResult>): IOResult
    decreases |rs|
  {
    if |rs| == 0 then acc else AccumulateAll(Accumulate(acc, rs[0]), rs[1..])
  }

  /** The independent reading of a chain of `+=`: the last error in `rs`, or
      the starting value when `rs` holds none. */
  function LastError(acc: IOResult, rs: seq<IOResult>): IOResult
  {
    if |rs| == 0 then acc
    else if rs[|rs| - 1] != Success then rs[|rs| - 1]
    else LastError(acc, rs[..|rs| - 1])
  }

  lemma {:induction false} AccumulateAllSnoc(acc: IOResult, rs: seq<IOResult>, r: IOResult)
    ensures AccumulateAll(acc, rs + [r]) == Accumulate(AccumulateAll(acc, rs), r)
    decreases |rs|
  {
    if |rs| > 0 {
      assert (rs + [r])[1..] == rs[1..] + [r];
      AccumulateAllSnoc(Accumulate(acc, rs[0]), rs[1..], r);
    }
  }

  /** A chain of `+=` keeps the most recent error: a later error overwrites an
      earlier one, and `Success` never clears one. */
  lemma {:induction false} AccumulateAllIsLastError(acc: IOResult, rs: seq<IOResult>)
    ensures AccumulateAll(acc, rs) == LastError(acc, rs)
  {
    if |rs| > 0 {
      var init := rs[..|rs| - 1];
      assert rs == init + [rs[|rs| - 1]];
      AccumulateAllSnoc(acc, init, rs[|rs| - 1]);
      AccumulateAllIsLastError(acc, init);
    }
  }

  /** A chain of `+=` ends in `Success` exactly when it starts there and every
      right-hand side is `Success`. */
  lemma {:induction false} LastErrorSuccess(acc: IOResult, rs: seq<IOResult>)
    ensures LastError(acc, rs) == Success <==> acc == Success && forall i :: 0 <= i < |rs| ==> rs[i] == Success
  {
    if |rs| > 0 {
      var init := rs[..|rs| - 1];
      LastErrorSuccess(acc, init);
      if rs[|rs| - 1] == Success {
        assert forall i :: 0 <= i < |rs| - 1 ==> rs[i] == init[i];
      }
    }
  }
}

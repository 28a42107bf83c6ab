/** The older generation's sticky-error writer: `ByteWriterView`
    (src/binary_io.cpp) bound to the fixed-capacity `Buffer` sink of
    `byteWriterViewFromBuffer`. */
module AssetWriter {
  import opened Wrappers
  import opened EndianCodec
  import opened AssetResult

  // ------------------------------------------------------------------
  // Specification: the writer as a value
  // ------------------------------------------------------------------

  /** What a writer over a buffer amounts to: the bytes written so far, the
      buffer's capacity and the recorded result. */
  datatype WriterState = WriterState(contents: seq<byte>, capacity: nat, lastResult: IOResult)

  predicate WriterInv(s: WriterState)
  {
    |s.contents| <= s.capacity
  }

  /** The buffer callback on `bytes`: append when they fit, else `EndOfStream`. */
  function Append(s: WriterState, bytes: seq<byte>): (r: WriterState)
  {
    if |s.contents| + |bytes| <= s.capacity then s.(contents := s.contents + bytes, lastResult := Success)
    else s.(lastResult := EndOfStream)
  }

  /** One `write(bytes, n)`: `None` is a null pointer; nothing reaches the sink
      unless the bytes are non-null and non-empty and no error is recorded. */
  function WriteStep(s: WriterState, bytes: Option<seq<byte>>): (r: WriterState)
    ensures WriterInv(s) ==> WriterInv(r)
    ensures r.capacity == s.capacity
    ensures s.lastResult != Success ==> r == s
  {
    if bytes.Some? && |bytes.value| != 0 && s.lastResult == Success then Append(s, bytes.value) else s
  }

  /** A sequence of `write` calls in order. */
  function WriteAll(s: WriterState, writes: seq<Option<seq<byte>>>): WriterState
  {
    if |writes| == 0 then s else WriteStep(WriteAll(s, writes[..|writes| - 1]), writes[|writes| - 1])
  }

  /** Everything the calls ask to write, in order (null pointers contribute nothing). */
  function Flatten(writes: seq<Option<seq<byte>>>): seq<byte>
  {
    if |writes| == 0 then []
    else Flatten(writes[..|writes| - 1]) + (if writes[|writes| - 1].Some? then writes[|writes| - 1].value else [])
  }

  /** Once an error is recorded, no later write reaches the sink or changes anything. */
  lemma {:induction false} StickyError(s: WriterState, writes: seq<Option<seq<byte>>>)
    requires s.lastResult != Success
    ensures WriteAll(s, writes) == s
  {
    if |writes| > 0 {
      StickyError(s, writes[..|writes| - 1]);
    }
  }

  /** Writes whose total fits in the remaining capacity all land, in order, and
      leave the result `Success`. */
  lemma {:induction false} WriteAllFits(s: WriterState, writes: seq<Option<seq<byte>>>)
    requires s.lastResult == Success
    requires |s.contents| + |Flatten(writes)| <= s.capacity
    ensures WriteAll(s, writes) == s.(contents := s.contents + Flatten(writes))
  {
    if |writes| > 0 {
      var init := writes[..|writes| - 1];
      WriteAllFits(s, init);
      assert s.contents + Flatten(init) + (if writes[|writes| - 1].Some? then writes[|writes| - 1].value else [])
        == s.contents + Flatten(writes);
    }
  }

  /** A writer that still reports `Success` has written every byte it was given. */
  lemma {:induction false} SuccessMeansAllWritten(s: WriterState, writes: seq<Option<seq<byte>>>)
    requires WriteAll(s, writes).lastResult == Success
    ensures s.lastResult == Success
    ensures WriteAll(s, writes).contents == s.contents + Flatten(writes)
  {
    if |writes| > 0 {
      var init := writes[..|writes| - 1];
      var mid := WriteAll(s, init);
      assert mid.lastResult == Success;
      SuccessMeansAllWritten(s, init);
      assert s.contents + Flatten(init) + (if writes[|writes| - 1].Some? then writes[|writes| - 1].value else [])
        == s.contents + Flatten(writes);
    }
  }

  // ------------------------------------------------------------------
  // The buffer sink
  // ------------------------------------------------------------------

  /** `assetio::Buffer`: caller-owned storage of `capacity` bytes, of which the
      first `written` hold data. */
  class Buffer {
    const ptr: array<byte>
    var written: nat
    const capacity: nat

    predicate Valid()
      reads this
    {
      capacity <= ptr.Length && written <= capacity
    }

    function Contents(): seq<byte>
      reads this, ptr
      requires Valid()
    {
      ptr[..written]
    }

    constructor (ptr: array<byte>, capacity: nat)
      requires capacity <= ptr.Length
      ensures Valid()
      ensures this.ptr == ptr && this.capacity == capacity && written == 0
    {
      this.ptr := ptr;
      this.capacity := capacity;
      written := 0;
    }

    /** The write callback of `byteWriterViewFromBuffer`. */
    method Append(bytes: seq<byte>) returns (r: IOResult)
      requires Valid()
      modifies this, ptr
      ensures Valid()
      ensures old(written) + |bytes| <= capacity ==>
        r == Success && written == old(written) + |bytes| &&
        ptr[..] == old(ptr[..])[..old(written)] + bytes + old(ptr[..])[written..]
      ensures old(written) + |bytes| > capacity ==>
        r == EndOfStream && written == old(written) && ptr[..] == old(ptr[..])
    {
      if written + |bytes| <= capacity {
        forall i | 0 <= i < |bytes| {
          ptr[written + i] := bytes[i];
        }
        written := written + |bytes|;
        r := Success;
      } else {
        r := EndOfStream;
      }
    }
  }

  // ------------------------------------------------------------------
  // The writer view
  // ------------------------------------------------------------------

  /** `ByteWriterView` whose callback is the buffer callback and whose
      `user_data` is `sink`. */
  class ByteWriterView {
    const sink: Buffer
    var lastResult: IOResult

    predicate Valid()
      reads this, sink
    {
      sink.Valid()
    }

    function State(): WriterState
      reads this, sink, sink.ptr
      requires Valid()
    {
      WriterState(sink.Contents(), sink.capacity, lastResult)
    }

    /** `byteWriterViewFromBuffer(buffer)`: the view starts in `Success`. */
    constructor FromBuffer(buffer: Buffer)
      requires buffer.Valid()
      ensures Valid()
      ensures sink == buffer
      ensures State() == WriterState(buffer.Contents(), buffer.capacity, Success)
    {
      sink := buffer;
      lastResult := Success;
    }

    /** `write(bytes, n)`. */
    method Write(bytes: Option<seq<byte>>) returns (r: IOResult)
      requires Valid()
      modifies this, sink, sink.ptr
      ensures Valid()
      ensures State() == WriteStep(old(State()), bytes)
      ensures sink.ptr[sink.written..] == old(sink.ptr[..])[sink.written..]
      ensures r == lastResult
    {
      if bytes.Some? && |bytes.value| != 0 && lastResult == Success {
        lastResult := sink.Append(bytes.value);
      }
      r := lastResult;
    }

    /** `end()`: the sink is told the stream ended (a null, empty write) unless
        an error is recorded; the recorded result is returned and reset. */
    method End() returns (r: IOResult)
      requires Valid()
      modifies this, sink, sink.ptr
      ensures Valid()
      ensures r == old(lastResult)
      ensures State() == old(State()).(lastResult := Success)
      ensures sink.ptr[..] == old(sink.ptr[..])
    {
      if lastResult == Success {
        lastResult := sink.Append([]);
      }
      r := lastResult;
      lastResult := Success;
    }
  }
}

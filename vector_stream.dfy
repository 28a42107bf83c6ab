/** The growable vector stream of the newer generation (`IOStream_FromVector`
    in include/binaryio/binary_stream_ext.hpp): a `std::vector<uint8_t>` with a
    cursor kept in the stream's user data. Its Read and Write go through
    `MemoryStream_CopyBytes`, whose body is not part of this model; it is given
    the contract in `CopyCount` and `CopyResult`. A failing `resize` is an
    `AllocOutcome` chosen by the caller. */
module VectorStream {
  import opened EndianCodec
  import opened BinaryTypes
  import opened BinaryStream

  /** What `std::vector::resize` does when it has to grow the vector. */
  datatype AllocOutcome = Allocated | BadAlloc | OtherException

  /** The vector's contents and the stream's cursor (`user_data.values[1]`). */
  datatype VectorState = VectorState(elems: seq<byte>, cursor: nat)

  /** The cursor never runs past the vector's end. */
  predicate VectorInv(s: VectorState)
  {
    s.cursor <= |s.elems|
  }

  /** `std::vector::resize(size)`: keeps the common prefix and zero-fills any growth. */
  function Resized(elems: seq<byte>, size: nat): (r: seq<byte>)
    ensures |r| == size
    ensures forall i :: 0 <= i < size && i < |elems| ==> r[i] == elems[i]
    ensures forall i :: |elems| <= i < size ==> r[i] == 0
  {
    if size <= |elems| then elems[..size] else elems + Zeros(size - |elems|)
  }

  /** `MemoryStream_CopyBytes`: how many bytes it copies, at most what is wanted
      and what either side holds. */
  function CopyCount(numDestination: nat, numSource: nat, desired: nat): (k: nat)
    ensures k <= desired && k <= numDestination && k <= numSource
    ensures k == desired || k == numDestination || k == numSource
  {
    if desired <= numDestination && desired <= numSource then desired
    else if numDestination <= numSource then numDestination
    else numSource
  }

  /** `MemoryStream_CopyBytes`'s result: the count, flagged `EndOfStream` when short. */
  function CopyResult(k: nat, desired: nat): IOResult
  {
    if k == desired then FromSize(k) else Make(k, EndOfStream)
  }

  // ------------------------------------------------------------------
  // The three lambdas as functions of the state
  // ------------------------------------------------------------------

  /** The `Read` lambda: copy from the cursor on, as many bytes as are wanted and left. */
  function ReadCount(s: VectorState, n: nat): nat
    requires VectorInv(s)
  {
    CopyCount(n, |s.elems| - s.cursor, n)
  }

  /** The bytes the `Read` lambda copies into the destination. */
  function ReadBytes(s: VectorState, n: nat): seq<byte>
    requires VectorInv(s)
  {
    s.elems[s.cursor..s.cursor + ReadCount(s, n)]
  }

  /** The state after the `Read` lambda. */
  function AfterVectorRead(s: VectorState, n: nat): VectorState
    requires VectorInv(s)
  {
    s.(cursor := s.cursor + ReadCount(s, n))
  }

  /** The result of the `Read` lambda. */
  function ReadReply(s: VectorState, n: nat): IOResult
    requires VectorInv(s)
  {
    CopyResult(ReadCount(s, n), n)
  }

  /** The `Write` lambda: grow to `cursor + n` if needed, then copy the source
      in at the cursor. */
  function WriteOutcome(s: VectorState, source: seq<byte>, alloc: AllocOutcome): (IOResult, VectorState)
    requires VectorInv(s)
  {
    var needed := s.cursor + |source|;
    if needed > |s.elems| && alloc == BadAlloc then (FromError(AllocationFailure), s)
    else if needed > |s.elems| && alloc == OtherException then (FromError(UnknownError), s)
    else
      var grown := if needed > |s.elems| then Resized(s.elems, needed) else s.elems;
      var k := CopyCount(|grown| - s.cursor, |source|, |source|);
      (CopyResult(k, |source|),
       VectorState(grown[..s.cursor] + source[..k] + grown[s.cursor + k..], s.cursor + k))
  }

  /** The target the `Seek` lambda computes. */
  function SeekPosition(s: VectorState, offset: int, origin: SeekOrigin): int
  {
    match origin
    case Begin => offset
    case Current => offset + s.cursor
    case End => offset + |s.elems|
  }

  /** The `Seek` lambda: reject a negative target, grow the vector for a
      target past its end, then move the cursor. */
  function SeekOutcome(s: VectorState, offset: int, origin: SeekOrigin, alloc: AllocOutcome): (IOResult, VectorState)
  {
    var pos := SeekPosition(s, offset, origin);
    if pos < 0 then (FromError(SeekError), s)
    else if pos > |s.elems| && alloc == BadAlloc then (FromError(AllocationFailure), s)
    else if pos > |s.elems| && alloc == OtherException then (FromError(UnknownError), s)
    else if pos > |s.elems| then (FromError(Success), VectorState(Resized(s.elems, pos), pos))
    else (FromError(Success), s.(cursor := pos))
  }

  // ------------------------------------------------------------------
  // What the lambdas promise
  // ------------------------------------------------------------------

  /** Reading copies the bytes at the cursor, never more than wanted; it
      succeeds exactly when enough bytes are left and otherwise reports
      `EndOfStream` with the short count. The vector is untouched. */
  lemma ReadSpec(s: VectorState, n: nat)
    requires VectorInv(s) && n < ValueRange
    ensures var k := ReadCount(s, n);
      k <= n &&
      ReadBytes(s, n) == s.elems[s.cursor..s.cursor + k] &&
      AfterVectorRead(s, n) == VectorState(s.elems, s.cursor + k) &&
      VectorInv(AfterVectorRead(s, n)) &&
      Value(ReadReply(s, n)) == k
    ensures ErrorCode(ReadReply(s, n)) == Success <==> n <= |s.elems| - s.cursor
    ensures ErrorCode(ReadReply(s, n)) != Success ==>
      ErrorCode(ReadReply(s, n)) == EndOfStream && ReadCount(s, n) == |s.elems| - s.cursor
  {
    var k := ReadCount(s, n);
    if k == n {
      FromSizeParts(k);
    } else {
      ErrorCodeOfMake(k, EndOfStream);
      ValueOfMake(k, EndOfStream);
    }
  }

  /** Writing `n` bytes at cursor `c` succeeds unless growing was needed and
      the allocation failed. On success the vector has size `max(old, c + n)`,
      bytes `[c, c + n)` are the source, every other old byte is kept, and the
      cursor moves past the written bytes. On failure
      nothing changes and the error is `AllocationFailure` or `UnknownError`. */
  lemma WriteSpec(s: VectorState, source: seq<byte>, alloc: AllocOutcome)
    requires VectorInv(s) && |source| < ValueRange
    ensures var (r, t) := WriteOutcome(s, source, alloc);
      var c, n := s.cursor, |source|;
      (ErrorCode(r) == Success <==> c + n <= |s.elems| || alloc == Allocated) &&
      (ErrorCode(r) == Success ==>
        Value(r) == n &&
        |t.elems| == (if c + n > |s.elems| then c + n else |s.elems|) &&
        t.elems[c..c + n] == source &&
        t.elems[..c] == s.elems[..c] &&
        (forall i :: c + n <= i < |s.elems| ==> t.elems[i] == s.elems[i]) &&
        t.cursor == c + n && VectorInv(t)) &&
      (ErrorCode(r) != Success ==>
        t == s && Value(r) == 0 &&
        ErrorCode(r) == (if alloc == BadAlloc then AllocationFailure else UnknownError))
  {
    var (r, t) := WriteOutcome(s, source, alloc);
    var c, n := s.cursor, |source|;
    if c + n > |s.elems| && alloc != Allocated {
      FromErrorParts(AllocationFailure);
      FromErrorParts(UnknownError);
    } else {
      var grown := if c + n > |s.elems| then Resized(s.elems, c + n) else s.elems;
      assert CopyCount(|grown| - c, n, n) == n;
      assert t.elems == grown[..c] + source + grown[c + n..];
      FromSizeParts(n);
      assert t.elems[c..c + n] == source;
      assert t.elems[..c] == grown[..c];
    }
  }

  /** A write never shrinks the vector and keeps the cursor within it. */
  lemma WriteNeverShrinks(s: VectorState, source: seq<byte>, alloc: AllocOutcome)
    requires VectorInv(s)
    ensures |WriteOutcome(s, source, alloc).1.elems| >= |s.elems|
    ensures VectorInv(WriteOutcome(s, source, alloc).1)
  {
  }

  /** Seeking: a negative target is a `SeekError`; a target inside `[0, size]`
      moves the cursor there; a target past the end grows the vector to exactly
      the target, zero-filled, and moves the cursor there; a failed allocation
      changes nothing. Every outcome has magnitude zero, and only a refused or
      failed seek leaves the state as it was. */
  lemma SeekSpec(s: VectorState, offset: int, origin: SeekOrigin, alloc: AllocOutcome)
    requires VectorInv(s)
    ensures var (r, t) := SeekOutcome(s, offset, origin, alloc);
      var pos := SeekPosition(s, offset, origin);
      Value(r) == 0 && VectorInv(t) &&
      (pos < 0 ==> ErrorCode(r) == SeekError && t == s) &&
      (0 <= pos <= |s.elems| ==> ErrorCode(r) == Success && t == VectorState(s.elems, pos)) &&
      (pos > |s.elems| && alloc == Allocated ==>
        ErrorCode(r) == Success && t.cursor == pos && |t.elems| == pos &&
        t.elems[..|s.elems|] == s.elems && (forall i :: |s.elems| <= i < pos ==> t.elems[i] == 0)) &&
      (pos > |s.elems| && alloc != Allocated ==>
        t == s && ErrorCode(r) == (if alloc == BadAlloc then AllocationFailure else UnknownError))
  {
    FromErrorParts(Success);
    FromErrorParts(SeekError);
    FromErrorParts(AllocationFailure);
    FromErrorParts(UnknownError);
  }

  /** Bytes written at the cursor, sought back to and read again come back as
      written, with `Success`. */
  lemma WriteSeekRead(s: VectorState, source: seq<byte>, alloc: AllocOutcome)
    requires VectorInv(s) && |source| < ValueRange
    requires s.cursor + |source| <= |s.elems| || alloc == Allocated
    ensures var t := WriteOutcome(s, source, alloc).1;
      var u := SeekOutcome(t, s.cursor, Begin, alloc).1;
      VectorInv(u) &&
      ReadBytes(u, |source|) == source &&
      ErrorCode(ReadReply(u, |source|)) == Success
  {
    WriteSpec(s, source, alloc);
    var t := WriteOutcome(s, source, alloc).1;
    SeekSpec(t, s.cursor, Begin, alloc);
    var u := SeekOutcome(t, s.cursor, Begin, alloc).1;
    ReadSpec(u, |source|);
  }

  // ------------------------------------------------------------------
  // The stream object
  // ------------------------------------------------------------------

  /** A `std::vector<uint8_t>` the caller owns. */
  class ByteVector {
    var elems: seq<byte>

    constructor (elems: seq<byte>)
      ensures this.elems == elems
    {
      this.elems := elems;
    }
  }

  /** The `IOStream` that `IOStream_FromVector` returns: the vector's handle
      in `user_data.values[0]`, the cursor in `user_data.values[1]`. */
  class VectorIOStream {
    const vector: ByteVector
    var cursor: nat
    const bound: set<Operation>

    predicate Valid()
      reads this, vector
    {
      VectorInv(State())
    }

    function State(): VectorState
      reads this, vector
    {
      VectorState(vector.elems, cursor)
    }

    /** `IOStream_FromVector`: Size, Read, Write and Seek bound, no Close,
        cursor zero. */
    constructor FromVector(buffer: ByteVector)
      ensures vector == buffer && cursor == 0
      ensures bound == {SizeOp, ReadOp, WriteOp, SeekOp}
      ensures Valid()
    {
      vector := buffer;
      cursor := 0;
      bound := {SizeOp, ReadOp, WriteOp, SeekOp};
    }

    /** The `Size` lambda: a successful result carrying the vector's length. */
    method Size() returns (r: IOResult)
      requires |vector.elems| < ValueRange
      ensures ErrorCode(r) == Success && Value(r) == |vector.elems|
    {
      r := FromSize(|vector.elems|);
      FromSizeParts(|vector.elems|);
    }

    /** The `Read` lambda into the first `n` bytes of `destination`. */
    method Read(destination: array<byte>, n: nat) returns (r: IOResult)
      requires Valid() && n <= destination.Length
      modifies this, destination
      ensures Valid() && State() == AfterVectorRead(old(State()), n)
      ensures r == ReadReply(old(State()), n)
      ensures destination[..ReadCount(old(State()), n)] == ReadBytes(old(State()), n)
      ensures forall i :: ReadCount(old(State()), n) <= i < destination.Length ==> destination[i] == old(destination[i])
    {
      var k := CopyCount(n, |vector.elems| - cursor, n);
      forall i | 0 <= i < k {
        destination[i] := vector.elems[cursor + i];
      }
      r := CopyResult(k, n);
      cursor := cursor + k;
    }

    /** The `Write` lambda. */
    method Write(source: seq<byte>, alloc: AllocOutcome) returns (r: IOResult)
      requires Valid()
      modifies this, vector
      ensures Valid()
      ensures (r, State()) == WriteOutcome(old(State()), source, alloc)
    {
      var neededSize := cursor + |source|;
      if neededSize > |vector.elems| {
        match alloc {
          case BadAlloc => return FromError(AllocationFailure);
          case OtherException => return FromError(UnknownError);
          case Allocated => vector.elems := Resized(vector.elems, neededSize);
        }
      }
      var k := CopyCount(|vector.elems| - cursor, |source|, |source|);
      vector.elems := vector.elems[..cursor] + source[..k] + vector.elems[cursor + k..];
      r := CopyResult(k, |source|);
      cursor := cursor + k;
    }

    /** The `Seek` lambda. */
    method Seek(offset: int, origin: SeekOrigin, alloc: AllocOutcome) returns (r: IOResult)
      requires Valid()
      modifies this, vector
      ensures Valid()
      ensures (r, State()) == SeekOutcome(old(State()), offset, origin, alloc)
    {
      var finalSeekPos := offset;
      if origin == Current {
        finalSeekPos := finalSeekPos + cursor;
      } else if origin == End {
        finalSeekPos := finalSeekPos + |vector.elems|;
      }
      if finalSeekPos >= 0 {
        if finalSeekPos > |vector.elems| {
          match alloc {
            case BadAlloc => return FromError(AllocationFailure);
            case OtherException => return FromError(UnknownError);
            case Allocated =>
              vector.elems := Resized(vector.elems, finalSeekPos);
              cursor := finalSeekPos;
          }
        } else {
          cursor := finalSeekPos;
        }
        return FromError(Success);
      }
      return FromError(SeekError);
    }
  }
}

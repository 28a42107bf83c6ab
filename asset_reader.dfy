/** The older generation's buffer-centric reader `IByteReader`
    (include/assetio/binary_stream.hpp, src/binary_io.cpp).

    The three pointers `buffer_start <= cursor <= buffer_end` are modelled by the
    bytes of the current window (`buffer_start` to `buffer_end`) and the cursor's
    index in it. A reader made by `fromBuffer` reads its window out of caller
    memory; once that is exhausted the refill function moves the reader into its
    failure state, whose window is a static 16-byte buffer of zeros. */
module AssetReader {
  import opened Arithmetic
  import opened EndianCodec
  import opened AssetResult

  /** The size of the static zero buffer installed by `setFailureState`. */
  const ZeroBufferSize: nat := 16

  /** The two refill functions a reader can be bound to: the one `fromBuffer`
      installs (a memory stream cannot be refilled) and the zero-buffer stub
      `setFailureState` installs. */
  datatype RefillFn = MemoryRefill | FailureRefill

  datatype SeekOrigin = Begin | Current | End

  // ------------------------------------------------------------------
  // Specification: the reader as a value
  // ------------------------------------------------------------------

  datatype ReaderState = ReaderState(window: seq<byte>, cursor: nat, lastResult: IOResult, refill: RefillFn)

  /** `buffer_start <= cursor <= buffer_end`; a memory reader has not failed; a
      failed reader's window is the zero buffer. */
  predicate ReaderInv(s: ReaderState)
  {
    s.cursor <= |s.window| &&
    (s.refill == MemoryRefill ==> s.lastResult == Success) &&
    (s.refill == FailureRefill ==> s.window == Zeros(ZeroBufferSize))
  }

  /** `bufferSize()`. */
  function WindowSize(s: ReaderState): nat
  {
    |s.window|
  }

  /** `numBytesAvailable()`. */
  function Available(s: ReaderState): (n: nat)
    requires ReaderInv(s)
    ensures n <= WindowSize(s)
  {
    |s.window| - s.cursor
  }

  /** The failure state: the zero buffer as window. */
  function ZeroWindow(lastResult: IOResult, cursor: nat): ReaderState
  {
    ReaderState(Zeros(ZeroBufferSize), cursor, lastResult, FailureRefill)
  }

  /** `setFailureState(err)`: record `err`, rebind refill to the stub and run it. */
  function FailureState(err: IOResult): (r: ReaderState)
    ensures ReaderInv(r)
  {
    ZeroWindow(err, 0)
  }

  /** `refill()`: a memory reader fails with `EndOfStream`; a failed reader
      reinstalls the zero buffer and keeps its result. */
  function AfterRefill(s: ReaderState): (r: ReaderState)
    ensures ReaderInv(r) && r.cursor == 0 < |r.window|
  {
    match s.refill
    case MemoryRefill => FailureState(EndOfStream)
    case FailureRefill => ZeroWindow(s.lastResult, 0)
  }

  /** The bytes `read(dst, n)` copies into `dst`. */
  function Delivered(s: ReaderState, n: nat): seq<byte>
    requires ReaderInv(s)
  {
    if n == 0 || s.lastResult != Success then []
    else if n <= Available(s) then s.window[s.cursor..s.cursor + n]
    else if s.refill == MemoryRefill then s.window[s.cursor..]
    else s.window[s.cursor..] + Zeros(n - Available(s))
  }

  /** The reader after `read(dst, n)`. */
  function AfterRead(s: ReaderState, n: nat): (r: ReaderState)
    requires ReaderInv(s)
    ensures ReaderInv(r)
  {
    if n == 0 then s
    else if s.lastResult != Success then (if s.cursor == |s.window| then AfterRefill(s) else s)
    else if n <= Available(s) then s.(cursor := s.cursor + n)
    else if s.refill == MemoryRefill then FailureState(EndOfStream)
    else ZeroWindow(Success, (n - Available(s) - 1) % ZeroBufferSize + 1)
  }

  /** The destination `seek` computes from its origin. */
  function SeekTarget(s: ReaderState, offset: nat, origin: SeekOrigin): int
  {
    match origin
    case Begin => offset
    case Current => s.cursor + offset
    case End => |s.window| - offset
  }

  /** `seek(offset, origin)` on the local buffer: the result and the new state. */
  function SeekResult(s: ReaderState, offset: nat, origin: SeekOrigin): (IOResult, ReaderState)
  {
    var target := SeekTarget(s, offset, origin);
    if 0 <= target <= |s.window| then (Success, s.(cursor := target)) else (SeekError, s)
  }

  // ------------------------------------------------------------------
  // Properties of reading
  // ------------------------------------------------------------------

  /** The reported count never exceeds the request, `Success` means all bytes
      were copied, and from a reader without a recorded error the converse
      holds too. An error recorded on entry is returned without copying. */
  lemma ReadCount(s: ReaderState, n: nat)
    requires ReaderInv(s)
    ensures |Delivered(s, n)| <= n
    ensures AfterRead(s, n).lastResult == Success ==> |Delivered(s, n)| == n
    ensures s.lastResult == Success ==> (AfterRead(s, n).lastResult == Success <==> |Delivered(s, n)| == n)
    ensures s.lastResult != Success ==> Delivered(s, n) == [] && AfterRead(s, n).lastResult == s.lastResult
  {
  }

  /** Reading `n` bytes of a memory reader at cursor `c`: with `n <= size - c`
      the result is `Success` and the bytes `c .. c + n`; otherwise exactly the
      `size - c` remaining bytes and `EndOfStream`. */
  lemma MemoryRead(s: ReaderState, n: nat)
    requires ReaderInv(s) && s.refill == MemoryRefill
    ensures n <= Available(s) ==>
      AfterRead(s, n).lastResult == Success && Delivered(s, n) == s.window[s.cursor..s.cursor + n]
    ensures n > Available(s) ==>
      AfterRead(s, n).lastResult == EndOfStream && Delivered(s, n) == s.window[s.cursor..]
  {
  }

  /** Every further refill of a failed reader returns its error and restores the
      same zero window: refilling is idempotent. */
  lemma RefillIdempotent(err: IOResult)
    ensures AfterRefill(FailureState(err)) == FailureState(err)
    ensures AfterRefill(AfterRefill(FailureState(err))) == AfterRefill(FailureState(err))
    ensures AfterRefill(FailureState(err)).lastResult == err
  {
  }

  lemma WrapWithin(d: nat, k: nat)
    requires d > 0 && (d - 1) % 16 + 1 + k <= 16
    ensures (d + k - 1) % 16 + 1 == (d - 1) % 16 + 1 + k
  {
    DivModUnique(d + k - 1, 16, (d - 1) / 16, (d - 1) % 16 + k);
  }

  lemma WrapPast(d: nat, k: nat)
    requires d > 0 && (d - 1) % 16 + 1 + k > 16
    ensures (d + k - 1) % 16 + 1 == (k - (16 - ((d - 1) % 16 + 1)) - 1) % 16 + 1
  {
    var c := (d - 1) % 16 + 1;
    var j := k - (16 - c) - 1;
    DivModAddMultiple(j, (d - 1) / 16 + 1, 16);
    assert d + k - 1 == j + ((d - 1) / 16 + 1) * 16;
  }

  /** Both reads within the current window. */
  lemma ReadSplitWithin(s: ReaderState, n1: nat, n2: nat)
    requires ReaderInv(s) && s.lastResult == Success && 0 < n1 && 0 < n2 && n1 + n2 <= Available(s)
    ensures Delivered(s, n1) + Delivered(AfterRead(s, n1), n2) == Delivered(s, n1 + n2)
    ensures AfterRead(AfterRead(s, n1), n2) == AfterRead(s, n1 + n2)
  {
    assert s.window[s.cursor..s.cursor + n1] + s.window[s.cursor + n1..s.cursor + n1 + n2]
      == s.window[s.cursor..s.cursor + n1 + n2];
  }

  /** The first read within the window, the second running past its end. */
  lemma ReadSplitCross(s: ReaderState, n1: nat, n2: nat)
    requires ReaderInv(s) && s.lastResult == Success && 0 < n1 <= Available(s) < n1 + n2
    ensures Delivered(s, n1) + Delivered(AfterRead(s, n1), n2) == Delivered(s, n1 + n2)
    ensures AfterRead(AfterRead(s, n1), n2) == AfterRead(s, n1 + n2)
  {
    var m := AfterRead(s, n1);
    assert m == s.(cursor := s.cursor + n1);
    assert Available(m) == Available(s) - n1;
    if s.refill == FailureRefill {
      assert Delivered(m, n2) == s.window[s.cursor + n1..] + Zeros(n1 + n2 - Available(s));
      assert s.window[s.cursor..s.cursor + n1] + s.window[s.cursor + n1..] == s.window[s.cursor..];
    } else {
      assert s.window[s.cursor..s.cursor + n1] + s.window[s.cursor + n1..] == s.window[s.cursor..];
    }
  }

  /** A failed reader with `Success` recorded delivers zeros without end. */
  lemma ReadSplitZeros(s: ReaderState, n1: nat, n2: nat)
    requires ReaderInv(s) && s.lastResult == Success && s.refill == FailureRefill
    requires Available(s) < n1 && 0 < n2
    ensures Delivered(s, n1) + Delivered(AfterRead(s, n1), n2) == Delivered(s, n1 + n2)
    ensures AfterRead(AfterRead(s, n1), n2) == AfterRead(s, n1 + n2)
  {
    var d := n1 - Available(s);
    var c := (d - 1) % 16 + 1;
    var m := AfterRead(s, n1);
    assert m == ZeroWindow(Success, c);
    if n2 <= 16 - c {
      WrapWithin(d, n2);
      assert Delivered(m, n2) == Zeros(n2);
    } else {
      WrapPast(d, n2);
      assert Delivered(m, n2) == Zeros(16 - c) + Zeros(n2 - (16 - c));
    }
    assert Delivered(s, n1) + Zeros(n2) == Delivered(s, n1 + n2);
  }

  /** Two consecutive reads deliver what one read of the combined length
      delivers, and leave the reader in the same state. */
  lemma ReadSplit(s: ReaderState, n1: nat, n2: nat)
    requires ReaderInv(s)
    ensures Delivered(s, n1) + Delivered(AfterRead(s, n1), n2) == Delivered(s, n1 + n2)
    ensures AfterRead(AfterRead(s, n1), n2) == AfterRead(s, n1 + n2)
  {
    if n1 == 0 || n2 == 0 || s.lastResult != Success {
    } else if n1 + n2 <= Available(s) {
      ReadSplitWithin(s, n1, n2);
    } else if n1 <= Available(s) {
      ReadSplitCross(s, n1, n2);
    } else if s.refill == FailureRefill {
      ReadSplitZeros(s, n1, n2);
    }
  }

  /** A seek succeeds exactly when its destination lies in the window; it then
      moves only the cursor, and otherwise changes nothing. */
  lemma SeekOutcome(s: ReaderState, offset: nat, origin: SeekOrigin)
    requires ReaderInv(s)
    ensures var (r, t) := SeekResult(s, offset, origin);
      ReaderInv(t) &&
      (r == Success <==> 0 <= SeekTarget(s, offset, origin) <= |s.window|) &&
      (r == Success ==> t == s.(cursor := SeekTarget(s, offset, origin))) &&
      (r != Success ==> r == SeekError && t == s)
  {
  }

  /** Seeking from the beginning to `k` and from the end to `size - k` agree. */
  lemma SeekBeginEnd(s: ReaderState, k: nat)
    requires k <= |s.window|
    ensures SeekResult(s, k, Begin) == SeekResult(s, |s.window| - k, End)
    ensures SeekResult(s, k, Begin) == (Success, s.(cursor := k))
  {
  }

  /** After a successful seek to `k`, a read of at most `size - k` bytes returns
      the window's bytes from `k` on. */
  lemma SeekThenRead(s: ReaderState, offset: nat, origin: SeekOrigin, n: nat)
    requires ReaderInv(s) && s.lastResult == Success
    requires SeekResult(s, offset, origin).0 == Success
    ensures ReaderInv(SeekResult(s, offset, origin).1)
    ensures var t := SeekTarget(s, offset, origin);
      n <= |s.window| - t ==> Delivered(SeekResult(s, offset, origin).1, n) == s.window[t..t + n]
  {
  }

  // ------------------------------------------------------------------
  // The reader object
  // ------------------------------------------------------------------

  class ByteReader {
    var window: seq<byte>
    var cursor: nat
    var lastResult: IOResult
    var refillFn: RefillFn

    predicate Valid()
      reads this
    {
      ReaderInv(State())
    }

    function State(): ReaderState
      reads this
    {
      ReaderState(window, cursor, lastResult, refillFn)
    }

    /** `bufferSize()`. */
    function BufferSize(): (n: nat)
      reads this
      requires Valid()
      ensures n == WindowSize(State())
    {
      |window|
    }

    /** `numBytesAvailable()`: at most the buffer size. */
    function NumBytesAvailable(): (n: nat)
      reads this
      requires Valid()
      ensures n == Available(State()) && n <= BufferSize()
    {
      |window| - cursor
    }

    /** `IByteReader::fromBuffer(buffer, size)`. */
    constructor FromBuffer(buffer: seq<byte>)
      ensures Valid()
      ensures State() == ReaderState(buffer, 0, Success, MemoryRefill)
    {
      window := buffer;
      cursor := 0;
      lastResult := Success;
      refillFn := MemoryRefill;
    }

    /** The refill stub `setFailureState` installs: point the window at the
        static zero buffer and return the recorded result. */
    method ZeroBufferRefill() returns (r: IOResult)
      requires refillFn == FailureRefill
      modifies this
      ensures State() == ZeroWindow(old(lastResult), 0)
      ensures r == lastResult
    {
      window := Zeros(ZeroBufferSize);
      cursor := 0;
      r := lastResult;
    }

    /** `setFailureState(err)`. The call `refill()` it ends with dispatches to
        the stub just installed, which is called here directly. */
    method SetFailureState(err: IOResult) returns (r: IOResult)
      modifies this
      ensures Valid()
      ensures State() == FailureState(err)
      ensures r == err
    {
      lastResult := err;
      refillFn := FailureRefill;
      r := ZeroBufferRefill();
    }

    /** `refill()` under its documented contract: called with the cursor at
        the end, it leaves `cursor == buffer_start < buffer_end` and returns
        `last_result`. */
    method Refill() returns (r: IOResult)
      requires Valid() && cursor == |window|
      modifies this
      ensures Valid()
      ensures State() == AfterRefill(old(State()))
      ensures cursor == 0 < |window|
      ensures r == lastResult
    {
      match refillFn
      case MemoryRefill =>
        r := SetFailureState(EndOfStream);
      case FailureRefill =>
        r := ZeroBufferRefill();
    }

    /** `seek(offset, origin)` of a reader without a seek function: move the
        cursor within the window, or fail with `SeekError` and leave it. */
    method Seek(offset: nat, origin: SeekOrigin) returns (r: IOResult)
      requires Valid()
      modifies this
      ensures Valid()
      ensures (r, State()) == SeekResult(old(State()), offset, origin)
    {
      var destination: int;
      match origin {
        case Begin =>
          destination := offset;
        case Current =>
          destination := cursor + offset;
        case End =>
          destination := |window| - offset;
      }
      if 0 <= destination <= |window| {
        cursor := destination;
        r := Success;
      } else {
        r := SeekError;
      }
    }

    /** `read(dst, n, &count)`: copies into `dst[0 .. count]`, refilling when the
        window is exhausted and stopping at the first error. */
    method Read(dst: array<byte>, n: nat) returns (r: IOResult, count: nat)
      requires Valid() && n <= dst.Length
      modifies this, dst
      ensures Valid()
      ensures State() == AfterRead(old(State()), n)
      ensures count == |Delivered(old(State()), n)|
      ensures dst[..count] == Delivered(old(State()), n)
      ensures dst[count..] == old(dst[..])[count..]
      ensures r == lastResult
    {
      ghost var s0 := State();
      count := 0;
      while count != n
        invariant Valid() && count <= n
        invariant State() == AfterRead(s0, count)
        invariant dst[..count] == Delivered(s0, count) && |Delivered(s0, count)| == count
        invariant dst[count..] == old(dst[..])[count..]
        decreases n - count
      {
        ghost var cur := State();
        ghost var copied := dst[..count];
        var stop, k := ReadIteration(dst, count, n);
        if stop {
          assert State() == AfterRead(s0, n) && Delivered(s0, n) == Delivered(s0, count) by {
            BreakStep(cur, n - count);
            ReadSplit(s0, count, n - count);
          }
          break;
        }
        assert Delivered(s0, count) + Delivered(cur, k) == Delivered(s0, count + k)
          && AfterRead(cur, k) == AfterRead(s0, count + k) by {
          ReadSplit(s0, count, k);
        }
        assert dst[..count + k] == copied + Delivered(cur, k);
        count := count + k;
      }
      r := lastResult;
    }

    /** One iteration of the loop in `read`, with `count` bytes copied so far:
        refill if the window is exhausted, stop on an error, otherwise copy
        `min(n - count, numBytesAvailable())` bytes and advance the cursor. */
    method ReadIteration(dst: array<byte>, count: nat, n: nat) returns (stop: bool, k: nat)
      requires Valid() && count < n <= dst.Length
      modifies this, dst
      ensures Valid()
      ensures stop ==> State() == RefillIfExhausted(old(State())) && lastResult != Success
      ensures stop ==> dst[..] == old(dst[..])
      ensures !stop ==> 0 < k <= n - count && State() == AfterRead(old(State()), k)
      ensures !stop ==> dst[..] == old(dst[..count]) + Delivered(old(State()), k) + old(dst[count + k..])
    {
      ghost var cur := State();
      if cursor == |window| {
        var refilled := Refill();
      }
      if lastResult != Success {
        return true, 0;
      }
      k := if n - count <= |window| - cursor then n - count else |window| - cursor;
      ghost var before := State();
      MemCopy(dst, count, window[cursor..cursor + k]);
      CopyStep(cur, before, k);
      cursor := cursor + k;
      stop := false;
    }
  }

  /** `memcpy(dst + at, src, |src|)`. */
  method MemCopy(dst: array<byte>, at: nat, src: seq<byte>)
    requires at + |src| <= dst.Length
    modifies dst
    ensures dst[..] == old(dst[..at]) + src + old(dst[at + |src|..])
  {
    forall i | 0 <= i < |src| {
      dst[at + i] := src[i];
    }
  }

  /** The reader as `read` finds it at the top of an iteration: the refill done
      when the window is exhausted. */
  function RefillIfExhausted(s: ReaderState): ReaderState
  {
    if s.cursor == |s.window| then AfterRefill(s) else s
  }

  /** An iteration that stops on an error copies nothing more, and the reader is
      left as a read of any positive remaining length leaves it. */
  lemma BreakStep(cur: ReaderState, m: nat)
    requires ReaderInv(cur) && m > 0
    requires RefillIfExhausted(cur).lastResult != Success
    ensures AfterRead(cur, m) == RefillIfExhausted(cur)
    ensures Delivered(cur, m) == []
  {
  }

  /** An iteration that copies `k` bytes from the (possibly refilled) window
      does what a read of `k` bytes does. */
  lemma CopyStep(cur: ReaderState, before: ReaderState, k: nat)
    requires ReaderInv(cur)
    requires before == RefillIfExhausted(cur) && before.lastResult == Success
    requires 0 < k <= Available(before)
    ensures Delivered(cur, k) == before.window[before.cursor..before.cursor + k]
    ensures AfterRead(cur, k) == before.(cursor := before.cursor + k)
  {
    if cur.cursor == |cur.window| {
      assert Delivered(cur, k) == Zeros(k);
    }
  }
}

/** The older generation's endian helpers over its writer and reader
    (include/assetio/binary_stream.hpp): `writeLE`/`writeBE` through
    `detail::writeXEndian`, `readLE`/`readBE` through `detail::readXEndian`, and
    `swapEndian`. A value of integral type `T` is its `sizeof(T)`-byte pattern. */
module AssetEndian {
  import opened Wrappers
  import opened EndianCodec
  import opened ByteSwap
  import opened AssetResult
  import opened AssetWriter
  import opened AssetReader

  /** `detail::writeXEndian`: one write of the `sizeof(T)` encoded bytes. */
  method WriteXEndian(writer: ByteWriterView, value: nat, width: nat, order: ByteOrder) returns (r: IOResult)
    requires writer.Valid() && ValidWidth(width) && Fits(value, width)
    modifies writer, writer.sink, writer.sink.ptr
    ensures writer.Valid()
    ensures writer.State() == WriteStep(old(writer.State()), Some(ToBytes(order, width, value)))
    ensures r == writer.lastResult
  {
    var bytes := EncodeXEndian(value, width, order);
    r := writer.Write(Some(bytes));
  }

  /** `writeLE`: byte `i` of the value goes to index `i`. */
  method WriteLE(writer: ByteWriterView, value: nat, width: nat) returns (r: IOResult)
    requires writer.Valid() && ValidWidth(width) && Fits(value, width)
    modifies writer, writer.sink, writer.sink.ptr
    ensures writer.Valid()
    ensures writer.State() == WriteStep(old(writer.State()), Some(ToBytes(LittleEndian, width, value)))
    ensures r == writer.lastResult
  {
    r := WriteXEndian(writer, value, width, LittleEndian);
  }

  /** `writeBE`: byte `i` of the value goes to index `sizeof(T) - 1 - i`. */
  method WriteBE(writer: ByteWriterView, value: nat, width: nat) returns (r: IOResult)
    requires writer.Valid() && ValidWidth(width) && Fits(value, width)
    modifies writer, writer.sink, writer.sink.ptr
    ensures writer.Valid()
    ensures writer.State() == WriteStep(old(writer.State()), Some(ToBytes(BigEndian, width, value)))
    ensures r == writer.lastResult
  {
    r := WriteXEndian(writer, value, width, BigEndian);
  }

  /** `detail::readXEndian`: read `sizeof(T)` bytes into a local array and, only
      if the read succeeded, rebuild the value; `*value` is otherwise left as
      it was. The read's result is returned. */
  method ReadXEndian(reader: ByteReader, width: nat, order: ByteOrder, value: nat)
    returns (r: IOResult, newValue: nat)
    requires reader.Valid() && ValidWidth(width)
    modifies reader
    ensures reader.Valid()
    ensures reader.State() == AfterRead(old(reader.State()), width)
    ensures r == reader.lastResult
    ensures r == Success ==>
      (|Delivered(old(reader.State()), width)| == width &&
       newValue == FromBytes(order, Delivered(old(reader.State()), width)))
    ensures r != Success ==> newValue == value
  {
    ghost var s0 := reader.State();
    var bytes := new byte[width];
    var count;
    r, count := reader.Read(bytes, width);
    newValue := value;
    if r == Success {
      ReadCount(s0, width);
      assert bytes[..] == bytes[..count];
      newValue := DecodeXEndian(bytes[..], order);
    }
  }

  /** `readLE`. */
  method ReadLE(reader: ByteReader, width: nat, value: nat) returns (r: IOResult, newValue: nat)
    requires reader.Valid() && ValidWidth(width)
    modifies reader
    ensures reader.Valid()
    ensures reader.State() == AfterRead(old(reader.State()), width)
    ensures r == reader.lastResult
    ensures r == Success ==> newValue == FromBytes(LittleEndian, Delivered(old(reader.State()), width))
    ensures r != Success ==> newValue == value
  {
    r, newValue := ReadXEndian(reader, width, LittleEndian, value);
  }

  /** `readBE`. */
  method ReadBE(reader: ByteReader, width: nat, value: nat) returns (r: IOResult, newValue: nat)
    requires reader.Valid() && ValidWidth(width)
    modifies reader
    ensures reader.Valid()
    ensures reader.State() == AfterRead(old(reader.State()), width)
    ensures r == reader.lastResult
    ensures r == Success ==> newValue == FromBytes(BigEndian, Delivered(old(reader.State()), width))
    ensures r != Success ==> newValue == value
  {
    r, newValue := ReadXEndian(reader, width, BigEndian, value);
  }

  /** Reading back what a buffer writer wrote: a value written with one byte
      order into a buffer with room for it, then read with the same byte order
      by a memory reader over the written bytes positioned where the value
      starts, comes back unchanged and with `Success`. */
  lemma ReadAfterWrite(s: WriterState, order: ByteOrder, width: nat, value: nat)
    requires WriterInv(s) && s.lastResult == Success
    requires ValidWidth(width) && Fits(value, width)
    requires |s.contents| + width <= s.capacity
    ensures var written := WriteStep(s, Some(ToBytes(order, width, value)));
      var reader := ReaderState(written.contents, |s.contents|, Success, MemoryRefill);
      written.lastResult == Success &&
      ReaderInv(reader) &&
      AfterRead(reader, width).lastResult == Success &&
      FromBytes(order, Delivered(reader, width)) == value
  {
    var bytes := ToBytes(order, width, value);
    var written := WriteStep(s, Some(bytes));
    assert written.contents == s.contents + bytes;
    var reader := ReaderState(written.contents, |s.contents|, Success, MemoryRefill);
    assert Delivered(reader, width) == bytes;
    DecodeEncode(order, width, value);
  }

  // ------------------------------------------------------------------
  // swapEndian
  // ------------------------------------------------------------------

  /** The bytes of `v`'s object representation on a `host`-order machine, in
      reverse order. */
  function ReversedObject(host: ByteOrder, w: nat, v: nat): (d: seq<byte>)
    ensures |d| == w
  {
    var src := ToBytes(host, w, v);
    seq(w, i requires 0 <= i < w => src[w - 1 - i])
  }

  /** On a little-endian host the reversed object is the big-endian encoding. */
  lemma ReversedObjectLittle(w: nat, v: nat)
    ensures ReversedObject(LittleEndian, w, v) == ToBytes(BigEndian, w, v)
  {
    var d := ReversedObject(LittleEndian, w, v);
    forall i | 0 <= i < w
      ensures d[i] == ToBytes(BigEndian, w, v)[i]
    {
      assert Position(LittleEndian, w, w - 1 - i) == w - 1 - i;
      assert Position(BigEndian, w, w - 1 - i) == i;
    }
  }

  /** On a big-endian host the reversed object is the little-endian encoding. */
  lemma ReversedObjectBig(w: nat, v: nat)
    ensures ReversedObject(BigEndian, w, v) == ToBytes(LittleEndian, w, v)
  {
    var d := ReversedObject(BigEndian, w, v);
    forall i | 0 <= i < w
      ensures d[i] == ToBytes(LittleEndian, w, v)[i]
    {
      assert Position(BigEndian, w, i) == w - 1 - i;
      assert Position(LittleEndian, w, i) == i;
    }
  }

  /** Reading the little-endian encoding as big-endian also reverses the bytes. */
  lemma BigOfLittleIsReverse(w: nat, v: nat)
    ensures FromBytes(BigEndian, ToBytes(LittleEndian, w, v)) == ReverseBytes(w, v)
  {
    var little := ToBytes(LittleEndian, w, v);
    var big := ToBytes(BigEndian, w, v);
    forall i | 0 <= i < w
      ensures big[i] == little[w - 1 - i]
    {
      BigIsReversedLittle(w, v, i);
    }
    AssembleMirror(little, big, w);
  }

  /** Whatever the host's byte order, reversing the object representation
      reverses the value's bytes. */
  lemma ReversedObjectIsReverse(host: ByteOrder, w: nat, v: nat)
    ensures FromBytes(host, ReversedObject(host, w, v)) == ReverseBytes(w, v)
  {
    match host
    case LittleEndian => ReversedObjectLittle(w, v);
    case BigEndian =>
      ReversedObjectBig(w, v);
      BigOfLittleIsReverse(w, v);
  }

  /** `swapEndian`: copy the object's bytes in reverse order into the result.
      `host` is the byte order of the machine the code runs on. */
  method SwapEndian(value: nat, width: nat, host: ByteOrder) returns (result: nat)
    requires ValidWidth(width) && Fits(value, width)
    ensures result == ReverseBytes(width, value)
  {
    var src := ToBytes(host, width, value);
    ghost var reversed := ReversedObject(host, width, value);
    var dst := new byte[width];
    for i := 0 to width
      invariant forall j :: 0 <= j < i ==> dst[j] == reversed[j]
    {
      assert src[width - i - 1] == reversed[i];
      dst[i] := src[width - i - 1];
    }
    assert dst[..] == reversed;
    ReversedObjectIsReverse(host, width, value);
    result := FromBytes(host, dst[..]);
  }
}

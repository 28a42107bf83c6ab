# BinaryIO in Dafny

This project models the core of BluFedora's BinaryIO, a small C++ library for binary
input and output. The library exists in two generations, and both are modelled.

**The older generation, `assetio`:**

- `ByteWriterView` is a sticky-error writer. It forwards writes to a callback only
  while no error is recorded. `end()` returns the recorded result and resets it. The
  callback modelled is the one that writes into a fixed-capacity `Buffer`.
- `IByteReader` is a buffer-centric reader. Its read loop refills when the window is
  exhausted, stops on an error, and otherwise copies as much as it can. It also has a
  seek over the local window. `setFailureState` installs a permanent 16-byte zero
  window. `fromBuffer` builds the memory reader.
- The `IOResult` accumulation operator `+=`.
- The endian helpers `writeLE/BE`, `readLE/BE` and `swapEndian`.
- The portable byte swaps `byteSwap16/32/64_portable`.
- `rel_ptr`, a relative pointer where zero means null and the stride is
  `sizeof(alignment_type)`, and `rel_array`.

**The newer generation, `binaryIO`:**

- The `IOErrorCode`s and the packed `IOResult`, which holds the magnitude shifted left
  by three with the code in the low three bits.
- The `BufferedIO` window and its refill contract.
- `MemoryStreamData`.
- The default `IOStream`.
- The enum-aware endian helpers.
- The growable vector stream of `IOStream_FromVector`.
- `rel_ptr`, whose null is a sentinel offset and whose stride is `alignment`, and
  `rel_array`.

**How the C++ is represented:**

- Integers of a C++ integral type of `W` bytes are natural numbers below 256^W. A
  signed type uses its two's-complement pattern.
- Shifts and masks are written arithmetically: `x >> 8k` is `x / 256^k`, `x & 0xFF`
  is `x % 256`, and OR of disjoint byte fields is addition.
- Truncation to 64 bits is written out as `% 2^64` where the source relies on it.
- Addresses are integers in a single arena, and `uintptr_t` is 64 bits.
- State that the source changes in place is a Dafny `class` with `modifies` clauses.
  Each such class is paired with a value (`State()`) and specification functions, so
  that properties can be stated as lemmas.

**Two results carry no magnitude:**

- The vector stream's `Seek` returns `IOResult(IOErrorCode::Success)`, whose magnitude
  is zero, rather than the resulting position.
- The newer `readXEndian` returns a bare error code, so its magnitude is also zero.

## Model

| member | source | states |
|---|---|---|
| EndianCodec.Position | include/assetio/binary_stream.hpp:207-217 | the LE index lambda maps byte i to i and the BE one to sizeof(T)-1-i, always inside the array |
| EndianCodec.ToBytes | include/assetio/binary_stream.hpp:159-163 | the array holds exactly sizeof(T) bytes, and byte i of the value, `(v >> 8i) & 0xFF`, sits at convertIndex(i) |
| EndianCodec.EncodeXEndian | include/assetio/binary_stream.hpp:159-163 | the store loop of writeXEndian fills the local array with exactly the encoding ToBytes |
| EndianCodec.DecodeXEndian | include/assetio/binary_stream.hpp:178-183 | the OR-accumulating loop of readXEndian rebuilds FromBytes of the bytes read, and the result fits in sizeof(T) bytes |
| EndianCodec.DecodeEncode | include/assetio/binary_stream.hpp:154-187 | reading back with the byte order that wrote returns the original value, for every width 1, 2, 4, 8 and both orders |
| EndianCodec.EncodeDecode | include/assetio/binary_stream.hpp:168-187 | every byte string is the encoding, in the same order, of the value it decodes to |
| EndianCodec.SignedRoundTrip | include/assetio/binary_stream.hpp:154-187 | a signed value, including its type's minimum and maximum, survives the codec through its two's-complement pattern |
| EndianCodec.BigIsReversedLittle | include/assetio/binary_stream.hpp:207-217 | the big-endian encoding is the little-endian one reversed |
| ByteSwap.ReversedBytes | include/assetio/byte_swap.hpp:27-51 | the reference byte reversal fits in w bytes, and its byte k is byte w-1-k of the input |
| ByteSwap.ReverseBytesInvolution | include/assetio/byte_swap.hpp:27-51 | reversing the bytes twice gives the value back |
| ByteSwap.ByteSwap16AsCodec | include/assetio/byte_swap.hpp:27-31 | byteSwap16_portable equals the reference reversal of 2 bytes |
| ByteSwap.ByteSwap32AsCodec | include/assetio/byte_swap.hpp:33-39 | byteSwap32_portable equals the reference reversal of 4 bytes |
| ByteSwap.ByteSwap64AsCodec | include/assetio/byte_swap.hpp:41-51 | byteSwap64_portable equals the reference reversal of 8 bytes |
| ByteSwap.ByteSwap16Reverses | include/assetio/byte_swap.hpp:27-31 | byteSwap16_portable exchanges the two bytes |
| ByteSwap.ByteSwap32Reverses | include/assetio/byte_swap.hpp:33-39 | byte k of byteSwap32_portable(v) is byte 3-k of v |
| ByteSwap.ByteSwap64Reverses | include/assetio/byte_swap.hpp:41-51 | byte k of byteSwap64_portable(v) is byte 7-k of v |
| ByteSwap.ByteSwap16Involution | include/assetio/byte_swap.hpp:27-31 | byteSwap16_portable stays in 16 bits and is an involution |
| ByteSwap.ByteSwap32Involution | include/assetio/byte_swap.hpp:33-39 | byteSwap32_portable stays in 32 bits and is an involution |
| ByteSwap.ByteSwap64Involution | include/assetio/byte_swap.hpp:41-51 | byteSwap64_portable stays in 64 bits and is an involution |
| ByteSwap.ByteSwap32Example | include/assetio/byte_swap.hpp:33-39 | 0x11223344 becomes 0x44332211 |
| AssetResult.Code | include/assetio/binary_stream.hpp:35-44 | the seven codes are 0 to 6, and Success is exactly code 0 |
| AssetResult.AccumulateAllSnoc | include/assetio/binary_stream.hpp:46-54 | folding one more `+=` onto a chain applies `+=` to the chain's result |
| AssetResult.AccumulateAllIsLastError | include/assetio/binary_stream.hpp:46-54 | a chain of `+=` ends with the last non-Success operand, or the initial value if there is none, so a later error overwrites an earlier one |
| AssetResult.LastErrorSuccess | include/assetio/binary_stream.hpp:46-54 | a chain of `+=` is Success exactly when the initial value and every operand are Success |
| AssetWriter.WriteStep | src/binary_io.cpp:51-59 | a write keeps the written bytes within capacity and keeps the capacity; with an error recorded it changes nothing |
| AssetWriter.StickyError | src/binary_io.cpp:51-59 | once an error is recorded, every later sequence of writes leaves the writer exactly as it was |
| AssetWriter.WriteAllFits | src/binary_io.cpp:207-222 | writes that together fit the buffer append all their bytes in order and stay Success |
| AssetWriter.SuccessMeansAllWritten | src/binary_io.cpp:207-222 | if a writer is still Success after a sequence of writes, it was Success before and every byte was appended in order |
| AssetWriter.Buffer.constructor | include/assetio/binary_stream_ext.hpp:28-33 | a buffer starts with nothing written |
| AssetWriter.Buffer.Append | src/binary_io.cpp:213-220 | the callback succeeds iff written + n <= capacity; on success it copies the source to [written, written+n) and grows written by n; otherwise it returns EndOfStream and changes nothing |
| AssetWriter.ByteWriterView.FromBuffer | src/binary_io.cpp:207-223 | the view over a buffer starts in Success with the buffer's contents |
| AssetWriter.ByteWriterView.Write | src/binary_io.cpp:51-59 | the new state is WriteStep of the old one; the callback runs only for non-null, non-empty bytes while Success; the result is the recorded result; bytes beyond the written ones are untouched |
| AssetWriter.ByteWriterView.End | src/binary_io.cpp:61-70 | returns the previously recorded result, leaves Success recorded, and changes no byte of the buffer |
| AssetReader.Available | include/assetio/binary_stream.hpp:139-140 | numBytesAvailable never exceeds bufferSize |
| AssetReader.AfterRefill | include/assetio/binary_stream.hpp:125-127 | a refill ends with cursor == buffer_start < buffer_end and the invariant holding |
| AssetReader.FailureState | src/binary_io.cpp:151-165 | the failure state satisfies the reader invariant |
| AssetReader.AfterRead | src/binary_io.cpp:74-108 | a read keeps buffer_start <= cursor <= buffer_end |
| AssetReader.ReadCount | src/binary_io.cpp:74-108 | the count never exceeds the request; Success means all bytes were copied, and without an earlier error the converse holds; an error recorded on entry is returned with nothing copied |
| AssetReader.MemoryRead | src/binary_io.cpp:167-181 | from a memory reader at c: n <= size-c gives Success and bytes c..c+n; otherwise exactly the size-c remaining bytes and EndOfStream |
| AssetReader.RefillIdempotent | src/binary_io.cpp:151-165 | after setFailureState(err) every further refill returns err and restores the same 16-byte zero window |
| AssetReader.ReadSplit | src/binary_io.cpp:80-100 | reading n1 then n2 bytes delivers the same bytes and leaves the same state as reading n1+n2 |
| AssetReader.SeekOutcome | src/binary_io.cpp:117-148 | seek succeeds iff the destination (start+off, cursor+off, end-off) lies in the window; then only the cursor moves; otherwise SeekError with nothing changed |
| AssetReader.SeekBeginEnd | src/binary_io.cpp:117-134 | seeking to k from the beginning and to size-k from the end agree |
| AssetReader.SeekThenRead | src/binary_io.cpp:110-149 | after a successful seek to t, a read of at most size-t bytes returns the window's bytes from t on |
| AssetReader.ByteReader.BufferSize | include/assetio/binary_stream.hpp:139 | bufferSize is the window size buffer_end - buffer_start |
| AssetReader.ByteReader.NumBytesAvailable | include/assetio/binary_stream.hpp:140 | numBytesAvailable is buffer_end - cursor and at most bufferSize |
| AssetReader.ByteReader.FromBuffer | src/binary_io.cpp:167-181 | a memory reader starts at the buffer's start, Success, with the memory refill |
| AssetReader.ByteReader.ZeroBufferRefill | src/binary_io.cpp:154-162 | the stub points the window at 16 zero bytes with the cursor at its start and returns the recorded result |
| AssetReader.ByteReader.SetFailureState | src/binary_io.cpp:151-165 | records err, installs the stub, runs it, and returns err |
| AssetReader.ByteReader.Refill | include/assetio/binary_stream.hpp:125-138 | called with cursor == buffer_end, it leaves cursor == buffer_start < buffer_end and returns last_result |
| AssetReader.ByteReader.Seek | src/binary_io.cpp:110-149 | result and new state are SeekResult of the old state |
| AssetReader.ByteReader.Read | src/binary_io.cpp:74-108 | the loop leaves the state AfterRead, copies Delivered into dst[0..count), leaves the rest of dst alone, and returns last_result |
| AssetReader.ByteReader.ReadIteration | src/binary_io.cpp:82-99 | one pass of the loop: refill if exhausted, then stop on error or copy min(left, available) bytes |
| AssetReader.MemCopy | src/binary_io.cpp:96 | memcpy places the source at the cursor and leaves the other bytes alone |
| AssetEndian.WriteXEndian | include/assetio/binary_stream.hpp:154-166 | exactly one write of the sizeof(T) encoded bytes, returning the writer's result |
| AssetEndian.WriteLE | include/assetio/binary_stream.hpp:207-211 | one write of the little-endian encoding |
| AssetEndian.WriteBE | include/assetio/binary_stream.hpp:213-217 | one write of the big-endian encoding |
| AssetEndian.ReadXEndian | include/assetio/binary_stream.hpp:168-187 | reads sizeof(T) bytes; only on Success is *value rebuilt from them, otherwise it is untouched; the read's result is returned |
| AssetEndian.ReadLE | include/assetio/binary_stream.hpp:219-223 | readXEndian with little-endian indices |
| AssetEndian.ReadBE | include/assetio/binary_stream.hpp:225-229 | readXEndian with big-endian indices |
| AssetEndian.ReadAfterWrite | include/assetio/binary_stream.hpp:154-187 | a value written into a buffer with room, then read with the same order from where it starts, comes back with Success |
| AssetEndian.ReversedObjectIsReverse | include/assetio/binary_stream.hpp:190-205 | on either host byte order, reversing the object representation reverses the value's bytes |
| AssetEndian.SwapEndian | include/assetio/binary_stream.hpp:190-205 | the copy loop yields the byte reversal of the value, so swapEndian is an involution by ByteSwap.ReverseBytesInvolution |
| BinaryTypes.Code | include/binaryio/binary_types.hpp:29-39 | all eight error codes are below 8 and so fit the low three bits |
| BinaryTypes.FromCode | include/binaryio/binary_types.hpp:71 | converting a 3-bit value to IOErrorCode inverts Code |
| BinaryTypes.Make | include/binaryio/binary_types.hpp:56-59 | the packed word fits in 64 bits |
| BinaryTypes.MakeSplits | include/binaryio/binary_types.hpp:56-59 | the packed word holds the magnitude's low 61 bits above the code |
| BinaryTypes.ErrorCodeOfMake | include/binaryio/binary_types.hpp:71 | ErrorCode() of IOResult(v, e) is e for every e and v |
| BinaryTypes.ValueOfMake | include/binaryio/binary_types.hpp:72 | Value() of IOResult(v, e) is v mod 2^61, and equals v exactly when v < 2^61 |
| BinaryTypes.FromErrorParts | include/binaryio/binary_types.hpp:61-64 | IOResult(e) has code e and Value() 0 |
| BinaryTypes.FromSizeParts | include/binaryio/binary_types.hpp:66-69 | IOResult(v) has code Success, and Value() v when v < 2^61 |
| BinaryTypes.MakeInjective | include/binaryio/binary_types.hpp:52-73 | for magnitudes below 2^61 the packing is lossless: equal words iff equal parts |
| BinaryStream.BufferedTake | include/binaryio/binary_stream.hpp:37-47 | a take that refills exactly when the window is exhausted (the refill precondition), with a refill meeting its postcondition, keeps buffer_start <= cursor <= buffer_end, takes at most n bytes, and takes at least one byte when any are wanted |
| BinaryStream.DrainDelivers | include/binaryio/binary_stream.hpp:37-47 | because every refill leaves a byte to read, draining n bytes with n refill outcomes available delivers all n bytes |
| BinaryStream.MemoryStreamSpan | include/binaryio/binary_stream.hpp:62-63 | with cursor <= size, BytesLeft is size - cursor and CursorBytes + BytesLeft is the buffer's end; past the end the unsigned subtraction wraps |
| BinaryStream.DefaultIOStream | include/binaryio/binary_stream.hpp:80-90 | a default IOStream has no slot bound, zeroed user data and window, and error_state Success |
| BinaryStream.OfUnderlying | include/binaryio/binary_stream.hpp:182 | casting the rebuilt integer back to T keeps T's kind (integer or enum) and the bit pattern |
| BinaryStream.WriteXEndian | include/binaryio/binary_stream.hpp:149-161 | exactly one write of the sizeof(T) encoded bytes of the underlying integer, so an enum is written as its underlying value; returns the write's result |
| BinaryStream.WriteLE | include/binaryio/binary_stream.hpp:189-193 | one write of the little-endian encoding |
| BinaryStream.WriteBE | include/binaryio/binary_stream.hpp:195-199 | one write of the big-endian encoding |
| BinaryStream.ReadXEndian | include/binaryio/binary_stream.hpp:163-186 | *out_value is set from the bytes only when the read's code is Success and is untouched otherwise; the read's code is returned with magnitude 0 |
| BinaryStream.ReadLE | include/binaryio/binary_stream.hpp:201-205 | readXEndian with little-endian indices |
| BinaryStream.ReadBE | include/binaryio/binary_stream.hpp:207-211 | readXEndian with big-endian indices |
| BinaryStream.ScalarRoundTrip | include/binaryio/binary_stream.hpp:163-186 | reading back with the same order what writeXEndian wrote reconstructs the integer or enumerator |
| VectorStream.Resized | include/binaryio/binary_stream_ext.hpp:56 | resizing keeps the common prefix and zero-fills any growth |
| VectorStream.CopyCount | include/binaryio/binary_stream.hpp:119-125 | the copy moves no more bytes than wanted or than either side holds |
| VectorStream.ReadSpec | include/binaryio/binary_stream_ext.hpp:40-45 | Read copies the bytes at the cursor, never more than wanted, advances the cursor by the count, and succeeds iff enough bytes are left, otherwise EndOfStream with the short count |
| VectorStream.WriteSpec | include/binaryio/binary_stream_ext.hpp:46-69 | Write succeeds unless growth was needed and allocation failed; then the size is max(old, c+n), [c, c+n) holds the source, other bytes are kept and the cursor is c+n; on failure AllocationFailure or UnknownError with nothing changed |
| VectorStream.WriteNeverShrinks | include/binaryio/binary_stream_ext.hpp:46-69 | a write never shrinks the vector and keeps the cursor inside it |
| VectorStream.SeekSpec | include/binaryio/binary_stream_ext.hpp:70-112 | with the target counted from the start, the cursor or the end: a negative target gives SeekError with nothing changed; a target in [0, size] moves the cursor there; a target past the end grows the vector to exactly the target and moves the cursor there; failed allocation changes nothing |
| VectorStream.WriteSeekRead | include/binaryio/binary_stream_ext.hpp:40-112 | bytes written at the cursor, sought back to and read again come back as written, with Success |
| VectorStream.VectorIOStream.FromVector | include/binaryio/binary_stream_ext.hpp:32-117 | a fresh vector stream has cursor 0 and Size, Read, Write and Seek bound but no Close |
| VectorStream.VectorIOStream.Size | include/binaryio/binary_stream_ext.hpp:35-39 | Size returns Success with the vector's length |
| VectorStream.VectorIOStream.Read | include/binaryio/binary_stream_ext.hpp:40-45 | the lambda's result, destination bytes and new cursor are those of ReadSpec's functions |
| VectorStream.VectorIOStream.Write | include/binaryio/binary_stream_ext.hpp:46-69 | the lambda's result and new state are WriteOutcome of the old state |
| VectorStream.VectorIOStream.Seek | include/binaryio/binary_stream_ext.hpp:70-112 | the lambda's result and new state are SeekOutcome of the old state |
| Addresses.CDiv | include/binaryio/rel_ptr.hpp:123 | C++ division truncates toward zero: the quotient lies between 0 and the dividend, and the remainder x - q*d is zero or has the dividend's sign, and is smaller than the divisor in magnitude |
| Addresses.CDivExact | include/binaryio/rel_ptr.hpp:123 | on an exact quotient truncating and Euclidean division agree |
| Addresses.OffsetBounds | include/binaryio/rel_ptr.hpp:52-54 | every offset type has min <= 0 < max, and the sentinel is one of its values |
| RelPtr.CastKeepsPowerOfTwoRemainder | include/binaryio/rel_ptr.hpp:120 | for a power-of-two stride, testing the uintptr_t image of a distance is testing the distance |
| RelPtr.Resolve | include/binaryio/rel_ptr.hpp:97-98 | get() is null exactly for the sentinel and otherwise base() + offset * alignment; the product is exact, and both calculateOffset versions keep it inside its C++ type |
| RelPtr.ProductLimitsStride | include/binaryio/rel_ptr.hpp:98 | get() multiplies in `int` (or `unsigned int`, or 64 bits): with int16_t and stride 4 a target 65536 bytes ahead is reachable, but with int32_t and stride 2 a target 2^31 bytes ahead is not, although 2^30 strides fit int32_t |
| RelPtr.CalculateOffsetAsWritten | include/binaryio/rel_ptr.hpp:114-127 | when both assertions pass, the stored offset fits the offset type, and get()'s product offset * alignment fits the type C++ computes it in |
| RelPtr.CalculateOffset | include/binaryio/rel_ptr.hpp:114-127 | corrected checks: whatever is stored fits the type, get()'s product fits the type C++ computes it in, and get() gives back the assigned pointer, null included |
| RelPtr.CorrectedAgrees | include/binaryio/rel_ptr.hpp:114-127 | with a power-of-two alignment, wherever the source's checks pass and no sentinel is stored, the corrected version accepts the same pointer and stores the same offset |
| RelPtr.SentinelCollision | include/binaryio/rel_ptr.hpp:121 | a distance of exactly k_OffsetMin passes the checks with alignment 1 and reads back as null |
| RelPtr.StrideDoesNotWiden | include/binaryio/rel_ptr.hpp:121 | with int8_t and stride 4 a target 200 bytes away fails the range check although 50 strides fit |
| RelPtr.CastAcceptsMisaligned | include/binaryio/rel_ptr.hpp:120 | with stride 3 a distance of -1 passes the alignment check and reads back as the pointer's own address |
| RelPtr.NullComparison | include/binaryio/rel_ptr.hpp:129-139 | isNull() holds exactly when get() is null, and exactly when the pointer compares equal to a null rel_ptr |
| RelPtr.EqualityByTarget | include/binaryio/rel_ptr.hpp:129-139 | equality compares targets: two pointers at different addresses aimed at one target are equal with different offsets, and one raw offset at two addresses is unequal |
| RelPtr.RelPtrObject.FromNull | include/binaryio/rel_ptr.hpp:56-63 | default and nullptr construction store the sentinel, so isNull() holds and get() is null |
| RelPtr.RelPtrObject.FromPointer | include/binaryio/rel_ptr.hpp:65-68 | construction from a pointer stores calculateOffset, and get() returns that pointer |
| RelPtr.RelPtrObject.Assign | include/binaryio/rel_ptr.hpp:95 | assign stores calculateOffset, and get() then returns the assigned pointer |
| RelPtr.RelPtrObject.AssignNull | include/binaryio/rel_ptr.hpp:96 | assign(nullptr) stores the sentinel, so isNull() holds and get() is null |
| RelPtr.DefaultRelArray | include/binaryio/rel_ptr.hpp:150-151 | a default rel_array is empty with a null begin() |
| RelPtr.ArraySpan | include/binaryio/rel_ptr.hpp:155-160 | end() - begin() == num_elements, and isEmpty() holds iff begin() == end() |
| AssetRelPtr.AlignmentByteCount | include/assetio/rel_ptr.hpp:53 | k_AlignmentByteCount is the byte width 1, 2, 4 or 8 of alignment_type |
| AssetRelPtr.Resolve | include/assetio/rel_ptr.hpp:96-97 | get() is null exactly for offset 0 and otherwise base() + offset strides |
| AssetRelPtr.CalculateOffsetAsWritten | include/assetio/rel_ptr.hpp:113-123 | when both assertions pass, the stored offset fits the offset type (the range check is inclusive) |
| AssetRelPtr.CalculateOffset | include/assetio/rel_ptr.hpp:113-123 | corrected check: a target other than the pointer's own address reads back as itself, and the pointer's own address is stored as 0 and reads back as null |
| AssetRelPtr.AbsoluteAlignmentMisses | include/assetio/rel_ptr.hpp:119 | a pointer at address 2 with a 4-byte stride accepts target 8 and reads it back as 6 |
| AssetRelPtr.CorrectedAgrees | include/assetio/rel_ptr.hpp:113-123 | when the pointer itself is stride-aligned, the source's checks and the corrected ones accept the same targets and store the same offset |
| AssetRelPtr.EqualityByTarget | include/assetio/rel_ptr.hpp:125-133 | equality compares targets: pointers at different addresses aimed at one target are equal with different offsets |
| AssetRelPtr.RelPtrObject.FromNull | include/assetio/rel_ptr.hpp:55-62 | default and nullptr construction store 0, so isNull() holds and get() is null |
| AssetRelPtr.RelPtrObject.FromPointer | include/assetio/rel_ptr.hpp:64-67 | construction from a pointer stores calculateOffset, and get() returns it unless it is the pointer's own address |
| AssetRelPtr.RelPtrObject.Assign | include/assetio/rel_ptr.hpp:94 | assign stores calculateOffset; get() returns the target, or null for the pointer's own address |
| AssetRelPtr.RelPtrObject.AssignNull | include/assetio/rel_ptr.hpp:95 | assign(nullptr) stores 0 and get() is null |
| AssetRelPtr.DefaultRelArray | include/assetio/rel_ptr.hpp:143-144 | a default rel_array is empty with a null begin() |
| AssetRelPtr.ArraySpan | include/assetio/rel_ptr.hpp:148-153 | end() - begin() == num_elements, and isEmpty() holds iff begin() == end() |

## Left out

- `CFileBufferedByteReader`, `byteWriterViewFromFile`, `byteWriterViewFromVector` and `IOStream_FromCFile` are left out. They wrap C stdio or have no body among the modelled sources.
- `binaryIOAssert` and `binaryIOAssertImpl` report and abort. Every assertion becomes a `requires` clause, or in `calculateOffset` an explicit predicate.
- The compiler-intrinsic byte swaps are left out, including the MSVC fallbacks that call the 16-bit portable swap for 32- and 64-bit values. Only the portable functions are modelled.
- The constexpr templates `byteSwap16/32/64<value>()` are left out. Each returns the portable function applied to `value`, so the portable lemmas cover them.
- The bodies of the `IOStream_*` and `BufferedIO_*` dispatch functions, `IOStream_FromRW/ROMemory` and `MemoryStream_CopyBytes` are not part of this model. `MemoryStream_CopyBytes` is given an assumed contract (`VectorStream.CopyCount`, `VectorStream.CopyResult`): it copies the minimum of the wanted count and what either side holds, advances the cursor by that count, and flags a short copy with `EndOfStream`.
- BinaryStream.WriteXEndian: the stream is a `StreamSink` that records each write and answers it with a fixed result. The real `IOStream_Write` dispatch is not modelled.
- BinaryStream.ReadXEndian: the `IOStream_Read` call is replaced by its outcome, the result it returned and the bytes it left in the local array. These are given as parameters.
- AssetWriter.Buffer.Append: `written + num_bytes` is compared as unbounded integers. The `size_t` wrap-around of a huge write is not modelled.
- AssetReader.ByteReader.Seek: the offset is a natural number and pointer arithmetic does not wrap. A CURRENT seek that moves backward through `size_t` wrap-around is not modelled.
- `seek_fn`, a custom seek function of `IByteReader`, is left out. Every modelled reader has it null, so seeks work on the local window.
- Refill functions are limited to the two installed by `fromBuffer` and `setFailureState`. Calling `refill()` on a default reader with a null `refill_fn` is not modelled.
- VectorStream.VectorIOStream.Write: `cursor + num_source_bytes` is not truncated to 64 bits.
- VectorStream.VectorIOStream.Seek: the `IOOffset` additions are not truncated to 64 bits.
- Allocation failure inside `std::vector::resize` is an `AllocOutcome` chosen by the caller. Allocator behaviour is not modelled.
- Memory is modelled as integer addresses and sequences, so raw-pointer mechanics and aliasing between caller buffers are left out.
  - The readers' windows are values.
  - The vector is a sequence held by an object.
  - `rel_ptr` addresses are arena indices.
  - Copying or moving a `binaryIO::rel_ptr`, which silently retargets it, is not modelled.
- Unsigned 64-bit offset types of `binaryIO::rel_ptr` are left out. Their range comparisons go through the usual arithmetic conversions to unsigned, which the model does not capture.
- AssetResult.Accumulate: `operator+=` updates its left operand in place; the model returns the new value instead.
- RelPtr.RelPtrObject.Assign: the precondition is the corrected `RelPtr.CalculateOffset` check, not the source's assertions (see Findings).
- RelPtr.RelPtrObject.FromPointer: it likewise requires the corrected check.
- AssetRelPtr.RelPtrObject.Assign: the precondition is the corrected `AssetRelPtr.CalculateOffset` check, not the source's assertions (see Findings).
- AssetRelPtr.RelPtrObject.FromPointer: it likewise requires the corrected check.
- The chunk header and footer format and CRC-32 are not part of this model.
- Mixing the two generations' error codes is left out. They are separate types (`AssetResult.IOResult` with 7 codes, `BinaryTypes.IOErrorCode` with 8).

## Findings

| source | as written | input that shows it | evidently intended | confidence | as-written member | corrected member |
|---|---|---|---|---|---|---|
| include/binaryio/rel_ptr.hpp:121 | the range check admits a distance equal to `k_OffsetMin`, which with alignment 1 is stored as the null sentinel | `int8_t` offset, alignment 1, pointer at 1000, target 872: both assertions pass and `get()` returns null | the sentinel is not a storable offset, so this assignment fails the check | medium; not executed | RelPtr.SentinelCollision | RelPtr.CalculateOffset |
| include/binaryio/rel_ptr.hpp:121 | the range is checked on the byte distance rather than on the stored stride count, so a larger `alignment` never widens the range as the comment at lines 36-38 says | `int8_t` offset, alignment 4, target 200 bytes ahead: the assertion fails although 50 strides fit | the range applies to `off / alignment`, while `off` itself must still fit the type `get()` multiplies in (`int` up to 4-byte offsets, `unsigned int` for `std::uint32_t`), so the stride widens the range of 1- and 2-byte offset types only | medium; not executed | RelPtr.StrideDoesNotWiden | RelPtr.CalculateOffset |
| include/binaryio/rel_ptr.hpp:120 | alignment is tested on the `uintptr_t` image of the distance, which for a negative distance and an alignment that is not a power of two does not test the distance | alignment 3, pointer at 1000, target 999: the check passes, 0 is stored and `get()` returns 1000 | the distance itself is a multiple of `alignment` | low (alignments are usually powers of two); not executed | RelPtr.CastAcceptsMisaligned | RelPtr.CalculateOffset |
| include/assetio/rel_ptr.hpp:119 | alignment is tested on the absolute target address, not on its distance from the pointer | `int16_t` offset with `uint32_t` stride, pointer at address 2, target 8: both checks pass and `get()` returns 6 | the distance from `base()` is a multiple of the stride | medium; not executed | AssetRelPtr.AbsoluteAlignmentMisses | AssetRelPtr.CalculateOffset |

/** The older generation's relative pointer and relative array
    (include/assetio/rel_ptr.hpp). The offset type is signed; the offset
    counts strides of `sizeof(alignment_type)` bytes from the pointer's own
    address; zero means null. */
module AssetRelPtr {
  import opened Arithmetic
  import opened EndianCodec
  import opened Addresses

  /** A signed `offset_type` of 1, 2, 4 or 8 bytes. */
  predicate ValidSignedOffset(t: OffsetType)
  {
    ValidWidth(t.width) && t.signed
  }

  /** `k_AlignmentByteCount`: the byte width of the unsigned `alignment_type`,
      `digits / CHAR_BIT`. */
  function AlignmentByteCount(digits: nat): (k: nat)
    requires digits == 8 || digits == 16 || digits == 32 || digits == 64
    ensures ValidWidth(k) && k * 8 == digits
  {
    digits / 8
  }

  /** `get()`: null for offset zero, otherwise `base() + offset` strides. */
  function Resolve(k: nat, base: int, offset: int): (p: Pointer)
    ensures p.Null? <==> offset == 0
    ensures p.At? ==> p.addr == base + offset * k
  {
    if offset == 0 then Null else At(base + offset * k)
  }

  /** `reinterpret_cast<const alignment_type*>(rhs) - base`: the distance in
      strides. The subtraction is exact when the distance is a whole number of
      strides; otherwise it rounds down, as the arithmetic shift compilers
      emit for it does. */
  function StrideDistance(k: nat, rhsAddr: int, base: int): int
    requires k > 0
  {
    (rhsAddr - base) / k
  }

  /** The two `binaryIOAssert`s of `calculateOffset`: the ABSOLUTE address of
      `rhs` is a multiple of the stride, and
      `k_OffsetMin <= off <= k_OffsetMax`. */
  predicate AssertsAsWritten(t: OffsetType, k: nat, rhsAddr: int, base: int)
  {
    ValidWidth(k) &&
    (rhsAddr % PointerRange) % k == 0 &&
    OffsetMin(t) <= StrideDistance(k, rhsAddr, base) <= OffsetMax(t)
  }

  /** `calculateOffset` as written: zero for null, otherwise the stride distance. */
  function CalculateOffsetAsWritten(t: OffsetType, k: nat, rhs: Pointer, base: int): (o: int)
    requires ValidSignedOffset(t) && ValidWidth(k)
    requires rhs.At? ==> AssertsAsWritten(t, k, rhs.addr, base)
    ensures OffsetMin(t) <= o <= OffsetMax(t)
  {
    OffsetBounds(t);
    if rhs.Null? then 0 else StrideDistance(k, rhs.addr, base)
  }

  /** The byte distance `off` is a whole number of strides whose count fits
      the offset type. */
  predicate Representable(t: OffsetType, k: nat, off: int)
  {
    ValidWidth(k) &&
    off % k == 0 &&
    OffsetMin(t) <= off / k <= OffsetMax(t)
  }

  /** `rhs` can be stored by a `rel_ptr` at `base`. */
  predicate Assignable(t: OffsetType, k: nat, rhs: Pointer, base: int)
  {
    rhs.At? ==> Representable(t, k, rhs.addr - base)
  }

  /** `calculateOffset` with the alignment checked on the distance from the
      pointer, as evidently intended. A target other than the pointer's own
      address resolves back to itself; the pointer's own address is stored as
      zero and so reads back as null. */
  function CalculateOffset(t: OffsetType, k: nat, rhs: Pointer, base: int): (o: int)
    requires ValidSignedOffset(t) && ValidWidth(k) && Assignable(t, k, rhs, base)
    ensures OffsetMin(t) <= o <= OffsetMax(t)
    ensures rhs != At(base) ==> Resolve(k, base, o) == rhs
    ensures rhs == At(base) ==> o == 0 && Resolve(k, base, o) == Null
  {
    OffsetBounds(t);
    if rhs.Null? then 0
    else
      CDivExact(rhs.addr - base, k);
      StrideDistance(k, rhs.addr, base)
  }

  /** Finding: the alignment check looks at the absolute address, so when the
      pointer itself is not stride-aligned (an `int16_t` offset with a
      `uint32_t` stride, stored at address 2) a stride-aligned target passes
      both checks yet lies between strides: aimed at 8, it reads back as 6.
      The corrected checks refuse it. */
  lemma AbsoluteAlignmentMisses()
    ensures var t := OffsetType(2, true);
      AssertsAsWritten(t, 4, 8, 2) &&
      Resolve(4, 2, CalculateOffsetAsWritten(t, 4, At(8), 2)) == At(6) &&
      !Representable(t, 4, 8 - 2)
  {
    assert Pow256(2) == 0x1_0000 by {
      assert Pow256(1) == 256;
    }
  }

  /** With the pointer itself stride-aligned, the source's checks and the
      corrected ones accept the same targets and store the same offset. */
  lemma CorrectedAgrees(t: OffsetType, k: nat, rhs: Pointer, base: int)
    requires ValidSignedOffset(t) && ValidWidth(k) && rhs.At? && base % k == 0
    ensures AssertsAsWritten(t, k, rhs.addr, base) <==> Representable(t, k, rhs.addr - base)
    ensures AssertsAsWritten(t, k, rhs.addr, base) ==>
      CalculateOffset(t, k, rhs, base) == CalculateOffsetAsWritten(t, k, rhs, base)
  {
    var m := PointerRange / k;
    assert PointerRange == m * k;
    ModOfMultiple(rhs.addr, k, m);
    var q := base / k;
    assert base == q * k;
    assert rhs.addr == (rhs.addr - base) + q * k;
    DivModAddMultiple(rhs.addr - base, q, k);
  }

  // ------------------------------------------------------------------
  // rel_ptr values
  // ------------------------------------------------------------------

  /** A `rel_ptr<offset_type, T, alignment_type>` stored at address `base`,
      with stride `k_AlignmentByteCount`. */
  datatype RelPtrValue = RelPtrValue(offsetType: OffsetType, stride: nat, base: int, offset: int)

  predicate ValidPtr(p: RelPtrValue)
  {
    ValidSignedOffset(p.offsetType) && ValidWidth(p.stride) &&
    OffsetMin(p.offsetType) <= p.offset <= OffsetMax(p.offsetType)
  }

  /** `get()`. */
  function Get(p: RelPtrValue): Pointer
  {
    Resolve(p.stride, p.base, p.offset)
  }

  /** `isNull()`. */
  predicate IsNull(p: RelPtrValue)
  {
    p.offset == 0
  }

  /** `operator==`: the two pointers resolve to the same target. */
  predicate Equals(p: RelPtrValue, q: RelPtrValue)
  {
    Get(p) == Get(q)
  }

  /** Equality compares targets, not raw offsets: two pointers at different
      addresses aimed at the same target are equal with different offsets. */
  lemma EqualityByTarget(p: RelPtrValue, q: RelPtrValue, rhs: Pointer)
    requires ValidPtr(p) && ValidPtr(q) && rhs.At?
    requires p.offsetType == q.offsetType && p.stride == q.stride && p.base != q.base
    requires rhs != At(p.base) && rhs != At(q.base)
    requires Assignable(p.offsetType, p.stride, rhs, p.base) && Assignable(q.offsetType, q.stride, rhs, q.base)
    requires p.offset == CalculateOffset(p.offsetType, p.stride, rhs, p.base)
    requires q.offset == CalculateOffset(q.offsetType, q.stride, rhs, q.base)
    ensures Equals(p, q) && Get(p) == rhs
    ensures p.offset != q.offset
  {
    assert p.offset * p.stride == rhs.addr - p.base;
    assert q.offset * q.stride == rhs.addr - q.base;
  }

  /** A `rel_ptr` object living at address `base`; it cannot be copied or moved. */
  class RelPtrObject {
    const offsetType: OffsetType
    const stride: nat
    const base: int
    var offset: int

    function Value(): RelPtrValue
      reads this
    {
      RelPtrValue(offsetType, stride, base, offset)
    }

    predicate Valid()
      reads this
    {
      ValidPtr(Value())
    }

    /** `rel_ptr()` and `rel_ptr(nullptr)`: offset zero. */
    constructor FromNull(t: OffsetType, k: nat, base: int)
      requires ValidSignedOffset(t) && ValidWidth(k)
      ensures Valid() && Value() == RelPtrValue(t, k, base, 0)
      ensures IsNull(Value()) && Get(Value()) == Null
    {
      offsetType := t;
      stride := k;
      this.base := base;
      offset := 0;
      new;
      OffsetBounds(t);
    }

    /** `rel_ptr(T*)`. */
    constructor FromPointer(t: OffsetType, k: nat, base: int, rhs: Pointer)
      requires ValidSignedOffset(t) && ValidWidth(k) && Assignable(t, k, rhs, base)
      ensures Valid() && Value() == RelPtrValue(t, k, base, CalculateOffset(t, k, rhs, base))
      ensures rhs != At(base) ==> Get(Value()) == rhs
    {
      offsetType := t;
      stride := k;
      this.base := base;
      offset := CalculateOffset(t, k, rhs, base);
    }

    /** `assign(T*)`: afterwards `get()` returns `rhs`, unless `rhs` is the
        pointer's own address, which reads back as null. */
    method Assign(rhs: Pointer)
      requires Valid() && Assignable(offsetType, stride, rhs, base)
      modifies this
      ensures Valid() && offset == CalculateOffset(offsetType, stride, rhs, base)
      ensures rhs != At(base) ==> Get(Value()) == rhs
      ensures rhs == At(base) ==> IsNull(Value())
    {
      offset := CalculateOffset(offsetType, stride, rhs, base);
    }

    /** `assign(nullptr)`. */
    method AssignNull()
      requires Valid()
      modifies this
      ensures Valid() && offset == 0 && Get(Value()) == Null
    {
      offset := 0;
      OffsetBounds(offsetType);
    }
  }

  // ------------------------------------------------------------------
  // rel_array
  // ------------------------------------------------------------------

  /** A `rel_array<TCount, TPtr>`. */
  datatype RelArray = RelArray(elements: RelPtrValue, numElements: nat)

  /** The default `rel_array`: a null pointer and no elements. */
  function DefaultRelArray(t: OffsetType, k: nat, base: int): (arr: RelArray)
    ensures IsEmpty(arr) && Begin(arr) == Null
  {
    RelArray(RelPtrValue(t, k, base, 0), 0)
  }

  /** `begin()`. */
  function Begin(arr: RelArray): Pointer
  {
    Get(arr.elements)
  }

  /** `end()`: `begin() + num_elements` for elements of `elemSize` bytes. */
  function End(arr: RelArray, elemSize: nat): Pointer
    requires Begin(arr).At? || arr.numElements == 0
  {
    match Begin(arr)
    case Null => Null
    case At(b) => At(b + arr.numElements * elemSize)
  }

  /** `isEmpty()`. */
  predicate IsEmpty(arr: RelArray)
  {
    arr.numElements == 0
  }

  /** `end() - begin() == num_elements`, and the array is empty exactly when
      its two ends meet. */
  lemma ArraySpan(arr: RelArray, elemSize: nat)
    requires elemSize > 0 && (Begin(arr).At? || arr.numElements == 0)
    ensures Begin(arr).At? ==> (End(arr, elemSize).addr - Begin(arr).addr) / elemSize == arr.numElements
    ensures IsEmpty(arr) <==> Begin(arr) == End(arr, elemSize)
  {
    if Begin(arr).At? {
      MulDivExact(arr.numElements, elemSize);
      if arr.numElements > 0 {
        MulAtLeast(elemSize, arr.numElements);
      }
    }
  }
}

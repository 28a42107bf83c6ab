/** The newer generation's relative pointer and relative array
    (include/binaryio/rel_ptr.hpp). Addresses are integers in one arena; a
    `rel_ptr` stores, in an integer of its `offset_type`, the distance from its
    own address (`base()`) to its target counted in strides of `alignment`
    bytes, or the sentinel `k_OffsetInvalid` for null. */
module RelPtr {
  import opened Arithmetic
  import opened EndianCodec
  import opened Addresses

  /** The template parameter `alignment`: a `std::uint8_t` greater than zero. */
  predicate ValidAlignment(a: nat)
  {
    0 < a < 256
  }

  /** `p` is a value of the type `get()` computes `offset * alignment` in.
      The `std::uint8_t` alignment and an `offset_type` no wider than `int`
      are promoted to `int`; a `std::uint32_t` offset makes the product
      `unsigned int`; a `std::int64_t` one keeps it 64 bits wide. */
  predicate ProductFits(t: OffsetType, p: int)
  {
    if t.width == 8 then -0x8000_0000_0000_0000 <= p < 0x8000_0000_0000_0000
    else if t.width == 4 && !t.signed then 0 <= p < 0x1_0000_0000
    else -0x8000_0000 <= p < 0x8000_0000
  }

  /** Every value of an offset type is a value of its product type. */
  lemma OffsetRangeFitsProduct(t: OffsetType, x: int)
    requires ValidOffsetType(t) && OffsetMin(t) <= x <= OffsetMax(t)
    ensures ProductFits(t, x)
  {
    assert Pow256(1) == 0x100 && Pow256(2) == 0x1_0000;
    assert Pow256(4) == 0x1_0000_0000 by {
      assert Pow256(3) == 0x100_0000;
    }
    if t.width == 8 {
      assert Pow256(8) == 0x1_0000_0000_0000_0000 by {
        assert Pow256(5) == 0x100_0000_0000 && Pow256(6) == 0x1_0000_0000_0000 && Pow256(7) == 0x100_0000_0000_0000;
      }
    }
  }

  // ------------------------------------------------------------------
  // calculateOffset and get
  // ------------------------------------------------------------------

  /** `get()`: null for the sentinel, otherwise `base() + offset * alignment`.
      The product is exact here; `CalculateOffsetAsWritten` and
      `CalculateOffset` show that every offset they store keeps it within its
      C++ type (`ProductFits`). */
  function Resolve(t: OffsetType, a: nat, base: int, offset: int): (p: Pointer)
    ensures p.Null? <==> offset == OffsetInvalid(t)
    ensures p.At? ==> p.addr == base + offset * a
  {
    if offset == OffsetInvalid(t) then Null else At(base + offset * a)
  }

  /** The two `binaryIOAssert`s of `calculateOffset`, on the byte distance
      `off = rhs - base`: its `std::uintptr_t` image is a multiple of
      `alignment`, and `k_OffsetMin <= off < k_OffsetMax`. */
  predicate AssertsAsWritten(t: OffsetType, a: nat, off: int)
  {
    ValidAlignment(a) &&
    (off % PointerRange) % a == 0 &&
    OffsetMin(t) <= off < OffsetMax(t)
  }

  /** `calculateOffset` as written: the sentinel for null, otherwise
      `off / alignment` with C++ division. */
  function CalculateOffsetAsWritten(t: OffsetType, a: nat, rhs: Pointer, base: int): (o: int)
    requires ValidOffsetType(t) && ValidAlignment(a)
    requires rhs.At? ==> AssertsAsWritten(t, a, rhs.addr - base)
    ensures OffsetMin(t) <= o <= OffsetMax(t)
    ensures rhs.At? ==> ProductFits(t, o * a)
  {
    OffsetBounds(t);
    if rhs.Null? then OffsetInvalid(t)
    else
      var off := rhs.addr - base;
      CDivProductBetween(off, a);
      OffsetRangeFitsProduct(t, off);
      OffsetRangeFitsProduct(t, 0);
      CDiv(off, a)
  }

  /** The byte distance `off` is a whole number of strides whose count fits the
      offset type without being the sentinel, and `get()` can multiply the
      count back into `off` without overflow. */
  predicate Representable(t: OffsetType, a: nat, off: int)
  {
    ValidAlignment(a) &&
    off % a == 0 &&
    OffsetMin(t) <= off / a <= OffsetMax(t) &&
    off / a != OffsetInvalid(t) &&
    ProductFits(t, off)
  }

  /** `rhs` can be stored by a `rel_ptr` at `base`. */
  predicate Assignable(t: OffsetType, a: nat, rhs: Pointer, base: int)
  {
    rhs.At? ==> Representable(t, a, rhs.addr - base)
  }

  /** `calculateOffset` with the checks it evidently intends: alignment of
      the distance itself, and range and sentinel checked on the stored stride
      count, and a product `get()` can compute. Whatever it stores resolves
      back to `rhs`, null included. */
  function CalculateOffset(t: OffsetType, a: nat, rhs: Pointer, base: int): (o: int)
    requires ValidOffsetType(t) && ValidAlignment(a) && Assignable(t, a, rhs, base)
    ensures OffsetMin(t) <= o <= OffsetMax(t)
    ensures Resolve(t, a, base, o) == rhs
    ensures rhs.At? ==> ProductFits(t, o * a)
  {
    OffsetBounds(t);
    if rhs.Null? then OffsetInvalid(t)
    else
      CDivExact(rhs.addr - base, a);
      CDiv(rhs.addr - base, a)
  }

  /** For a power-of-two stride, testing the `std::uintptr_t` image of a
      distance is testing the distance. */
  lemma CastKeepsPowerOfTwoRemainder(off: int, k: nat)
    requires k <= 64
    ensures (off % PointerRange) % Pow2(k) == off % Pow2(k)
  {
    Pow2Add(64 - k, k);
    PointerRangeIsPow2();
    ModOfMultiple(off, Pow2(k), Pow2(64 - k));
  }

  /** Where the source's checks pass with a power-of-two `alignment` and the
      stored count is not the sentinel, the corrected `calculateOffset` accepts
      the same pointer and stores the same offset. */
  lemma CorrectedAgrees(t: OffsetType, k: nat, rhs: Pointer, base: int)
    requires ValidOffsetType(t) && k < 8 && rhs.At?
    requires AssertsAsWritten(t, Pow2(k), rhs.addr - base)
    requires CalculateOffsetAsWritten(t, Pow2(k), rhs, base) != OffsetInvalid(t)
    ensures Representable(t, Pow2(k), rhs.addr - base)
    ensures CalculateOffset(t, Pow2(k), rhs, base) == CalculateOffsetAsWritten(t, Pow2(k), rhs, base)
  {
    var off := rhs.addr - base;
    CastKeepsPowerOfTwoRemainder(off, k);
    CDivExact(off, Pow2(k));
    OffsetRangeFitsProduct(t, off);
  }

  // ------------------------------------------------------------------
  // Findings: the source's checks against what they evidently intend
  // ------------------------------------------------------------------

  /** With a signed offset and stride 1, a distance of exactly `k_OffsetMin`
      passes both checks and stores the sentinel: an `int8_t` pointer at 1000
      aimed at 872 reads back as null. The corrected checks refuse it. */
  lemma SentinelCollision()
    ensures var t := OffsetType(1, true);
      AssertsAsWritten(t, 1, 872 - 1000) &&
      Resolve(t, 1, 1000, CalculateOffsetAsWritten(t, 1, At(872), 1000)) == Null &&
      !Representable(t, 1, 872 - 1000)
  {
    assert Pow256(1) == 256;
  }

  /** The range check is made on the byte distance, so a larger stride never
      widens the range the documentation promises it widens: an `int8_t`
      pointer with stride 4 cannot reach 200 bytes ahead, though 50 strides
      fit; the corrected checks accept it and resolve it. */
  lemma StrideDoesNotWiden()
    ensures var t := OffsetType(1, true);
      !AssertsAsWritten(t, 4, 200) &&
      Representable(t, 4, 200) &&
      CalculateOffset(t, 4, At(1200), 1000) == 50
  {
    assert Pow256(1) == 256;
  }

  /** The alignment check casts a negative distance to `std::uintptr_t`
      first; for a stride that is not a power of two this accepts misaligned
      distances: with stride 3, a pointer at 1000 aimed at 999 stores 0 and
      reads back as 1000. The corrected checks refuse it. */
  lemma CastAcceptsMisaligned()
    ensures var t := OffsetType(1, true);
      AssertsAsWritten(t, 3, 999 - 1000) &&
      Resolve(t, 3, 1000, CalculateOffsetAsWritten(t, 3, At(999), 1000)) == At(1000) &&
      !Representable(t, 3, 999 - 1000)
  {
    var t := OffsetType(1, true);
    assert Pow256(1) == 256;
    assert OffsetMin(t) == -128 && OffsetMax(t) == 127;
    assert (-1) % PointerRange == PointerRange - 1;
    assert (PointerRange - 1) % 3 == 0;
    assert CDiv(-1, 3) == 0;
    assert CalculateOffsetAsWritten(t, 3, At(999), 1000) == 0;
    assert (-1) % 3 == 2;
  }

  /** A wider stride widens the reachable range only while `get()` can
      multiply the stride count back: an `int16_t` pointer with stride 4
      reaches 65536 bytes ahead (16384 strides, a product that fits `int`),
      but an `int32_t` pointer with stride 2 cannot reach 2^31 bytes ahead,
      although 2^30 strides fit `int32_t`, because `2^30 * 2` overflows `int`. */
  lemma ProductLimitsStride()
    ensures var narrow := OffsetType(2, true);
      !AssertsAsWritten(narrow, 4, 0x1_0000) && Representable(narrow, 4, 0x1_0000)
    ensures var wide := OffsetType(4, true);
      OffsetMin(wide) <= 0x8000_0000 / 2 <= OffsetMax(wide) &&
      !ProductFits(wide, 0x8000_0000) &&
      !Representable(wide, 2, 0x8000_0000) && !AssertsAsWritten(wide, 2, 0x8000_0000)
  {
    assert Pow256(2) == 0x1_0000 by {
      assert Pow256(1) == 0x100;
    }
    assert Pow256(4) == 0x1_0000_0000 by {
      assert Pow256(3) == 0x100_0000;
    }
  }

  // ------------------------------------------------------------------
  // rel_ptr values and their comparisons
  // ------------------------------------------------------------------

  /** A `rel_ptr<offset_type, T, alignment>` stored at address `base`. */
  datatype RelPtrValue = RelPtrValue(offsetType: OffsetType, alignment: nat, base: int, offset: int)

  predicate ValidPtr(p: RelPtrValue)
  {
    ValidOffsetType(p.offsetType) && ValidAlignment(p.alignment) &&
    OffsetMin(p.offsetType) <= p.offset <= OffsetMax(p.offsetType)
  }

  /** `get()`. */
  function Get(p: RelPtrValue): Pointer
  {
    Resolve(p.offsetType, p.alignment, p.base, p.offset)
  }

  /** `isNull()`. */
  predicate IsNull(p: RelPtrValue)
  {
    p.offset == OffsetInvalid(p.offsetType)
  }

  /** `operator==` between two `rel_ptr`s: they resolve to the same pointer. */
  predicate Equals(p: RelPtrValue, q: RelPtrValue)
  {
    Get(p) == Get(q)
  }

  /** `operator==` against `nullptr`, and `operator bool` negated, test `isNull()`. */
  lemma NullComparison(p: RelPtrValue)
    ensures IsNull(p) <==> Get(p) == Null
    ensures IsNull(p) <==> Equals(p, RelPtrValue(p.offsetType, p.alignment, p.base + 1, OffsetInvalid(p.offsetType)))
  {
  }

  /** Equality compares targets, not raw offsets: two pointers stored at
      different addresses and aimed at the same target are equal although
      their offsets differ, and the same raw offset at different addresses
      is not the same pointer. */
  lemma EqualityByTarget(p: RelPtrValue, q: RelPtrValue, rhs: Pointer)
    requires ValidPtr(p) && ValidPtr(q) && rhs.At?
    requires p.offsetType == q.offsetType && p.alignment == q.alignment && p.base != q.base
    requires Assignable(p.offsetType, p.alignment, rhs, p.base) && Assignable(q.offsetType, q.alignment, rhs, q.base)
    requires p.offset == CalculateOffset(p.offsetType, p.alignment, rhs, p.base)
    requires q.offset == CalculateOffset(q.offsetType, q.alignment, rhs, q.base)
    ensures Equals(p, q) && Get(p) == rhs
    ensures p.offset != q.offset
    ensures !Equals(p, q.(base := p.base + 1).(offset := p.offset))
  {
    assert Get(p) == rhs && Get(q) == rhs;
    assert p.offset * p.alignment == rhs.addr - p.base;
    assert q.offset * q.alignment == rhs.addr - q.base;
  }

  /** A `rel_ptr` object living at address `base`. Copying and moving are
      not modelled. */
  class RelPtrObject {
    const offsetType: OffsetType
    const alignment: nat
    const base: int
    var offset: int

    function Value(): RelPtrValue
      reads this
    {
      RelPtrValue(offsetType, alignment, base, offset)
    }

    predicate Valid()
      reads this
    {
      ValidPtr(Value())
    }

    /** `rel_ptr()` and `rel_ptr(nullptr)`: both store the sentinel. */
    constructor FromNull(t: OffsetType, a: nat, base: int)
      requires ValidOffsetType(t) && ValidAlignment(a)
      ensures Valid() && Value() == RelPtrValue(t, a, base, OffsetInvalid(t))
      ensures IsNull(Value()) && Get(Value()) == Null
    {
      offsetType := t;
      alignment := a;
      this.base := base;
      offset := OffsetInvalid(t);
      new;
      OffsetBounds(t);
    }

    /** `rel_ptr(T*)`. */
    constructor FromPointer(t: OffsetType, a: nat, base: int, rhs: Pointer)
      requires ValidOffsetType(t) && ValidAlignment(a) && Assignable(t, a, rhs, base)
      ensures Valid() && Value() == RelPtrValue(t, a, base, CalculateOffset(t, a, rhs, base))
      ensures Get(Value()) == rhs
    {
      offsetType := t;
      alignment := a;
      this.base := base;
      offset := CalculateOffset(t, a, rhs, base);
    }

    /** `assign(T*)`: afterwards `get()` returns `rhs`. */
    method Assign(rhs: Pointer)
      requires Valid() && Assignable(offsetType, alignment, rhs, base)
      modifies this
      ensures Valid() && offset == CalculateOffset(offsetType, alignment, rhs, base)
      ensures Get(Value()) == rhs
    {
      offset := CalculateOffset(offsetType, alignment, rhs, base);
    }

    /** `assign(nullptr)`: the sentinel, so `isNull()` and `get() == nullptr`. */
    method AssignNull()
      requires Valid()
      modifies this
      ensures Valid() && offset == OffsetInvalid(offsetType)
      ensures IsNull(Value()) && Get(Value()) == Null
    {
      offset := OffsetInvalid(offsetType);
      OffsetBounds(offsetType);
    }
  }

  // ------------------------------------------------------------------
  // rel_array
  // ------------------------------------------------------------------

  /** A `rel_array<TCount, TPtr>`: a count and a relative pointer to the first element. */
  datatype RelArray = RelArray(numElements: nat, elements: RelPtrValue)

  /** The default `rel_array`: no elements and a null pointer. */
  function DefaultRelArray(t: OffsetType, a: nat, base: int): (arr: RelArray)
    ensures IsEmpty(arr) && Begin(arr) == Null
  {
    RelArray(0, RelPtrValue(t, a, base, OffsetInvalid(t)))
  }

  /** `begin()`. */
  function Begin(arr: RelArray): Pointer
  {
    Get(arr.elements)
  }

  /** `end()`: `begin() + num_elements` for elements of `elemSize` bytes. */
  function End(arr: RelArray, elemSize: nat): Pointer
    requires Begin(arr).At? || arr.numElements == 0
  {
    match Begin(arr)
    case Null => Null
    case At(b) => At(b + arr.numElements * elemSize)
  }

  /** `isEmpty()`. */
  predicate IsEmpty(arr: RelArray)
  {
    arr.numElements == 0
  }

  /** `end() - begin() == num_elements`, and the array is empty exactly when
      its two ends meet. */
  lemma ArraySpan(arr: RelArray, elemSize: nat)
    requires elemSize > 0 && (Begin(arr).At? || arr.numElements == 0)
    ensures Begin(arr).At? ==> (End(arr, elemSize).addr - Begin(arr).addr) / elemSize == arr.numElements
    ensures IsEmpty(arr) <==> Begin(arr) == End(arr, elemSize)
  {
    if Begin(arr).At? {
      MulDivExact(arr.numElements, elemSize);
      if arr.numElements > 0 {
        MulAtLeast(elemSize, arr.numElements);
      }
    }
  }
}

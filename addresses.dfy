/** Addresses, pointers and the integer types that store offsets, shared by
    both generations' relative pointers. Addresses are integers in one arena;
    pointer-sized integers are 64 bits wide. */
module Addresses {
  import opened Arithmetic
  import opened EndianCodec

  /** A raw `T*`: null or an address. */
  datatype Pointer = Null | At(addr: int)

  /** An integral `offset_type`: its width in bytes and its signedness. */
  datatype OffsetType = OffsetType(width: nat, signed: bool)

  /** The offset types modelled: signed ones of 1, 2, 4 or 8 bytes and
      unsigned ones of 1, 2 or 4. */
  predicate ValidOffsetType(t: OffsetType)
  {
    ValidWidth(t.width) && (t.signed || t.width < 8)
  }

  /** `std::numeric_limits<offset_type>::min()`. */
  function OffsetMin(t: OffsetType): int
  {
    if t.signed then -(Pow256(t.width) / 2) else 0
  }

  /** `std::numeric_limits<offset_type>::max()`. */
  function OffsetMax(t: OffsetType): int
  {
    if t.signed then Pow256(t.width) / 2 - 1 else Pow256(t.width) - 1
  }

  /** `k_OffsetInvalid`: the minimum of a signed type, the maximum of an unsigned one. */
  function OffsetInvalid(t: OffsetType): int
  {
    if t.signed then OffsetMin(t) else OffsetMax(t)
  }

  /** 2^64: the range of `std::uintptr_t`. */
  const PointerRange: nat := 0x1_0000_0000_0000_0000

  /** C++ integer division, which truncates toward zero. */
  function CDiv(x: int, d: int): (q: int)
    requires d > 0
    ensures if x >= 0 then 0 <= q <= x else x <= q <= 0
    ensures x >= 0 ==> 0 <= x - q * d < d
    ensures x < 0 ==> -d < x - q * d <= 0
  {
    if x >= 0 then DivBound(x, d); x / d
    else DivBound(-x, d); -((-x) / d)
  }

  /** Truncating and Euclidean division agree on an exact quotient. */
  lemma CDivExact(x: int, d: int)
    requires d > 0 && x % d == 0
    ensures CDiv(x, d) == x / d && (x / d) * d == x
  {
    var q := x / d;
    assert x == d * q;
    if x < 0 {
      MulDivExact(-q, d);
      assert -x == (-q) * d;
    }
  }

  /** The truncated quotient times the divisor lies between zero and the dividend. */
  lemma CDivProductBetween(x: int, d: int)
    requires d > 0
    ensures x >= 0 ==> 0 <= CDiv(x, d) * d <= x
    ensures x < 0 ==> x <= CDiv(x, d) * d <= 0
  {
    var q := CDiv(x, d);
    if x >= 0 {
      MulLeft(0, q, d);
    } else {
      MulLeft(q, 0, d);
    }
  }

  lemma OffsetBounds(t: OffsetType)
    requires ValidOffsetType(t)
    ensures OffsetMin(t) <= 0 < OffsetMax(t)
    ensures OffsetMin(t) <= OffsetInvalid(t) <= OffsetMax(t)
  {
    assert Pow256(t.width) == 256 * Pow256(t.width - 1);
  }

  lemma {:induction false} Pow2Is(n: nat, v: nat)
    requires v == Pow2(n)
    ensures Pow2(n + 8) == 256 * v
  {
    Pow2Add(n, 8);
  }

  lemma PointerRangeIsPow2()
    ensures Pow2(64) == PointerRange
  {
    Pow2Is(0, 1);
    Pow2Is(8, 0x100);
    Pow2Is(16, 0x1_0000);
    Pow2Is(24, 0x100_0000);
    Pow2Is(32, 0x1_0000_0000);
    Pow2Is(40, 0x100_0000_0000);
    Pow2Is(48, 0x1_0000_0000_0000);
    Pow2Is(56, 0x100_0000_0000_0000);
  }

  /** Reducing modulo a multiple of `a` first does not change the remainder by `a`. */
  lemma ModOfMultiple(x: int, a: int, m: int)
    requires a > 0 && m > 0
    ensures (x % (m * a)) % a == x % a
  {
    var n := m * a;
    MulAtLeast(a, m);
    var j := x / n;
    assert x % n == x - n * j;
    assert x % n == x + (-j * m) * a;
    DivModAddMultiple(x, -j * m, a);
  }
}

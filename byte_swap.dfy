/** The portable byte-swap routines of include/assetio/byte_swap.hpp
    (`detail::byteSwap16_portable`, `byteSwap32_portable`, `byteSwap64_portable`).

    Each routine masks out every byte of the value, shifts it to the mirrored
    position and ORs the pieces together. Values are unsigned bit patterns
    (`EndianCodec`); `value & (0xFF << 8k)` is `Mask(value, k)`, `x << s` is
    `x * 2^s` and `x >> s` is `x / 2^s`. No shifted piece leaves the value's
    width, so the C++ truncation to `uintN_t` never takes effect, and the pieces
    occupy disjoint bytes, so OR is addition. */
module ByteSwap {
  import opened Arithmetic
  import opened EndianCodec

  /** `value & (0xFF << 8k)`: byte `k` of the value, left in place. */
  function Mask(v: nat, k: nat): nat
  {
    ByteOf(v, k) * Pow256(k)
  }

  /** `x << s` on a value that does not overflow. */
  function Shl(x: nat, s: nat): nat
  {
    x * Pow2(s)
  }

  /** `x >> s` on an unsigned value. */
  function Shr(x: nat, s: nat): nat
  {
    DivBound(x, Pow2(s));
    x / Pow2(s)
  }

  /** `detail::byteSwap16_portable`: the masked bytes shifted into their
      mirrored positions and OR-ed together. */
  function ByteSwap16Portable(v: nat): nat
    requires Fits(v, 2)
  {
    Shl(Mask(v, 0), 8) +
    Shr(Mask(v, 1), 8)
  }

  /** `detail::byteSwap32_portable`. */
  function ByteSwap32Portable(v: nat): nat
    requires Fits(v, 4)
  {
    Shl(Mask(v, 0), 24) +
    Shl(Mask(v, 1), 8) +
    Shr(Mask(v, 2), 8) +
    Shr(Mask(v, 3), 24)
  }

  /** `detail::byteSwap64_portable`. */
  function ByteSwap64Portable(v: nat): nat
    requires Fits(v, 8)
  {
    Shl(Mask(v, 0), 56) +
    Shl(Mask(v, 1), 40) +
    Shl(Mask(v, 2), 24) +
    Shl(Mask(v, 3), 8) +
    Shr(Mask(v, 4), 8) +
    Shr(Mask(v, 5), 24) +
    Shr(Mask(v, 6), 40) +
    Shr(Mask(v, 7), 56)
  }

  // ------------------------------------------------------------------
  // Where each masked byte lands
  // ------------------------------------------------------------------

  lemma {:induction false} Pow2Bytes(m: nat)
    ensures Pow2(8 * m) == Pow256(m)
  {
    if m > 0 {
      Pow2Bytes(m - 1);
      Pow2Add(8 * (m - 1), 8);
      assert Pow2(8) == 256;
    }
  }

  /** Shifting byte `k` left by `m` bytes puts it at byte `k + m`. */
  lemma ShlMask(v: nat, k: nat, m: nat)
    ensures Shl(Mask(v, k), 8 * m) == ByteOf(v, k) * Pow256(k + m)
  {
    Pow2Bytes(m);
    Pow256Add(k, m);
  }

  /** Shifting byte `k` right by `m <= k` bytes puts it at byte `k - m`. */
  lemma ShrMask(v: nat, k: nat, m: nat)
    requires m <= k
    ensures Shr(Mask(v, k), 8 * m) == ByteOf(v, k) * Pow256(k - m)
  {
    Pow2Bytes(m);
    Pow256Add(k - m, m);
    assert Mask(v, k) == (ByteOf(v, k) * Pow256(k - m)) * Pow256(m);
    MulDivExact(ByteOf(v, k) * Pow256(k - m), Pow256(m));
  }

  /** `ShlMask` with the power of 256 given as a constant. */
  lemma ShlPiece(v: nat, k: nat, m: nat, c: nat)
    requires c == Pow256(k + m)
    ensures Shl(Mask(v, k), 8 * m) == ByteOf(v, k) as nat * c
  {
    ShlMask(v, k, m);
  }

  /** `ShrMask` with the power of 256 given as a constant. */
  lemma ShrPiece(v: nat, k: nat, m: nat, c: nat)
    requires m <= k && c == Pow256(k - m)
    ensures Shr(Mask(v, k), 8 * m) == ByteOf(v, k) as nat * c
  {
    ShrMask(v, k, m);
  }

  /** The reference byte reversal: the big-endian encoding of `v` read back as
      little-endian. */
  function ReverseBytes(w: nat, v: nat): nat
  {
    FromBytes(LittleEndian, ToBytes(BigEndian, w, v))
  }

  /** `ReverseBytes` reverses the bytes of a `w`-byte value. */
  lemma ReversedBytes(w: nat, v: nat)
    ensures Fits(ReverseBytes(w, v), w)
    ensures forall k :: 0 <= k < w ==> ByteOf(ReverseBytes(w, v), k) == ByteOf(v, w - 1 - k)
  {
    var bytes := ToBytes(BigEndian, w, v);
    var r := ReverseBytes(w, v);
    EncodeDecode(LittleEndian, bytes);
    forall k | 0 <= k < w
      ensures ByteOf(r, k) == ByteOf(v, w - 1 - k)
    {
      assert ToBytes(LittleEndian, w, r)[Position(LittleEndian, w, k)] == ByteOf(r, k);
      assert bytes[Position(BigEndian, w, w - 1 - k)] == ByteOf(v, w - 1 - k);
    }
  }

  /** Reversing twice gives the value back. */
  lemma ReverseBytesInvolution(w: nat, v: nat)
    requires Fits(v, w)
    ensures ReverseBytes(w, ReverseBytes(w, v)) == v
  {
    var r := ReverseBytes(w, v);
    var rr := ReverseBytes(w, r);
    ReversedBytes(w, v);
    ReversedBytes(w, r);
    forall k | 0 <= k < w
      ensures ByteOf(rr, k) == ByteOf(v, k)
    {
      assert ByteOf(r, w - 1 - k) == ByteOf(v, w - 1 - (w - 1 - k));
    }
    BytesDetermineValue(w, rr, v);
  }

  // ------------------------------------------------------------------
  // Each routine reverses the bytes of its argument
  // ------------------------------------------------------------------

  /** The little-endian value of `n + 1` bytes, one step at a time. */
  lemma AssembleLittleStep(bytes: seq<byte>, n: nat)
    requires n < |bytes|
    ensures Assemble(LittleEndian, bytes, n + 1) == Assemble(LittleEndian, bytes, n) + bytes[n] * Pow256(n)
  {
  }

  /** Each portable routine computes the reference reversal. */
  lemma ByteSwap16AsCodec(v: nat)
    requires Fits(v, 2)
    ensures ByteSwap16Portable(v) == ReverseBytes(2, v)
  {
    var b := ToBytes(BigEndian, 2, v);
    ShlMask(v, 0, 1);
    ShrMask(v, 1, 1);
    assert Pow256(1) == 0x100;
    AssembleLittleStep(b, 0);
    AssembleLittleStep(b, 1);
    assert b[0] == ByteOf(v, 1) && b[1] == ByteOf(v, 0);
  }

  /** The four shifted pieces of `byteSwap32_portable`, each in its mirrored byte. */
  lemma ByteSwap32Pieces(v: nat)
    requires Fits(v, 4)
    ensures ByteSwap32Portable(v) ==
      ByteOf(v, 0) as nat * 0x100_0000 + ByteOf(v, 1) as nat * 0x1_0000 + ByteOf(v, 2) as nat * 0x100 + ByteOf(v, 3)
  {
    ShlPiece(v, 0, 3, 0x100_0000);
    ShlPiece(v, 1, 1, 0x1_0000);
    ShrPiece(v, 2, 1, 0x100);
    ShrPiece(v, 3, 3, 1);
  }

  lemma ByteSwap32AsCodec(v: nat)
    requires Fits(v, 4)
    ensures ByteSwap32Portable(v) == ReverseBytes(4, v)
  {
    var b := ToBytes(BigEndian, 4, v);
    ByteSwap32Pieces(v);
    assert Pow256(1) == 0x100 && Pow256(2) == 0x1_0000 && Pow256(3) == 0x100_0000;
    AssembleLittleStep(b, 0);
    AssembleLittleStep(b, 1);
    AssembleLittleStep(b, 2);
    AssembleLittleStep(b, 3);
    assert b[0] == ByteOf(v, 3) && b[1] == ByteOf(v, 2) && b[2] == ByteOf(v, 1) && b[3] == ByteOf(v, 0);
  }

  /** The eight shifted pieces of `byteSwap64_portable`, each in its mirrored byte. */
  lemma ByteSwap64Pieces(v: nat)
    requires Fits(v, 8)
    ensures ByteSwap64Portable(v) ==
      ByteOf(v, 0) as nat * 0x100_0000_0000_0000 + ByteOf(v, 1) as nat * 0x1_0000_0000_0000 +
      ByteOf(v, 2) as nat * 0x100_0000_0000 + ByteOf(v, 3) as nat * 0x1_0000_0000 +
      ByteOf(v, 4) as nat * 0x100_0000 + ByteOf(v, 5) as nat * 0x1_0000 + ByteOf(v, 6) as nat * 0x100 + ByteOf(v, 7) as nat
  {
    ShlPiece(v, 0, 7, 0x100_0000_0000_0000);
    ShlPiece(v, 1, 5, 0x1_0000_0000_0000);
    ShlPiece(v, 2, 3, 0x100_0000_0000);
    ShlPiece(v, 3, 1, 0x1_0000_0000);
    ShrPiece(v, 4, 1, 0x100_0000);
    ShrPiece(v, 5, 3, 0x1_0000);
    ShrPiece(v, 6, 5, 0x100);
    ShrPiece(v, 7, 7, 1);
  }

  /** An eight-byte little-endian value, byte by byte. */
  lemma Little8(b: seq<byte>)
    requires |b| == 8
    ensures FromBytes(LittleEndian, b) ==
      b[0] as nat + b[1] as nat * 0x100 + b[2] as nat * 0x1_0000 + b[3] as nat * 0x100_0000 +
      b[4] as nat * 0x1_0000_0000 + b[5] as nat * 0x100_0000_0000 +
      b[6] as nat * 0x1_0000_0000_0000 + b[7] as nat * 0x100_0000_0000_0000
  {
    assert Pow256(1) == 0x100 && Pow256(2) == 0x1_0000 && Pow256(3) == 0x100_0000;
    assert Pow256(4) == 0x1_0000_0000 && Pow256(5) == 0x100_0000_0000;
    assert Pow256(6) == 0x1_0000_0000_0000 && Pow256(7) == 0x100_0000_0000_0000;
    AssembleLittleStep(b, 0);
    AssembleLittleStep(b, 1);
    AssembleLittleStep(b, 2);
    AssembleLittleStep(b, 3);
    AssembleLittleStep(b, 4);
    AssembleLittleStep(b, 5);
    AssembleLittleStep(b, 6);
    AssembleLittleStep(b, 7);
  }

  lemma ByteSwap64AsCodec(v: nat)
    requires Fits(v, 8)
    ensures ByteSwap64Portable(v) == ReverseBytes(8, v)
  {
    var b := ToBytes(BigEndian, 8, v);
    ByteSwap64Pieces(v);
    Little8(b);
    assert b[0] == ByteOf(v, 7) && b[1] == ByteOf(v, 6) && b[2] == ByteOf(v, 5) && b[3] == ByteOf(v, 4);
    assert b[4] == ByteOf(v, 3) && b[5] == ByteOf(v, 2) && b[6] == ByteOf(v, 1) && b[7] == ByteOf(v, 0);
  }

  /** Byte `k` of the swapped value is byte `1 - k` of the argument. */
  lemma ByteSwap16Reverses(v: nat)
    requires Fits(v, 2)
    ensures Fits(ByteSwap16Portable(v), 2)
    ensures forall k :: 0 <= k < 2 ==> ByteOf(ByteSwap16Portable(v), k) == ByteOf(v, 1 - k)
  {
    ByteSwap16AsCodec(v);
    ReversedBytes(2, v);
  }

  /** Byte `k` of the swapped value is byte `3 - k` of the argument. */
  lemma ByteSwap32Reverses(v: nat)
    requires Fits(v, 4)
    ensures Fits(ByteSwap32Portable(v), 4)
    ensures forall k :: 0 <= k < 4 ==> ByteOf(ByteSwap32Portable(v), k) == ByteOf(v, 3 - k)
  {
    ByteSwap32AsCodec(v);
    ReversedBytes(4, v);
  }

  /** Byte `k` of the swapped value is byte `7 - k` of the argument. */
  lemma ByteSwap64Reverses(v: nat)
    requires Fits(v, 8)
    ensures Fits(ByteSwap64Portable(v), 8)
    ensures forall k :: 0 <= k < 8 ==> ByteOf(ByteSwap64Portable(v), k) == ByteOf(v, 7 - k)
  {
    ByteSwap64AsCodec(v);
    ReversedBytes(8, v);
  }

  /** Swapping twice gives the value back. */
  lemma ByteSwap16Involution(v: nat)
    requires Fits(v, 2)
    ensures Fits(ByteSwap16Portable(v), 2) && ByteSwap16Portable(ByteSwap16Portable(v)) == v
  {
    ByteSwap16AsCodec(v);
    ReversedBytes(2, v);
    ByteSwap16AsCodec(ReverseBytes(2, v));
    ReverseBytesInvolution(2, v);
  }

  lemma ByteSwap32Involution(v: nat)
    requires Fits(v, 4)
    ensures Fits(ByteSwap32Portable(v), 4) && ByteSwap32Portable(ByteSwap32Portable(v)) == v
  {
    ByteSwap32AsCodec(v);
    ReversedBytes(4, v);
    ByteSwap32AsCodec(ReverseBytes(4, v));
    ReverseBytesInvolution(4, v);
  }

  lemma ByteSwap64Involution(v: nat)
    requires Fits(v, 8)
    ensures Fits(ByteSwap64Portable(v), 8) && ByteSwap64Portable(ByteSwap64Portable(v)) == v
  {
    ByteSwap64AsCodec(v);
    ReversedBytes(8, v);
    ByteSwap64AsCodec(ReverseBytes(8, v));
    ReverseBytesInvolution(8, v);
  }

  /** An example: `0x11223344` becomes `0x44332211`. */
  lemma ByteSwap32Example()
    ensures ByteSwap32Portable(0x11223344) == 0x44332211
  {
    var v := 0x11223344;
    assert Pow256(1) == 0x100 && Pow256(2) == 0x1_0000 && Pow256(3) == 0x100_0000;
    DivModUnique(v, 256, 0x112233, 0x44);
    DivModUnique(v / 256, 256, 0x1122, 0x33);
    DivModUnique(v, 0x1_0000, 0x1122, 0x3344);
    DivModUnique(v / 0x1_0000, 256, 0x11, 0x22);
    DivModUnique(v, 0x100_0000, 0x11, 0x223344);
    ByteSwap32Pieces(v);
  }
}

/** The byte-order codec shared by both generations of the library
    (`detail::writeXEndian` / `detail::readXEndian` in
    include/assetio/binary_stream.hpp and include/binaryio/binary_stream.hpp).

    A value of an integral type `T` of width `W = sizeof(T)` is modelled by its
    `W`-byte bit pattern, a natural number below 256^W (a signed value by its
    two's-complement pattern, see `SignedPattern`). The source's bit operations
    are written arithmetically: `v >> (i * CHAR_BIT)` is `v / 256^i`, `& 0xFF`
    is `% 256`, and OR-ing bytes into disjoint positions is addition. */
module EndianCodec {
  import opened Arithmetic

  /** One octet (`std::uint8_t`). */
  type byte = b: nat | b < 256

  datatype ByteOrder = LittleEndian | BigEndian

  /** The widths `sizeof(T)` of the integral types the codec is used with. */
  predicate ValidWidth(w: nat)
  {
    w == 1 || w == 2 || w == 4 || w == 8
  }

  /** `n` zero bytes. */
  function Zeros(n: nat): (z: seq<byte>)
    ensures |z| == n && forall i :: 0 <= i < n ==> z[i] == 0
  {
    seq(n, _ => 0)
  }

  /** 256^n: one more than the largest n-byte pattern. */
  function Pow256(n: nat): (p: nat)
    ensures p >= 1
  {
    if n == 0 then 1 else 256 * Pow256(n - 1)
  }

  /** `v` is the bit pattern of a `w`-byte integer. */
  predicate Fits(v: nat, w: nat)
  {
    v < Pow256(w)
  }

  /** Byte `i` of `v`, counted from the least significant: `(v >> (i * CHAR_BIT)) & 0xFF`. */
  function ByteOf(v: nat, i: nat): byte
  {
    (v / Pow256(i)) % 256
  }

  /** The source's `convertIndex`: where byte `i` of a `w`-byte value is stored. */
  function Position(order: ByteOrder, w: nat, i: nat): (p: nat)
    requires i < w
    ensures p < w
  {
    match order
    case LittleEndian => i
    case BigEndian => w - 1 - i
  }

  /** The array `writeXEndian` hands to the single write call. */
  function ToBytes(order: ByteOrder, w: nat, v: nat): (bytes: seq<byte>)
    ensures |bytes| == w
    ensures forall i :: 0 <= i < w ==> bytes[Position(order, w, i)] == ByteOf(v, i)
  {
    seq(w, j requires 0 <= j < w => ByteOf(v, Position(order, w, j)))
  }

  /** The first `n` bytes (in value order) OR-ed into place, as `readXEndian` accumulates them. */
  function Assemble(order: ByteOrder, bytes: seq<byte>, n: nat): nat
    requires n <= |bytes|
  {
    if n == 0 then 0
    else Assemble(order, bytes, n - 1) + bytes[Position(order, |bytes|, n - 1)] * Pow256(n - 1)
  }

  /** The value `readXEndian` rebuilds from the bytes it read. */
  function FromBytes(order: ByteOrder, bytes: seq<byte>): nat
  {
    Assemble(order, bytes, |bytes|)
  }

  // ------------------------------------------------------------------
  // Arithmetic facts about byte positions
  // ------------------------------------------------------------------

  lemma {:induction false} Pow256Add(m: nat, n: nat)
    ensures Pow256(m + n) == Pow256(m) * Pow256(n)
  {
    if n > 0 {
      Pow256Add(m, n - 1);
      assert Pow256(m + n) == 256 * Pow256(m + n - 1);
    }
  }

  /** Keeping one more byte of `v` adds that byte in its position. */
  lemma ModStep(v: nat, n: nat)
    ensures v % Pow256(n + 1) == v % Pow256(n) + ByteOf(v, n) * Pow256(n)
  {
    DivDiv(v, Pow256(n), 256);
    assert Pow256(n + 1) == Pow256(n) * 256;
  }

  /** Adding a byte above the low `n` bytes changes none of the low bytes. */
  lemma ByteOfBelow(a: nat, b: byte, n: nat, i: nat)
    requires a < Pow256(n) && i < n
    ensures ByteOf(a + b * Pow256(n), i) == ByteOf(a, i)
  {
    var pi := Pow256(i);
    var c := b * Pow256(n - i - 1);
    assert b * Pow256(n) == (c * 256) * pi by {
      Pow256Add(i, n - i);
      StrideProduct(b, Pow256(n - i - 1), pi);
    }
    var x := a + b * Pow256(n);
    var m := c * 256;
    assert x == a + m * pi;
    assert x / pi == a / pi + c * 256 by {
      DivModAddMultiple(a, m, pi);
    }
    DivModAddMultiple(a / pi, c, 256);
  }

  /** Regrouping the product that places a byte `256 * k` strides of `p` up. */
  lemma StrideProduct(b: nat, k: nat, p: nat)
    ensures b * (p * (256 * k)) == (b * k * 256) * p
  {
  }

  /** The byte placed at position `n` above a value below 256^n reads back as itself. */
  lemma ByteOfTop(a: nat, b: byte, n: nat)
    requires a < Pow256(n)
    ensures ByteOf(a + b * Pow256(n), n) == b
  {
    DivModUnique(a + b * Pow256(n), Pow256(n), b, a);
  }

  lemma {:induction false} AssembleBound(order: ByteOrder, bytes: seq<byte>, n: nat)
    requires n <= |bytes|
    ensures Assemble(order, bytes, n) < Pow256(n)
  {
    if n > 0 {
      AssembleBound(order, bytes, n - 1);
      var b := bytes[Position(order, |bytes|, n - 1)];
      var p := Pow256(n - 1);
      MulLeft(b, 255, p);
      assert Pow256(n) == 256 * p;
    }
  }

  /** Every byte of the assembled value is the byte read from its position. */
  lemma {:induction false} ByteOfAssemble(order: ByteOrder, bytes: seq<byte>, n: nat, i: nat)
    requires i < n <= |bytes|
    ensures ByteOf(Assemble(order, bytes, n), i) == bytes[Position(order, |bytes|, i)]
  {
    var a := Assemble(order, bytes, n - 1);
    var b := bytes[Position(order, |bytes|, n - 1)];
    AssembleBound(order, bytes, n - 1);
    if i == n - 1 {
      ByteOfTop(a, b, n - 1);
    } else {
      ByteOfBelow(a, b, n - 1, i);
      ByteOfAssemble(order, bytes, n - 1, i);
    }
  }

  /** Assembling the first `n` bytes of an encoding recovers the low `n` bytes of the value. */
  lemma {:induction false} AssembleToBytes(order: ByteOrder, w: nat, v: nat, n: nat)
    requires n <= w
    ensures Assemble(order, ToBytes(order, w, v), n) == v % Pow256(n)
  {
    if n > 0 {
      AssembleToBytes(order, w, v, n - 1);
      ModStep(v, n - 1);
    }
  }

  // ------------------------------------------------------------------
  // The codec's properties
  // ------------------------------------------------------------------

  /** Reading back with the byte order that wrote returns the original value. */
  lemma DecodeEncode(order: ByteOrder, w: nat, v: nat)
    requires Fits(v, w)
    ensures FromBytes(order, ToBytes(order, w, v)) == v
  {
    AssembleToBytes(order, w, v, w);
    DivModUnique(v, Pow256(w), 0, v);
  }

  /** Every byte string is the encoding of the value it decodes to. */
  lemma EncodeDecode(order: ByteOrder, bytes: seq<byte>)
    ensures Fits(FromBytes(order, bytes), |bytes|)
    ensures ToBytes(order, |bytes|, FromBytes(order, bytes)) == bytes
  {
    var w := |bytes|;
    var v := FromBytes(order, bytes);
    AssembleBound(order, bytes, w);
    forall j | 0 <= j < w
      ensures ToBytes(order, w, v)[j] == bytes[j]
    {
      var i := Position(order, w, j);
      assert Position(order, w, i) == j;
      ByteOfAssemble(order, bytes, w, i);
    }
  }

  /** Two `w`-byte patterns with the same bytes are equal. */
  lemma BytesDetermineValue(w: nat, a: nat, b: nat)
    requires Fits(a, w) && Fits(b, w)
    requires forall i :: 0 <= i < w ==> ByteOf(a, i) == ByteOf(b, i)
    ensures a == b
  {
    var ea := ToBytes(LittleEndian, w, a);
    var eb := ToBytes(LittleEndian, w, b);
    assert ea == eb by {
      forall j | 0 <= j < w
        ensures ea[j] == eb[j]
      {
        assert Position(LittleEndian, w, j) == j;
      }
    }
    DecodeEncode(LittleEndian, w, a);
    DecodeEncode(LittleEndian, w, b);
  }

  /** The big-endian encoding is the little-endian one reversed. */
  lemma BigIsReversedLittle(w: nat, v: nat, j: nat)
    requires j < w
    ensures ToBytes(BigEndian, w, v)[j] == ToBytes(LittleEndian, w, v)[w - 1 - j]
  {
    assert Position(BigEndian, w, w - 1 - j) == j;
    assert Position(LittleEndian, w, w - 1 - j) == w - 1 - j;
  }

  /** Reading bytes big-endian is reading them reversed little-endian. */
  lemma {:induction false} AssembleMirror(b: seq<byte>, mirrored: seq<byte>, n: nat)
    requires |mirrored| == |b| && n <= |b|
    requires forall i :: 0 <= i < |b| ==> mirrored[i] == b[|b| - 1 - i]
    ensures Assemble(BigEndian, b, n) == Assemble(LittleEndian, mirrored, n)
  {
    if n > 0 {
      AssembleMirror(b, mirrored, n - 1);
    }
  }

  // ------------------------------------------------------------------
  // Signed values
  // ------------------------------------------------------------------

  /** The range of a signed `w`-byte integer. */
  predicate InSignedRange(x: int, w: nat)
  {
    -(Pow256(w) / 2) <= x < Pow256(w) / 2
  }

  /** The two's-complement pattern of a signed `w`-byte value. */
  function SignedPattern(x: int, w: nat): (p: nat)
    requires InSignedRange(x, w)
    ensures Fits(p, w)
  {
    if x < 0 then x + Pow256(w) else x
  }

  /** The signed value whose two's-complement pattern is `p`. */
  function SignedValue(p: nat, w: nat): int
    requires Fits(p, w)
  {
    if p < Pow256(w) / 2 then p else p - Pow256(w)
  }

  /** A signed value survives the round trip through its pattern and the codec,
      including the minimum and maximum of its type. */
  lemma SignedRoundTrip(order: ByteOrder, w: nat, x: int)
    requires ValidWidth(w) && InSignedRange(x, w)
    ensures var p := FromBytes(order, ToBytes(order, w, SignedPattern(x, w)));
      Fits(p, w) && SignedValue(p, w) == x
  {
    DecodeEncode(order, w, SignedPattern(x, w));
  }

  // ------------------------------------------------------------------
  // The two loops of the codec
  // ------------------------------------------------------------------

  /** The loop of `writeXEndian`: store byte `i` of `value` at `convertIndex(i)`
      of a local `sizeof(T)`-byte array. */
  method EncodeXEndian(value: nat, width: nat, order: ByteOrder) returns (bytes: seq<byte>)
    requires ValidWidth(width)
    ensures bytes == ToBytes(order, width, value)
  {
    var buffer := new byte[width];
    for i := 0 to width
      invariant forall j :: 0 <= j < i ==> buffer[Position(order, width, j)] == ByteOf(value, j)
    {
      buffer[Position(order, width, i)] := (value / Pow256(i)) % 256;
    }
    bytes := buffer[..];
    forall k | 0 <= k < width
      ensures bytes[k] == ToBytes(order, width, value)[k]
    {
      assert Position(order, width, Position(order, width, k)) == k;
    }
  }

  /** The loop of `readXEndian`: OR byte `convertIndex(i)` of the read bytes into
      bits `8i..8i+7` of an accumulator that starts at zero. The accumulator stays
      below 256^i, so each byte lands on zero bits and OR is addition. */
  method DecodeXEndian(bytes: seq<byte>, order: ByteOrder) returns (value: nat)
    requires ValidWidth(|bytes|)
    ensures value == FromBytes(order, bytes)
    ensures Fits(value, |bytes|)
  {
    value := 0;
    for i := 0 to |bytes|
      invariant value == Assemble(order, bytes, i)
      invariant value < Pow256(i)
    {
      AssembleBound(order, bytes, i + 1);
      value := value + bytes[Position(order, |bytes|, i)] * Pow256(i);
    }
  }
}

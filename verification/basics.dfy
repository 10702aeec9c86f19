/** Fixed-width integer conversions, the idealised quantisation of a coordinate,
    and an optional value, shared by the 2D and 3D grids. */
module Basics {

  const MinInt32: int := -0x8000_0000
  const MaxInt32: int := 0x7FFF_FFFF
  const TwoTo31: int := 0x8000_0000
  const TwoTo32: int := 0x1_0000_0000
  const TwoTo63: int := 0x8000_0000_0000_0000
  const TwoTo64: int := 0x1_0000_0000_0000_0000

  /** A value of C++ `int32_t`. */
  type Int32 = x: int | MinInt32 <= x <= MaxInt32

  predicate InInt32(v: int) {
    MinInt32 <= v <= MaxInt32
  }

  function Min(a: int, b: int): int {
    if a <= b then a else b
  }

  function Max(a: int, b: int): int {
    if a <= b then b else a
  }

  function Abs(v: int): nat {
    if v < 0 then -v else v
  }

  /** True when `v` lies between `a` and `b`, whichever of the two is larger. */
  predicate Between(v: int, a: int, b: int) {
    Min(a, b) <= v <= Max(a, b)
  }

  /** The `uint64_t` that a signed 64-bit (or wider) intermediate value becomes
      under two's-complement conversion. */
  function Wrap64(v: int): (r: nat)
    ensures r < TwoTo64
    ensures (v - r) % TwoTo64 == 0
    ensures 0 <= v < TwoTo64 ==> r == v
  {
    v % TwoTo64
  }

  /** The implicit conversion of an integer to `int32_t` (modulo 2^32). */
  function NarrowToInt32(v: int): (r: Int32)
    ensures (v - r) % TwoTo32 == 0
    ensures InInt32(v) ==> r == v
  {
    var m := v % TwoTo32;
    if m <= MaxInt32 then m else m - TwoTo32
  }

  /** The conversion of a floating value to `uint32_t`: truncation toward zero,
      defined only when the truncated value fits. */
  function TruncToUint32(v: real): (r: nat)
    requires -1.0 < v < TwoTo32 as real
    ensures r < TwoTo32
    ensures 0.0 <= v ==> r as real <= v < r as real + 1.0
    ensures v < 0.0 ==> r == 0
  {
    if v < 0.0 then 0 else v.Floor
  }

  /** `std::floor(v * inv)` on idealised reals: the cell coordinate of `v` along one axis. */
  function Quantize(v: real, inv: real): (i: int)
    ensures i as real <= v * inv < i as real + 1.0
  {
    (v * inv).Floor
  }

  /** The quantised coordinate fits the `int32_t` it is cast to. */
  predicate Quantizable(v: real, inv: real) {
    InInt32(Quantize(v, inv))
  }

  /** With a non-negative inverse cell size, quantisation preserves order. */
  lemma QuantizeMonotone(a: real, b: real, inv: real)
    requires a <= b
    requires 0.0 <= inv
    ensures Quantize(a, inv) <= Quantize(b, inv)
  {
    assert (b - a) * inv >= 0.0;
    assert a * inv <= b * inv;
  }

  /** With a non-positive inverse cell size, quantisation reverses order. */
  lemma QuantizeAntitone(a: real, b: real, inv: real)
    requires a <= b
    requires inv <= 0.0
    ensures Quantize(b, inv) <= Quantize(a, inv)
  {
    assert (b - a) * (-inv) >= 0.0;
    assert b * inv <= a * inv;
  }

  /** Whatever the sign of the inverse cell size, a coordinate between two others
      quantises between their cell coordinates. */
  lemma QuantizeBetween(v: real, a: real, b: real, inv: real)
    requires (a <= v <= b) || (b <= v <= a)
    ensures Between(Quantize(v, inv), Quantize(a, inv), Quantize(b, inv))
  {
    if 0.0 <= inv {
      if a <= v <= b {
        QuantizeMonotone(a, v, inv);
        QuantizeMonotone(v, b, inv);
      } else {
        QuantizeMonotone(b, v, inv);
        QuantizeMonotone(v, a, inv);
      }
    } else {
      if a <= v <= b {
        QuantizeAntitone(a, v, inv);
        QuantizeAntitone(v, b, inv);
      } else {
        QuantizeAntitone(b, v, inv);
        QuantizeAntitone(v, a, inv);
      }
    }
  }

  /** Two coordinates within `half` of each other quantise at most
      `floor(half * inv) + 1` cells apart when the inverse cell size is positive. */
  lemma QuantizeNear(p: real, c: real, half: real, inv: real)
    requires 0.0 < inv
    requires -half <= p - c <= half
    ensures -(half * inv).Floor - 1 <= Quantize(p, inv) - Quantize(c, inv) <= (half * inv).Floor + 1
  {
    var u, v, d := p * inv, c * inv, half * inv;
    assert (half - (p - c)) * inv >= 0.0;
    assert (half + (p - c)) * inv >= 0.0;
    assert u <= v + d;
    assert v <= u + d;
  }

  /** The same bound with the truncated extent the real-space searches compute:
      one cell more than `half * inv` truncated always covers a distance of `half`. */
  lemma QuantizeNearTrunc(p: real, c: real, half: real, inv: real)
    requires 0.0 < inv && 0.0 <= half
    requires -1.0 < half * inv < TwoTo32 as real
    requires -half <= p - c <= half
    ensures Abs(Quantize(p, inv) - Quantize(c, inv)) <= TruncToUint32(half * inv) + 1
  {
    QuantizeNear(p, c, half, inv);
    assert 0.0 <= half * inv;
    assert TruncToUint32(half * inv) == (half * inv).Floor;
  }

  /** The conversion of `half_size * inv` to `uint32_t` that the real-space centre
      searches perform is defined. */
  predicate ExtentDefined(half: real, inv: real) {
    -1.0 < half * inv < TwoTo32 as real
  }

  /** The integer half size a real-space centre search derives: `half_size * inv`
      converted to `uint32_t` (truncation), then implicitly to the `int32_t`
      parameter of the index search. */
  function HalfExtent(half: real, inv: real): (e: Int32)
    requires ExtentDefined(half, inv)
    ensures half * inv < 0.0 ==> e == 0
    ensures 0.0 <= half * inv < TwoTo31 as real ==> e as real <= half * inv < e as real + 1.0
    ensures TwoTo31 as real <= half * inv ==> e < 0 && e == (half * inv).Floor - TwoTo32
  {
    NarrowToInt32(TruncToUint32(half * inv))
  }

  /** The half extent that covers every point within `half` of the centre: one cell
      more than the truncated ratio. */
  function CoveringExtent(half: real, inv: real): nat
    requires ExtentDefined(half, inv)
  {
    TruncToUint32(half * inv) + 1
  }

  /** On one axis, coordinates within `half` quantise within the covering extent. */
  lemma QuantizeNearCovering(p: real, c: real, half: real, inv: real)
    requires 0.0 < inv && 0.0 <= half && ExtentDefined(half, inv)
    requires -half <= p - c <= half
    ensures Abs(Quantize(p, inv) - Quantize(c, inv)) <= CoveringExtent(half, inv)
  {
    QuantizeNearTrunc(p, c, half, inv);
  }

  /** When the centre's scaled coordinate and `half * inv` are whole numbers, no
      extra cell is needed: coordinates within `half` quantise at most `e` cells apart. */
  lemma QuantizeNearAligned(p: real, c: real, half: real, inv: real, e: int)
    requires 0.0 < inv
    requires e as real == half * inv
    requires Quantize(c, inv) as real == c * inv
    requires -half <= p - c <= half
    ensures Abs(Quantize(p, inv) - Quantize(c, inv)) <= e
  {
    var u, v := p * inv, c * inv;
    assert (half - (p - c)) * inv >= 0.0;
    assert (half + (p - c)) * inv >= 0.0;
    assert u <= v + e as real;
    assert v - e as real <= u;
  }

  datatype Option<T> = None | Some(value: T)
}

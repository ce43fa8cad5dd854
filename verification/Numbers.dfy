/** Option values and the unsigned integer arithmetic of the daemon: `u64` and `u32` are the naturals
    up to the type's largest value, and the saturating operators clamp to it. */
module Numbers {

  datatype Option<+T> = None | Some(value: T)

  const U64_MAX: nat := 0xFFFF_FFFF_FFFF_FFFF
  const U32_MAX: nat := 0xFFFF_FFFF

  type u64 = x: nat | x <= U64_MAX
  type u32 = x: nat | x <= U32_MAX

  function Max(a: nat, b: nat): nat { if a < b then b else a }

  function Min(a: nat, b: nat): nat { if a < b then a else b }

  function Clamp(x: nat): u64 { if x <= U64_MAX then x else U64_MAX }

  function SatAdd(a: nat, b: nat): u64 { Clamp(a + b) }

  function SatMul(a: nat, b: nat): u64 { Clamp(a * b) }

  function SatSub(a: nat, b: nat): nat { if a < b then 0 else a - b }

  /** Clamping before a multiplication is invisible once the product is clamped too. */
  lemma ClampThenMul(a: nat, b: nat)
    ensures SatMul(Clamp(a), b) == Clamp(a * b)
  {
    if a > U64_MAX && b > 0 {
      MulMonotone(U64_MAX, a, b, b);
      MulMonotone(U64_MAX, U64_MAX, 1, b);
    }
  }

  lemma MulMonotone(a: nat, a': nat, b: nat, b': nat)
    requires a <= a' && b <= b'
    ensures a * b <= a' * b'
  {
    assert a * b <= a' * b;
    assert a' * b <= a' * b';
  }

  lemma SatMulMonotone(a: nat, a': nat, b: nat, b': nat)
    requires a <= a' && b <= b'
    ensures SatMul(a, b) <= SatMul(a', b')
  {
    MulMonotone(a, a', b, b');
  }

  /** The quotient is the one natural `q` with `d * q <= n < d * (q + 1)`. */
  lemma DivBounds(n: nat, d: nat)
    requires d > 0
    ensures d * (n / d) <= n < d * (n / d + 1)
  {
  }

  /** A quotient of two 64-bit numbers needs no clamping. */
  function Quotient(n: u64, d: nat): u64
    requires d > 0
  {
    DivMonotone(n, n, d, 1);
    n / d
  }

  /** Division grows with the numerator and shrinks with the denominator. */
  lemma DivMonotone(n: nat, n': nat, d: nat, d': nat)
    requires n <= n' && 0 < d' <= d
    ensures n / d <= n' / d'
  {
    var q, q' := n / d, n' / d';
    DivBounds(n, d);
    DivBounds(n', d');
    if q' < q {
      MulMonotone(d', d, q' + 1, q);
      assert false;
    }
  }
}

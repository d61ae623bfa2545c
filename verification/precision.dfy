/** The engine's numeric configuration (include/gabbyphysics/precision.h).

    `real` is single-precision `float` in the engine; here it is Dafny's exact
    `real`, so rounding is abstracted away. The two libm calls the engine makes,
    `sqrtf` and `powf`, are code this model cannot see: they are handed to every
    operation that needs them as a `MathLib` value, and the one law of `sqrtf`
    that proofs rely on is stated as a predicate that lemmas assume. */
module Precision {

  /** `unsigned`: the width of contact counts, limits and iteration budgets. */
  const U32_MODULUS: int := 0x1_0000_0000

  type u32 = x: int | 0 <= x < U32_MODULUS

  /** Unsigned 32-bit wrap-around of an exact integer result. */
  function Wrap(x: int): (r: u32)
    ensures 0 <= x < U32_MODULUS ==> r == x
    ensures -U32_MODULUS <= x < 0 ==> r == x + U32_MODULUS
    ensures (x - r) % U32_MODULUS == 0
  {
    x % U32_MODULUS
  }

  /** REAL_MAX = FLT_MAX = (2 - 2^-23) * 2^127, the largest finite float. */
  const REAL_MAX: real := 340282346638528859811704183484516925440.0

  /** `real_abs` (fabsf). */
  function Abs(x: real): (r: real)
    ensures 0.0 <= r
    ensures r == x || r == -x
  {
    if x < 0.0 then -x else x
  }

  /** The libm entry points the engine calls: `real_sqrt` and `real_pow`. */
  datatype MathLib = MathLib(sqrt: real -> real, pow: (real, real) -> real)
  {
    /** What the engine needs of `sqrtf`: on a non-negative argument it returns
        the non-negative square root. */
    ghost predicate SqrtLaw() {
      forall x: real :: 0.0 <= x ==> 0.0 <= sqrt(x) && sqrt(x) * sqrt(x) == x
    }
  }

  /** A non-negative square root is unique; with `SqrtLaw` this pins `sqrt`. */
  lemma SqrtUnique(r: real, s: real)
    requires 0.0 <= r && 0.0 <= s && r * r == s * s
    ensures r == s
  {
    if r < s {
      MulStrict(r, s);
    } else if s < r {
      MulStrict(s, r);
    }
  }

  /** Squaring is strictly increasing on the non-negative reals. */
  lemma MulStrict(a: real, b: real)
    requires 0.0 <= a < b
    ensures a * a < b * b
  {
    var aa, ab, bb := a * a, a * b, b * b;
    assert aa <= ab;
    assert ab < bb;
  }

  /** Under `SqrtLaw`, the square root of a perfect square is its magnitude. */
  lemma SqrtOfSquare(lib: MathLib, c: real)
    requires lib.SqrtLaw()
    ensures lib.sqrt(c * c) == Abs(c)
  {
    var r := lib.sqrt(c * c);
    assert 0.0 <= c * c;
    assert 0.0 <= r && r * r == c * c;
    SqrtUnique(r, Abs(c));
  }

  /** The product of two positive numbers is positive. The product is
      passed in as `q` so that callers learn a fact about their own term. */
  lemma ProductPositive(a: real, b: real, q: real)
    requires 0.0 < a && 0.0 < b && q == a * b
    ensures 0.0 < q
  {
  }

  lemma SquarePositive(a: real, q: real)
    requires a != 0.0 && q == a * a
    ensures 0.0 < q
  {
    if 0.0 < a {
      ProductPositive(a, a, q);
    } else {
      ProductPositive(-a, -a, q);
    }
  }

  lemma SquareNonNegative(a: real, q: real)
    requires q == a * a
    ensures 0.0 <= q
  {
    if a != 0.0 {
      SquarePositive(a, q);
    }
  }

  /** The product of two numbers of opposite sign is not positive. */
  lemma ProductNonPositive(a: real, b: real, q: real)
    requires 0.0 <= a && b <= 0.0 && q == a * b
    ensures q <= 0.0
  {
    if 0.0 < a && b < 0.0 {
      ProductPositive(a, -b, -q);
    }
  }

  /** The product of two non-negative numbers is non-negative. */
  lemma ProductNonNegative(a: real, b: real, q: real)
    requires 0.0 <= a && 0.0 <= b && q == a * b
    ensures 0.0 <= q
  {
    if 0.0 < a && 0.0 < b {
      ProductPositive(a, b, q);
    }
  }
}

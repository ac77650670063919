/** The three complex-number helpers `complex_mult`, `complex_add` and
    `complex_unsqrt_magnitude`, over exact reals instead of `long double`. */
module ComplexArith {

  /** A point of the complex plane, `re + im*I`. */
  datatype Complex = Complex(re: real, im: real)

  const Zero: Complex := Complex(0.0, 0.0)

  const One: Complex := Complex(1.0, 0.0)
  const I: Complex := Complex(0.0, 1.0)

  /** `complex_mult`: the product `(ar*br - ai*bi) + (ar*bi + br*ai)*I`.  It agrees with
      real multiplication on the real axis, has 1 as its neutral element, and squares
      the imaginary unit to -1. */
  function Mult(a: Complex, b: Complex): (r: Complex)
    ensures a.im == 0.0 && b.im == 0.0 ==> r == Complex(a.re * b.re, 0.0)
    ensures b == One ==> r == a
    ensures a == I && b == I ==> r == Complex(-1.0, 0.0)
  {
    Complex(a.re * b.re - a.im * b.im, a.re * b.im + b.re * a.im)
  }

  /** `complex_add`: component-wise sum; subtracting `b` again gives back `a`. */
  function Add(a: Complex, b: Complex): (r: Complex)
    ensures Complex(r.re - b.re, r.im - b.im) == a
    ensures a.im == 0.0 && b.im == 0.0 ==> r == Complex(a.re + b.re, 0.0)
  {
    Complex(a.re + b.re, a.im + b.im)
  }

  /** `complex_unsqrt_magnitude`: the squared modulus `re*re + im*im`, never negative. */
  function UnsqrtMagnitude(c: Complex): (m: real)
    ensures m >= 0.0
  {
    SquareSign(c.re);
    SquareSign(c.im);
    c.re * c.re + c.im * c.im
  }

  /** A square is never negative. */
  lemma SquareSign(x: real)
    ensures x * x >= 0.0
  {
    if x < 0.0 {
      assert x * x == (-x) * (-x);
    }
  }

  /** Multiplication is commutative. */
  lemma MultCommutes(a: Complex, b: Complex)
    ensures Mult(a, b) == Mult(b, a)
  {
  }

  /** Addition is commutative, and the origin is its neutral element. */
  lemma AddCommutes(a: Complex, b: Complex)
    ensures Add(a, b) == Add(b, a)
    ensures Add(a, Zero) == a
  {
  }

  /** The origin absorbs multiplication. */
  lemma MultZero(a: Complex)
    ensures Mult(Zero, a) == Zero && Mult(a, Zero) == Zero
  {
  }

  /** The squared modulus is multiplicative: |a*b|^2 == |a|^2 * |b|^2. */
  lemma MagnitudeOfProduct(a: Complex, b: Complex)
    ensures UnsqrtMagnitude(Mult(a, b)) == UnsqrtMagnitude(a) * UnsqrtMagnitude(b)
  {
    ProductOfSumsOfSquares(a.re, a.im, b.re, b.im);
  }

  /** The two-square identity written on the four real components. */
  lemma ProductOfSumsOfSquares(ar: real, ai: real, br: real, bi: real)
    ensures (ar * br - ai * bi) * (ar * br - ai * bi) + (ar * bi + br * ai) * (ar * bi + br * ai)
         == (ar * ar + ai * ai) * (br * br + bi * bi)
  {
    SquareOfDifference(ar * br, ai * bi);
    SquareOfSum(ar * bi, br * ai);
    assert (ar * br) * (ai * bi) == (ar * bi) * (br * ai);
    assert (ar * br) * (ar * br) == (ar * ar) * (br * br);
    assert (ai * bi) * (ai * bi) == (ai * ai) * (bi * bi);
    assert (ar * bi) * (ar * bi) == (ar * ar) * (bi * bi);
    assert (br * ai) * (br * ai) == (ai * ai) * (br * br);
  }

  lemma SquareOfDifference(p: real, q: real)
    ensures (p - q) * (p - q) == p * p - 2.0 * (p * q) + q * q
  {
  }

  lemma SquareOfSum(p: real, q: real)
    ensures (p + q) * (p + q) == p * p + 2.0 * (p * q) + q * q
  {
  }
}

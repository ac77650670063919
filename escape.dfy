/** The escape-time classifier: starting from `z = c`, repeat `z = z*z + c` and stop at
    the first iterate whose squared modulus exceeds 4, for at most `MAX_ITERATIONS`
    steps. */
module Escape {
  import opened ComplexArith

  /** One step of the recurrence, `complex_add(complex_mult(z, z), c)`: the step minus
      `c` has the square of the squared modulus of `z`, and on the real axis the step
      is `z*z + c` on the real parts. */
  function Step(z: Complex, c: Complex): (r: Complex)
    ensures UnsqrtMagnitude(Complex(r.re - c.re, r.im - c.im)) == UnsqrtMagnitude(z) * UnsqrtMagnitude(z)
    ensures z.im == 0.0 && c.im == 0.0 ==> r == Complex(z.re * z.re + c.re, 0.0)
  {
    MagnitudeOfProduct(z, z);
    Add(Mult(z, z), c)
  }

  /** The escape test `complex_unsqrt_magnitude(z) > 4`: a point more than 2 from the
      origin along either axis escapes, and a point within `sqrt 2` of the origin along
      both axes does not. */
  predicate Escapes(z: Complex): (r: bool)
    ensures z.re * z.re > 4.0 || z.im * z.im > 4.0 ==> r
    ensures r ==> z.re * z.re > 2.0 || z.im * z.im > 2.0
  {
    SquareSign(z.re);
    SquareSign(z.im);
    assert UnsqrtMagnitude(z) == z.re * z.re + z.im * z.im;
    UnsqrtMagnitude(z) > 4.0
  }

  /** The value of `z` after `n` steps from the seed `z = c`. */
  function Iterate(c: Complex, n: nat): Complex
  {
    if n == 0 then c else Step(Iterate(c, n - 1), c)
  }

  /** The value the loop tests (and, in the density renderer, records) at iteration `k`:
      the step is applied before the test, so it is the iterate number `k + 1`. */
  function OrbitPoint(c: Complex, k: nat): Complex
  {
    Iterate(c, k + 1)
  }

  /** Whether the test at iteration `k` succeeds. */
  predicate EscapesAt(c: Complex, k: nat)
  {
    Escapes(OrbitPoint(c, k))
  }

  /** Outcome of classifying one point. */
  datatype EscapeResult = Escaped(iteration: nat) | Bounded

  /** `r` is the outcome the loop must report for `c` under the cap `maxIterations`:
      `Escaped(k)` when iteration `k` is the first whose test succeeds, and `Bounded`
      when no test among the first `maxIterations` succeeds. */
  ghost predicate IsEscapeTime(c: Complex, maxIterations: nat, r: EscapeResult)
  {
    match r
    case Escaped(k) =>
      k < maxIterations && EscapesAt(c, k) && forall j :: 0 <= j < k ==> !EscapesAt(c, j)
    case Bounded =>
      forall j :: 0 <= j < maxIterations ==> !EscapesAt(c, j)
  }

  /** The outcome of the iterations from `k` on. */
  function ClassifyFrom(c: Complex, k: nat, maxIterations: nat): (r: EscapeResult)
    decreases maxIterations - k
    ensures r.Escaped? ==>
      k <= r.iteration < maxIterations && EscapesAt(c, r.iteration)
      && forall j :: k <= j < r.iteration ==> !EscapesAt(c, j)
    ensures r.Bounded? ==> forall j :: k <= j < maxIterations ==> !EscapesAt(c, j)
  {
    if k >= maxIterations then Bounded
    else if EscapesAt(c, k) then Escaped(k)
    else ClassifyFrom(c, k + 1, maxIterations)
  }

  /** The reference classification of `c`. */
  function Classify(c: Complex, maxIterations: nat): (r: EscapeResult)
    ensures IsEscapeTime(c, maxIterations, r)
  {
    ClassifyFrom(c, 0, maxIterations)
  }

  /** The `iter` loop of `mandelbrot`: apply the step, test, and stop at the first
      escape; when the cap is reached without escaping, the point is bounded. */
  method EscapeTime(c: Complex, maxIterations: nat) returns (r: EscapeResult)
    ensures IsEscapeTime(c, maxIterations, r)
    ensures r == Classify(c, maxIterations)
  {
    var z := c;
    var iter := 0;
    r := Bounded;
    while iter < maxIterations
      invariant 0 <= iter <= maxIterations
      invariant z == Iterate(c, iter)
      invariant ClassifyFrom(c, iter, maxIterations) == Classify(c, maxIterations)
    {
      z := Step(z, c);
      if Escapes(z) {
        r := Escaped(iter);
        break;
      }
      iter := iter + 1;
    }
  }

  /** The characterisation determines the outcome: classifying the same point twice
      cannot give two answers. */
  lemma EscapeTimeUnique(c: Complex, maxIterations: nat, r1: EscapeResult, r2: EscapeResult)
    requires IsEscapeTime(c, maxIterations, r1) && IsEscapeTime(c, maxIterations, r2)
    ensures r1 == r2
  {
  }

  /** `Classify(c, m) == Escaped(k)` exactly when iteration `k` is the first escaping one
      and lies under the cap. */
  lemma ClassifyEscapedIff(c: Complex, maxIterations: nat, k: nat)
    ensures Classify(c, maxIterations) == Escaped(k) <==>
      (k < maxIterations && EscapesAt(c, k) && forall j :: 0 <= j < k ==> !EscapesAt(c, j))
  {
    if k < maxIterations && EscapesAt(c, k) && forall j :: 0 <= j < k ==> !EscapesAt(c, j) {
      EscapeTimeUnique(c, maxIterations, Classify(c, maxIterations), Escaped(k));
    }
  }

  /** Raising the cap never changes an escape that was found, and a point bounded under
      the larger cap is bounded under the smaller one. */
  lemma ClassifyCapMonotone(c: Complex, m1: nat, m2: nat)
    requires m1 <= m2
    ensures Classify(c, m1).Escaped? ==> Classify(c, m2) == Classify(c, m1)
    ensures Classify(c, m2).Bounded? ==> Classify(c, m1).Bounded?
  {
    var r1 := Classify(c, m1);
    if r1.Escaped? {
      EscapeTimeUnique(c, m2, Classify(c, m2), r1);
    }
  }

  /** One step more is one application of `Step`. */
  lemma IterateUnfold(c: Complex, n: nat)
    requires n > 0
    ensures Iterate(c, n) == Step(Iterate(c, n - 1), c)
  {
  }

  /** When the first step from `c` lands on a fixed point `p` of the step, every
      iterate from the first on is `p`. */
  lemma {:induction false} FixedPointOrbit(c: Complex, p: Complex, n: nat)
    requires Step(c, c) == p && Step(p, c) == p
    requires n >= 1
    ensures Iterate(c, n) == p
  {
    IterateUnfold(c, n);
    if n > 1 {
      FixedPointOrbit(c, p, n - 1);
    }
  }

  /** A point none of whose tests succeeds is bounded under every cap. */
  lemma NeverEscapingIsBounded(c: Complex, maxIterations: nat)
    requires forall j: nat :: !EscapesAt(c, j)
    ensures Classify(c, maxIterations) == Bounded
  {
  }

  /** If the orbit of `c` reaches a fixed point whose squared modulus is at most 4 in
      one step, `c` is bounded under every cap. */
  lemma FixedPointBounded(c: Complex, p: Complex, maxIterations: nat)
    requires Step(c, c) == p && Step(p, c) == p
    requires UnsqrtMagnitude(p) <= 4.0
    ensures Classify(c, maxIterations) == Bounded
  {
    forall j: nat
      ensures !EscapesAt(c, j)
    {
      FixedPointOrbit(c, p, j + 1);
    }
    NeverEscapingIsBounded(c, maxIterations);
  }

  /** A real `c = b` whose first iterate `a = b*b + b` is a fixed point `a*a + b == a`
      with `a*a <= 4` is bounded under every cap. */
  lemma RealFixedPointBounded(b: real, a: real, maxIterations: nat)
    requires b * b + b == a && a * a + b == a
    requires a * a <= 4.0
    ensures Classify(Complex(b, 0.0), maxIterations) == Bounded
  {
    assert UnsqrtMagnitude(Complex(a, 0.0)) == a * a + 0.0 * 0.0;
    FixedPointBounded(Complex(b, 0.0), Complex(a, 0.0), maxIterations);
  }

  /** `c = 0` is bounded under every cap: every iterate is 0. */
  lemma OriginBounded(maxIterations: nat)
    ensures Classify(Zero, maxIterations) == Bounded
  {
    RealFixedPointBounded(0.0, 0.0, maxIterations);
  }

  /** `c = -2` is bounded under every cap: every iterate is 2, and since the test is
      strict, `|2|^2 = 4` does not escape. */
  lemma MinusTwoBounded(maxIterations: nat)
    ensures Classify(Complex(-2.0, 0.0), maxIterations) == Bounded
  {
    RealFixedPointBounded(-2.0, 2.0, maxIterations);
  }

  /** `c = 2` escapes at iteration 0: its first iterate is 6. */
  lemma TwoEscapesAtOnce(maxIterations: nat)
    requires maxIterations > 0
    ensures Classify(Complex(2.0, 0.0), maxIterations) == Escaped(0)
  {
    var c := Complex(2.0, 0.0);
    assert OrbitPoint(c, 0) == Step(c, c) == Complex(6.0, 0.0);
    assert UnsqrtMagnitude(Complex(6.0, 0.0)) == 36.0;
    ClassifyEscapedIff(c, maxIterations, 0);
  }

  /** `c = 3` escapes at iteration 0: its first iterate is 12. */
  lemma ThreeEscapesAtOnce(maxIterations: nat)
    requires maxIterations > 0
    ensures Classify(Complex(3.0, 0.0), maxIterations) == Escaped(0)
  {
    var c := Complex(3.0, 0.0);
    assert OrbitPoint(c, 0) == Step(c, c) == Complex(12.0, 0.0);
    assert UnsqrtMagnitude(Complex(12.0, 0.0)) == 144.0;
    ClassifyEscapedIff(c, maxIterations, 0);
  }

  /** `c = -2 - 1.5i`, the first sample point of the scan, escapes at iteration 0: its
      first iterate is `-0.25 + 4.5i`, of squared modulus 20.3125. */
  lemma CornerEscapesAtOnce(maxIterations: nat)
    requires maxIterations > 0
    ensures Classify(Complex(-2.0, -1.5), maxIterations) == Escaped(0)
  {
    var c := Complex(-2.0, -1.5);
    assert OrbitPoint(c, 0) == Step(c, c) == Complex(-0.25, 4.5);
    ClassifyEscapedIff(c, maxIterations, 0);
  }

  /** With a cap of zero the loop body never runs and every point is bounded. */
  lemma ZeroCapBounded(c: Complex)
    ensures Classify(c, 0) == Bounded
  {
  }
}

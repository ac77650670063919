/** The viewport and the mapping between pixel indices and plane points: the sample grid
    `x = FROMX + px*STEPX`, `y = FROMY + py*STEPY`, and `complex_to_coord`, which scales a
    plane point to pixel units and converts it to `int`.  Each axis is handled by the
    same generic functions over an interval `[lo, hi)` split into `n` cells. */
module Coords {
  import opened ComplexArith

  /** The viewport `[FROMX, TOX) x [FROMY, TOY)`. */
  const FromX: real := -2.0
  const ToX: real := 1.0
  const FromY: real := -1.5
  const ToY: real := 1.5

  /** The width of one of `n` equal cells of `[lo, hi)`. */
  function CellWidth(lo: real, hi: real, n: nat): (s: real)
    requires lo < hi && n > 0
    ensures s > 0.0 && s * n as real == hi - lo
  {
    (hi - lo) / n as real
  }

  /** `STEPX`: the width of one pixel column in plane units. */
  function StepX(width: nat): (s: real)
    requires width > 0
    ensures s > 0.0 && s * width as real == ToX - FromX
  {
    CellWidth(FromX, ToX, width)
  }

  /** `STEPY`: the height of one pixel row in plane units. */
  function StepY(height: nat): (s: real)
    requires height > 0
    ensures s > 0.0 && s * height as real == ToY - FromY
  {
    CellWidth(FromY, ToY, height)
  }

  /** C's conversion of a floating value to `int`: the fraction is discarded, so the
      value is rounded toward zero (ISO C11 section 6.3.1.4). */
  function TruncateToInt(r: real): (n: int)
    ensures 0.0 <= r ==> n as real <= r < n as real + 1.0
    ensures r < 0.0 ==> n as real - 1.0 < r <= n as real
  {
    if r >= 0.0 then r.Floor else -((-r).Floor)
  }

  /** A pixel coordinate as `complex_to_coord` returns it; it may lie outside the raster. */
  datatype Coord = Coord(x: int, y: int)

  /** Grid point number `p` of an axis: `lo + p*step`. */
  function AxisPoint(p: int, lo: real, hi: real, n: nat): (v: real)
    requires lo < hi && n > 0
    ensures 0 <= p < n ==> lo <= v < hi
  {
    var s := CellWidth(lo, hi, n);
    var v := lo + p as real * s;
    if 0 <= p < n then GridInside(p as real, n as real, s); v else v
  }

  /** `p` whole cells of width `s`, with `p + 1 <= n`, stay within `n` cells. */
  lemma GridInside(p: real, n: real, s: real)
    requires 0.0 <= p && p + 1.0 <= n && s > 0.0
    ensures 0.0 <= p * s < n * s
  {
    assert n * s - p * s == (n - p) * s;
    assert (n - p) * s >= 1.0 * s;
  }

  /** The plane point sampled for pixel `(px, py)`; the point of every pixel of the
      raster lies in the viewport. */
  function PixelToPlane(px: int, py: int, width: nat, height: nat): (c: Complex)
    requires width > 0 && height > 0
    ensures 0 <= px < width && 0 <= py < height ==> FromX <= c.re < ToX && FromY <= c.im < ToY
  {
    Complex(AxisPoint(px, FromX, ToX, width), AxisPoint(py, FromY, ToY, height))
  }

  /** An offset `u` from the start of an interval of length `d` split into `n` cells,
      measured in cells: `(n*u)/d`. */
  function Scale(u: real, n: nat, d: real): real
    requires d > 0.0
  {
    n as real * u / d
  }

  /** The scaled and truncated position of `v` on an axis, `(int)((n*(v - lo))/(hi - lo))`:
      it is a cell index exactly when `lo - step < v < hi`, because truncation toward
      zero sends everything in `(lo - step, lo)` to cell 0. */
  function AxisIndex(v: real, lo: real, hi: real, n: nat): (i: int)
    requires lo < hi && n > 0
    ensures 0 <= i < n <==> lo - CellWidth(lo, hi, n) < v < hi
  {
    TruncateInRange(Scale(v - lo, n, hi - lo), n);
    ScaleInRange(v - lo, n, hi - lo);
    TruncateToInt(Scale(v - lo, n, hi - lo))
  }

  /** `complex_to_coord`: both axes of a plane point in pixel units.  A column is in
      range exactly when `FROMX - STEPX < re < TOX`, a row exactly when
      `FROMY - STEPY < im < TOY`. */
  function ComplexToCoord(c: Complex, width: nat, height: nat): (p: Coord)
    requires width > 0 && height > 0
    ensures 0 <= p.x < width <==> FromX - StepX(width) < c.re < ToX
    ensures 0 <= p.y < height <==> FromY - StepY(height) < c.im < ToY
  {
    Coord(AxisIndex(c.re, FromX, ToX, width), AxisIndex(c.im, FromY, ToY, height))
  }

  /** Truncating `t` gives an index in `[0, n)` exactly when `-1 < t < n`. */
  lemma TruncateInRange(t: real, n: nat)
    requires n > 0
    ensures 0 <= TruncateToInt(t) < n <==> -1.0 < t < n as real
  {
    var i := TruncateToInt(t);
    if t >= 0.0 {
      assert i as real <= t < i as real + 1.0;
      assert 0 <= i;
    } else {
      assert i as real - 1.0 < t <= i as real;
      assert i <= 0;
      if -1.0 < t {
        assert i as real > -1.0;
      } else {
        assert i as real <= -1.0;
      }
    }
  }

  /** Truncating a whole number gives it back. */
  lemma TruncateWhole(p: int)
    ensures TruncateToInt(p as real) == p
  {
    var i := TruncateToInt(p as real);
    if p >= 0 {
      assert i as real <= p as real < i as real + 1.0;
    } else {
      assert i as real - 1.0 < p as real <= i as real;
    }
  }

  /** A scaled offset lies in `(-1, n)` exactly when the offset lies in `(-d/n, d)`. */
  lemma ScaleInRange(u: real, n: nat, d: real)
    requires n > 0 && d > 0.0
    ensures -1.0 < Scale(u, n, d) <==> -(d / n as real) < u
    ensures Scale(u, n, d) < n as real <==> u < d
  {
    ScaledBounds(Scale(u, n, d), n as real, d, u);
  }

  /** The offset of grid point `p` scales to exactly `p`. */
  lemma ScaleOfMultiple(u: real, p: real, n: nat, d: real)
    requires n > 0 && d > 0.0 && u == p * (d / n as real)
    ensures Scale(u, n, d) == p
  {
    ScaleBack(u, p, n as real, d);
  }

  /** Scaling back by the cell width recovers the offset. */
  lemma ScaleTimesWidth(u: real, n: nat, d: real)
    requires n > 0 && d > 0.0
    ensures Scale(u, n, d) * (d / n as real) == u
  {
    UnscaleBack(u, n as real, d);
  }

  /** With `t == m*u/d` for positive `m` and `d`: `-1 < t` exactly when `-(d/m) < u`,
      and `t < m` exactly when `u < d`. */
  lemma ScaledBounds(t: real, m: real, d: real, u: real)
    requires m > 0.0 && d > 0.0 && t == m * u / d
    ensures -1.0 < t <==> -(d / m) < u
    ensures t < m <==> u < d
  {
    assert t * d == u * m;
    assert -1.0 < t <==> -d < u * m by {
      ScaleCompare(-1.0, t, d);
      assert -1.0 * d == -d;
    }
    assert -d < u * m <==> -(d / m) < u by {
      ScaleCompare(-(d / m), u, m);
      assert (d / m) * m == d;
      assert -(d / m) * m == -((d / m) * m);
    }
    assert t < m <==> u * m < d * m by {
      ScaleCompare(t, m, d);
      assert m * d == d * m;
    }
    ScaleCompare(u, d, m);
  }

  /** `m*u/d == p` when `u == p*(d/m)`, for positive `m` and `d`. */
  lemma ScaleBack(u: real, p: real, m: real, d: real)
    requires m > 0.0 && d > 0.0 && u == p * (d / m)
    ensures m * u / d == p
  {
    assert (d / m) * m == d;
    assert m * (p * (d / m)) == p * ((d / m) * m);
  }

  /** `(m*u/d) * (d/m) == u` for positive `m` and `d`. */
  lemma UnscaleBack(u: real, m: real, d: real)
    requires m > 0.0 && d > 0.0
    ensures (m * u / d) * (d / m) == u
  {
    assert (d / m) * m == d;
    assert (m * u / d) * d == m * u;
    assert (m * u / d) * (d / m) * m == (m * u / d) * d;
    ScaleCancel((m * u / d) * (d / m), u, m);
  }

  /** The grid point number `p` of an axis scales back to exactly `p`. */
  lemma AxisOfGridPoint(p: int, lo: real, hi: real, n: nat)
    requires lo < hi && n > 0
    ensures AxisIndex(AxisPoint(p, lo, hi, n), lo, hi, n) == p
  {
    var v := AxisPoint(p, lo, hi, n);
    ScaleOfMultiple(v - lo, p as real, n, hi - lo);
    TruncateWhole(p);
  }

  /** Mapping a sample point back gives the pixel it was sampled for. */
  lemma PixelRoundTrip(px: int, py: int, width: nat, height: nat)
    requires width > 0 && height > 0
    ensures ComplexToCoord(PixelToPlane(px, py, width, height), width, height) == Coord(px, py)
  {
    AxisOfGridPoint(px, FromX, ToX, width);
    AxisOfGridPoint(py, FromY, ToY, height);
  }

  /** A value below `i + 1` scales by the cell width `s` to below `i*s + s`. */
  lemma BelowNextCell(t: real, i: real, s: real, u: real)
    requires s > 0.0 && t * s == u && t < i + 1.0
    ensures u < i * s + s
  {
    ScaleCompare(t, i + 1.0, s);
    assert (i + 1.0) * s == i * s + s;
  }

  /** A value above `i - 1` scales by the cell width `s` to above `i*s - s`. */
  lemma AbovePreviousCell(t: real, i: real, s: real, u: real)
    requires s > 0.0 && t * s == u && i - 1.0 < t
    ensures i * s - s < u
  {
    ScaleCompare(i - 1.0, t, s);
    assert (i - 1.0) * s == i * s - s;
  }

  /** A value not below `i` scales by the cell width `s` to at least `i*s`. */
  lemma FromCellStart(t: real, i: real, s: real, u: real)
    requires s > 0.0 && t * s == u && i <= t
    ensures i * s <= u
  {
    ScaleLe(i, t, s);
  }

  /** Any `v` lies within one cell of the grid point of its axis index, and on or after
      it when `lo <= v`. */
  lemma AxisNearGrid(v: real, lo: real, hi: real, n: nat)
    requires lo < hi && n > 0
    ensures var s := CellWidth(lo, hi, n);
      var g := AxisPoint(AxisIndex(v, lo, hi, n), lo, hi, n);
      g - s < v < g + s && (lo <= v ==> g <= v)
  {
    var s, t := CellWidth(lo, hi, n), Scale(v - lo, n, hi - lo);
    assert s == (hi - lo) / n as real;
    ScaleTimesWidth(v - lo, n, hi - lo);
    var i := TruncateToInt(t) as real;
    BelowNextCell(t, i, s, v - lo);
    AbovePreviousCell(t, i, s, v - lo);
    if lo <= v {
      ScaleNonNegative(v - lo, n, hi - lo);
      FromCellStart(t, i, s, v - lo);
    }
  }

  /** A non-negative offset scales to a non-negative value. */
  lemma ScaleNonNegative(u: real, n: nat, d: real)
    requires n > 0 && d > 0.0 && 0.0 <= u
    ensures 0.0 <= Scale(u, n, d)
  {
    var t := Scale(u, n, d);
    assert t * d == n as real * u;
    ScaleLe(0.0, u, n as real);
    ScaleLe(0.0, t, d);
  }

  /** A point in the raster lies within one pixel step of the sample point of the pixel
      it lands in, and on or right of (below) it when it is inside the viewport. */
  lemma CoordNearPixel(c: Complex, width: nat, height: nat)
    requires width > 0 && height > 0
    ensures var p := ComplexToCoord(c, width, height);
      var g := PixelToPlane(p.x, p.y, width, height);
      g.re - StepX(width) < c.re < g.re + StepX(width) &&
      g.im - StepY(height) < c.im < g.im + StepY(height) &&
      (FromX <= c.re ==> g.re <= c.re) && (FromY <= c.im ==> g.im <= c.im)
  {
    AxisNearGrid(c.re, FromX, ToX, width);
    AxisNearGrid(c.im, FromY, ToY, height);
  }

  /** Multiplying both sides by a positive factor preserves a strict comparison. */
  lemma ScaleCompare(a: real, b: real, k: real)
    requires k > 0.0
    ensures a < b <==> a * k < b * k
  {
    if a < b {
      assert (b - a) * k > 0.0;
    } else {
      assert (a - b) * k >= 0.0;
    }
  }

  /** Multiplying both sides by a positive factor preserves a non-strict comparison. */
  lemma ScaleLe(a: real, b: real, k: real)
    requires k > 0.0
    ensures a <= b <==> a * k <= b * k
  {
    ScaleCompare(b, a, k);
  }

  /** A positive factor can be cancelled from both sides of an equation. */
  lemma ScaleCancel(a: real, b: real, k: real)
    requires k > 0.0 && a * k == b * k
    ensures a == b
  {
    ScaleCompare(a, b, k);
    ScaleCompare(b, a, k);
  }
}

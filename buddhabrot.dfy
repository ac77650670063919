/** The density renderer `buddhabrot`: for every sample point whose orbit escapes within
    the cap, every recorded orbit point that lands in the raster raises its pixel's
    counter; afterwards every pixel with a positive count gets the palette colour of
    that count, and the others stay black. */
module Buddhabrot {
  import opened Palette
  import opened ComplexArith
  import opened Escape
  import opened Coords
  import opened Raster
  import opened Heatmap

  /** The points the iteration loop records for `c`: when the test succeeds at iteration
      `k`, the iterates `OrbitPoint(c, 0) .. OrbitPoint(c, k)` (the escaping one
      included); a bounded point contributes none. */
  function SampleOrbit(c: Complex, maxIterations: nat): (o: seq<Complex>)
    ensures Classify(c, maxIterations).Bounded? ==> o == []
    ensures Classify(c, maxIterations).Escaped? ==>
      |o| == Classify(c, maxIterations).iteration + 1 <= maxIterations
    ensures forall j :: 0 <= j < |o| ==> o[j] == OrbitPoint(c, j)
  {
    match Classify(c, maxIterations)
    case Escaped(k) => seq(k + 1, j requires 0 <= j <= k => OrbitPoint(c, j))
    case Bounded => []
  }

  /** The orbit every pixel of the scan records, by row-major pixel number. */
  function PixelOrbits(width: nat, height: nat, maxIterations: nat): (os: seq<seq<Complex>>)
    requires width > 0 && height > 0
    ensures |os| == width * height
  {
    seq(width * height, i requires 0 <= i < width * height =>
      SampleOrbit(PixelToPlane(i % width, i / width, width, height), maxIterations))
  }

  /** The points recorded by the whole sampling pass, in the order they are recorded
      (replay order aside). */
  function SampledOrbits(width: nat, height: nat, maxIterations: nat): seq<Complex>
    requires width > 0 && height > 0
  {
    Flatten(PixelOrbits(width, height, maxIterations))
  }

  /** The counters at the end of the sampling pass: a zeroed heat map with every
      sampled orbit recorded. */
  function Heat(width: nat, height: nat, maxIterations: nat): (h: seq<nat>)
    requires width > 0 && height > 0
    ensures |h| == width * height
  {
    Accumulated(seq(width * height, _ => 0), SampledOrbits(width, height, maxIterations), width, height)
  }

  /** The colour of a pixel whose counter is `n`: the palette colour when `n > 0`, the
      background otherwise. */
  function HeatColor(n: nat): Rgb
  {
    if n > 0 then ColorFor(n) else Black
  }

  /** One sample of the density pass: iterate from `z = c`, store every new iterate in
      `orbit`, and at the first escape replay the stored iterates from the last to the
      first, raising the counter of each one that lands in the raster.  A bounded
      sample leaves the heat map as it was. */
  method AccumulateSample(heatmap: array<nat>, orbit: array<Complex>, c: Complex,
                          width: nat, height: nat, maxIterations: nat)
    requires width > 0 && height > 0
    requires heatmap.Length == width * height && orbit.Length == maxIterations
    modifies heatmap, orbit
    ensures heatmap[..] == Accumulated(old(heatmap[..]), SampleOrbit(c, maxIterations), width, height)
  {
    var z := c;
    var iter := 0;
    while iter < maxIterations
      invariant 0 <= iter <= maxIterations
      invariant z == Iterate(c, iter)
      invariant forall j :: 0 <= j < iter ==> orbit[j] == OrbitPoint(c, j)
      invariant ClassifyFrom(c, iter, maxIterations) == Classify(c, maxIterations)
      invariant heatmap[..] == old(heatmap[..])
    {
      z := Step(z, c);
      orbit[iter] := z;
      iter := iter + 1;
      if Escapes(z) {
        assert orbit[..iter] == SampleOrbit(c, maxIterations);
        Replay(heatmap, orbit, iter, width, height);
        return;
      }
    }
    AccumulatedEmpty(old(heatmap[..]), width, height);
  }

  /** The replay `while (iter-- > 0)` after an escape: the first `top` stored iterates,
      last one first, each raising the counter of the cell it lands in, if any. */
  method Replay(heatmap: array<nat>, orbit: array<Complex>, top: nat, width: nat, height: nat)
    requires width > 0 && height > 0
    requires heatmap.Length == width * height && top <= orbit.Length
    modifies heatmap
    ensures heatmap[..] == Accumulated(old(heatmap[..]), orbit[..top], width, height)
  {
    var iter := top;
    while iter > 0
      invariant 0 <= iter <= top
      invariant heatmap[..] == Accumulated(old(heatmap[..]), orbit[iter..top], width, height)
    {
      iter := iter - 1;
      assert orbit[iter..top] == [orbit[iter]] + orbit[iter + 1..top];
      RecordAccumulated(old(heatmap[..]), orbit[iter], orbit[iter + 1..top], width, height);
      var p := ComplexToCoord(orbit[iter], width, height);
      if 0 <= p.x < width && 0 <= p.y < height {
        CellIndexBounds(p.x, p.y, width, height);
        heatmap[p.y * width + p.x] := heatmap[p.y * width + p.x] + 1;
      }
    }
    assert orbit[0..top] == orbit[..top];
  }

  /** The colouring pass: every pixel whose counter is positive gets the palette colour
      of its count; the bytes of every other pixel are left as they were. */
  method Colorize(heatmap: array<nat>, buffer: array<byte>, width: nat, height: nat)
    requires heatmap.Length == width * height && buffer.Length == 3 * (width * height)
    modifies buffer
    ensures forall i :: 0 <= i < width * height ==>
      RgbAt(buffer[..], i) == (if heatmap[i] > 0 then ColorFor(heatmap[i]) else RgbAt(old(buffer[..]), i))
  {
    var cell := 0;
    var row := 0;
    while row < height
      invariant 0 <= row <= height && cell == row * width
      invariant forall i :: 0 <= i < cell ==>
        RgbAt(buffer[..], i) == (if heatmap[i] > 0 then ColorFor(heatmap[i]) else RgbAt(old(buffer[..]), i))
      invariant forall j :: 3 * cell <= j < buffer.Length ==> buffer[j] == old(buffer[j])
    {
      MulMonotone(row + 1, height, width);
      var col := 0;
      while col < width
        invariant 0 <= col <= width && cell == row * width + col
        invariant forall i :: 0 <= i < cell ==>
          RgbAt(buffer[..], i) == (if heatmap[i] > 0 then ColorFor(heatmap[i]) else RgbAt(old(buffer[..]), i))
        invariant forall j :: 3 * cell <= j < buffer.Length ==> buffer[j] == old(buffer[j])
      {
        CellIndexBounds(col, row, width, height);
        if heatmap[cell] > 0 {
          WriteRgbEffect(buffer[..], cell, ColorFor(heatmap[cell]));
          PutPixel(buffer, cell, ColorFor(heatmap[cell]));
        }
        cell := cell + 1;
        col := col + 1;
      }
      row := row + 1;
    }
  }

  /** The sampling pass: every pixel in scan order, rows top to bottom. */
  method SamplePass(heatmap: array<nat>, orbit: array<Complex>, width: nat, height: nat, maxIterations: nat)
    requires width > 0 && height > 0
    requires heatmap.Length == width * height && orbit.Length == maxIterations
    modifies heatmap, orbit
    ensures heatmap[..] == Accumulated(old(heatmap[..]), SampledOrbits(width, height, maxIterations), width, height)
  {
    ghost var start := heatmap[..];
    ghost var os := PixelOrbits(width, height, maxIterations);
    ghost var done := 0;
    var y := 0;
    while y < height
      invariant 0 <= y <= height && done == y * width && done <= width * height
      invariant heatmap[..] == Accumulated(start, Flatten(os[..done]), width, height)
    {
      RowBounds(y, width, height);
      SampleRow(heatmap, orbit, y, width, height, maxIterations, start, os, done);
      done := done + width;
      y := y + 1;
    }
    ScanComplete(os, done, width, height, maxIterations);
  }

  /** Once all `width*height` pixels are sampled, the scanned prefix is every orbit. */
  lemma ScanComplete(os: seq<seq<Complex>>, done: nat, width: nat, height: nat, maxIterations: nat)
    requires width > 0 && height > 0 && done == height * width
    requires os == PixelOrbits(width, height, maxIterations)
    ensures done <= |os| && Flatten(os[..done]) == SampledOrbits(width, height, maxIterations)
  {
    assert done == width * height;
    assert os[..done] == os;
  }

  /** One row of the sampling pass: pixels left to right, one `AccumulateSample` each;
      `first` is the number of the row's first pixel. */
  method SampleRow(heatmap: array<nat>, orbit: array<Complex>, y: nat, width: nat, height: nat,
                   maxIterations: nat, ghost start: seq<nat>, ghost os: seq<seq<Complex>>, ghost first: nat)
    requires width > 0 && y < height
    requires first == y * width && first + width <= width * height  // row `y` ends inside the raster
    requires os == PixelOrbits(width, height, maxIterations)
    requires heatmap.Length == width * height && orbit.Length == maxIterations
    requires heatmap[..] == Accumulated(start, Flatten(os[..first]), width, height)
    modifies heatmap, orbit
    ensures heatmap[..] == Accumulated(start, Flatten(os[..first + width]), width, height)
  {
    var x := 0;
    while x < width
      invariant 0 <= x <= width
      invariant heatmap[..] == Accumulated(start, Flatten(os[..first + x]), width, height)
    {
      ghost var before := heatmap[..];
      AccumulateSample(heatmap, orbit, PixelToPlane(x, y, width, height), width, height, maxIterations);
      SampleStep(start, os, width, height, maxIterations, x, y, first + x, before, heatmap[..]);
      x := x + 1;
    }
  }

  /** Sampling pixel `(x, y)` on top of the heat map of the pixels before it gives the
      heat map of the pixels up to and including it. */
  lemma SampleStep(start: seq<nat>, os: seq<seq<Complex>>, width: nat, height: nat, maxIterations: nat,
                   x: nat, y: nat, cell: nat, before: seq<nat>, after: seq<nat>)
    requires x < width && y < height && cell == y * width + x && cell < width * height
    requires os == PixelOrbits(width, height, maxIterations)
    requires before == Accumulated(start, Flatten(os[..cell]), width, height)
    requires after == Accumulated(before, SampleOrbit(PixelToPlane(x, y, width, height), maxIterations), width, height)
    ensures after == Accumulated(start, Flatten(os[..cell + 1]), width, height)
  {
    PixelOrbitAt(width, height, maxIterations, x, y);
    FlattenStep(os, cell);
    AccumulatedConcat(start, Flatten(os[..cell]), os[cell], width, height);
  }

  /** `buddhabrot`: the sampling pass over a zeroed heat map, then the colouring pass
      over a zeroed buffer. */
  method Render(width: nat, height: nat, maxIterations: nat) returns (buffer: array<byte>)
    requires width > 0 && height > 0
    ensures fresh(buffer) && buffer.Length == 3 * (width * height)
    ensures forall i :: 0 <= i < width * height ==>
      RgbAt(buffer[..], i) == HeatColor(Heat(width, height, maxIterations)[i])
  {
    buffer := new byte[3 * (width * height)](_ => 0);
    var heatmap := new nat[width * height](_ => 0);
    var orbit := new Complex[maxIterations](_ => Zero);
    assert heatmap[..] == seq(width * height, _ => 0);
    SamplePass(heatmap, orbit, width, height, maxIterations);
    ghost var blank := buffer[..];
    Colorize(heatmap, buffer, width, height);
    forall i | 0 <= i < width * height
      ensures RgbAt(blank, i) == Black
    {
      CellOfIndex(i, width, height);
    }
  }

  /** One sample changes the heat map only when it escapes, and then raises the total
      of the counters by at most the `k + 1` points its orbit records. */
  lemma SampleTotal(heatmap: seq<nat>, c: Complex, width: nat, height: nat, maxIterations: nat)
    requires width > 0 && height > 0 && |heatmap| == width * height
    ensures Classify(c, maxIterations).Bounded? ==>
      Accumulated(heatmap, SampleOrbit(c, maxIterations), width, height) == heatmap
    ensures Classify(c, maxIterations).Escaped? ==>
      Sum(Accumulated(heatmap, SampleOrbit(c, maxIterations), width, height))
        <= Sum(heatmap) + Classify(c, maxIterations).iteration + 1
  {
    AccumulatedSum(heatmap, SampleOrbit(c, maxIterations), width, height);
    if Classify(c, maxIterations).Bounded? {
      AccumulatedEmpty(heatmap, width, height);
    }
  }

  /** A pixel of the density image is black exactly when no recorded orbit point landed
      in it. */
  lemma HeatBlackIff(width: nat, height: nat, maxIterations: nat, i: nat)
    requires width > 0 && height > 0 && i < width * height
    ensures HeatColor(Heat(width, height, maxIterations)[i]) == Black
        <==> Hits(SampledOrbits(width, height, maxIterations), width, height, i) == 0
  {
    var n := Heat(width, height, maxIterations)[i];
    if n > 0 {
      ColorNeverBlack(n);
    }
  }

  /** Pixel `(x, y)` records the orbit of its own sample point. */
  lemma PixelOrbitAt(width: nat, height: nat, maxIterations: nat, x: nat, y: nat)
    requires x < width && y < height
    ensures y * width + x < width * height
    ensures PixelOrbits(width, height, maxIterations)[y * width + x]
         == SampleOrbit(PixelToPlane(x, y, width, height), maxIterations)
  {
    CellIndexBounds(x, y, width, height);
  }

  /** A zeroed heat map totals zero. */
  lemma {:induction false} SumZeros(n: nat)
    ensures Sum(seq(n, _ => 0)) == 0
  {
    if n > 0 {
      assert seq(n, _ => 0)[1..] == seq(n - 1, _ => 0);
      SumZeros(n - 1);
    }
  }

  /** The counters of the density image total exactly the number of recorded orbit
      points that land in the raster, which is at most `width*height*maxIterations`. */
  lemma HeatTotal(width: nat, height: nat, maxIterations: nat)
    requires width > 0 && height > 0
    ensures Sum(Heat(width, height, maxIterations))
         == InRangeCount(SampledOrbits(width, height, maxIterations), width, height)
    ensures Sum(Heat(width, height, maxIterations)) <= width * height * maxIterations
  {
    var pts := SampledOrbits(width, height, maxIterations);
    SumZeros(width * height);
    AccumulatedSum(seq(width * height, _ => 0), pts, width, height);
    FlattenLength(PixelOrbits(width, height, maxIterations), maxIterations);
  }

  /** The density image is entirely black exactly when no recorded orbit point lands
      in the raster. */
  lemma AllBlackIff(width: nat, height: nat, maxIterations: nat)
    requires width > 0 && height > 0
    ensures (forall i :: 0 <= i < width * height ==> HeatColor(Heat(width, height, maxIterations)[i]) == Black)
        <==> InRangeCount(SampledOrbits(width, height, maxIterations), width, height) == 0
  {
    var pts := SampledOrbits(width, height, maxIterations);
    forall i | 0 <= i < width * height
      ensures HeatColor(Heat(width, height, maxIterations)[i]) == Black <==> Hits(pts, width, height, i) == 0
    {
      HeatBlackIff(width, height, maxIterations, i);
    }
    if InRangeCount(pts, width, height) == 0 {
      forall i | 0 <= i < width * height
        ensures Hits(pts, width, height, i) == 0
      {
        HitsAtMostInRange(pts, width, height, i);
      }
    } else {
      var i := SomeCellHit(pts, width, height);
    }
  }

  /** The first sample point of the scan, `FROMX + FROMY*I`, escapes at once under every
      positive cap, so a scan in which every sample is bounded has a cap of zero. */
  lemma BoundedScanNeedsZeroCap(width: nat, height: nat, maxIterations: nat)
    requires width > 0 && height > 0
    requires forall i :: 0 <= i < width * height ==>
      Classify(PixelToPlane(i % width, i / width, width, height), maxIterations) == Bounded
    ensures maxIterations == 0
  {
    assert PixelToPlane(0 % width, 0 / width, width, height) == Complex(-2.0, -1.5);
    assert Classify(PixelToPlane(0 % width, 0 / width, width, height), maxIterations) == Bounded;
    if maxIterations > 0 {
      CornerEscapesAtOnce(maxIterations);
    }
  }

  /** With a cap of zero nothing is ever recorded, and the density image is black. */
  lemma ZeroCapAllBlack(width: nat, height: nat)
    requires width > 0 && height > 0
    ensures forall i :: 0 <= i < width * height ==> HeatColor(Heat(width, height, 0)[i]) == Black
  {
    forall i | 0 <= i < width * height
      ensures Classify(PixelToPlane(i % width, i / width, width, height), 0) == Bounded
    {
      ZeroCapBounded(PixelToPlane(i % width, i / width, width, height));
    }
    FlattenEmpty(PixelOrbits(width, height, 0));
  }
}

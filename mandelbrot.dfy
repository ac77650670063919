/** The escape-time renderer `mandelbrot`: every pixel of a zeroed RGB8 buffer whose
    sample point escapes within the cap gets the palette colour of its escape
    iteration; pixels of bounded points stay black. */
module Mandelbrot {
  import opened Palette
  import opened ComplexArith
  import opened Escape
  import opened Coords
  import opened Raster

  /** The colour the renderer leaves in pixel number `i` (row-major): row `k mod 16` of
      the table when its sample point escapes at iteration `k`, black when it is
      bounded. */
  function PixelColor(width: nat, height: nat, maxIterations: nat, i: nat): (c: Rgb)
    requires width > 0 && height > 0
    ensures var r := Classify(PixelToPlane(i % width, i / width, width, height), maxIterations);
      (r.Escaped? ==> c == Table[r.iteration % 16]) && (r.Bounded? ==> c == Black)
  {
    match Classify(PixelToPlane(i % width, i / width, width, height), maxIterations)
    case Escaped(k) => ColorFor(k)
    case Bounded => Black
  }

  /** `mandelbrot`: the raster scan.  Rows top to bottom, pixels left to right, the
      write position advancing by three bytes per pixel; at the first escape the three
      palette bytes of the escape iteration are written, otherwise the zero bytes of
      the freshly allocated buffer stay. */
  method Render(width: nat, height: nat, maxIterations: nat) returns (buffer: array<byte>)
    requires width > 0 && height > 0
    ensures fresh(buffer) && buffer.Length == 3 * (width * height)
    ensures forall i :: 0 <= i < width * height ==> RgbAt(buffer[..], i) == PixelColor(width, height, maxIterations, i)
  {
    buffer := new byte[3 * (width * height)](_ => 0);
    var cell := 0;
    var py := 0;
    while py < height
      invariant 0 <= py <= height && cell == py * width && cell <= width * height
      invariant forall j :: 0 <= j < cell ==> RgbAt(buffer[..], j) == PixelColor(width, height, maxIterations, j)
      invariant forall j :: 3 * cell <= j < buffer.Length ==> buffer[j] == 0
    {
      RowBounds(py, width, height);
      RenderRow(buffer, py, width, height, maxIterations, cell);
      cell := cell + width;
      py := py + 1;
    }
    assert cell == width * height;
  }

  /** One row of the scan: pixels left to right, starting at pixel number `first`. */
  method RenderRow(buffer: array<byte>, py: nat, width: nat, height: nat, maxIterations: nat, first: nat)
    requires width > 0 && py < height
    requires first == py * width && first + width <= width * height  // row `py` ends inside the raster
    requires buffer.Length == 3 * (width * height)
    requires forall j :: 0 <= j < first ==> RgbAt(buffer[..], j) == PixelColor(width, height, maxIterations, j)
    requires forall j :: 3 * first <= j < buffer.Length ==> buffer[j] == 0
    modifies buffer
    ensures forall j :: 0 <= j < first + width ==> RgbAt(buffer[..], j) == PixelColor(width, height, maxIterations, j)
    ensures forall j :: 3 * (first + width) <= j < buffer.Length ==> buffer[j] == 0
  {
    var cell := first;
    var px := 0;
    while px < width
      invariant 0 <= px <= width && cell == first + px
      invariant forall j :: 0 <= j < cell ==> RgbAt(buffer[..], j) == PixelColor(width, height, maxIterations, j)
      invariant forall j :: 3 * cell <= j < buffer.Length ==> buffer[j] == 0
    {
      CellColor(width, height, maxIterations, px, py, cell);
      var c := PixelToPlane(px, py, width, height);
      var r := EscapeTime(c, maxIterations);
      if r.Escaped? {
        WriteRgbEffect(buffer[..], cell, ColorFor(r.iteration));
        PutPixel(buffer, cell, ColorFor(r.iteration));
      }
      cell := cell + 1;
      px := px + 1;
    }
  }

  /** Pixel `(px, py)` is cell `cell` of the raster, and its colour is decided by the
      classification of its own sample point. */
  lemma CellColor(width: nat, height: nat, maxIterations: nat, px: nat, py: nat, cell: nat)
    requires px < width && py < height && cell == py * width + px
    ensures cell < width * height && 3 * cell + 2 < 3 * (width * height)
    ensures var r := Classify(PixelToPlane(px, py, width, height), maxIterations);
      PixelColor(width, height, maxIterations, cell) == (if r.Escaped? then ColorFor(r.iteration) else Black)
  {
    CellIndexBounds(px, py, width, height);
  }

  /** A pixel is black exactly when its sample point is bounded under the cap: no
      palette colour is black. */
  lemma PixelBlackIff(width: nat, height: nat, maxIterations: nat, i: nat)
    requires width > 0 && height > 0
    ensures PixelColor(width, height, maxIterations, i) == Black
        <==> Classify(PixelToPlane(i % width, i / width, width, height), maxIterations) == Bounded
  {
    match Classify(PixelToPlane(i % width, i / width, width, height), maxIterations)
    case Escaped(k) => ColorNeverBlack(k);
    case Bounded =>
  }

  /** The first pixel samples the corner `FROMX + FROMY*I`, which escapes at once under
      every positive cap, so it gets the first colour of the table. */
  lemma CornerPixelColor(width: nat, height: nat, maxIterations: nat)
    requires width > 0 && height > 0 && maxIterations > 0
    ensures PixelColor(width, height, maxIterations, 0) == Rgb(66, 30, 15)
  {
    assert PixelToPlane(0 % width, 0 / width, width, height) == Complex(-2.0, -1.5);
    CornerEscapesAtOnce(maxIterations);
  }

  /** With an even number of rows, the first pixel of row `height/2` samples `c = -2`
      exactly, and that pixel is black under every cap. */
  lemma MinusTwoPixelBlack(width: nat, height: nat, maxIterations: nat)
    requires width > 0 && height > 0 && height % 2 == 0
    ensures PixelColor(width, height, maxIterations, CellIndex(0, height / 2, width)) == Black
  {
    var i := CellIndex(0, height / 2, width);
    CellIndexBounds(0, height / 2, width, height);
    HalfwayRow(height);
    assert PixelToPlane(0, height / 2, width, height) == Complex(-2.0, 0.0);
    MinusTwoBounded(maxIterations);
  }

  /** Grid row `height/2` of an even number of rows lies on the real axis. */
  lemma HalfwayRow(height: nat)
    requires height > 0 && height % 2 == 0
    ensures AxisPoint(height / 2, FromY, ToY, height) == 0.0
  {
    HalfOfCells((height / 2) as real, height as real, ToY - FromY);
  }

  /** `(m/2) * (d/m) == d/2` for a positive `m`. */
  lemma HalfOfCells(half: real, m: real, d: real)
    requires m > 0.0 && half * 2.0 == m
    ensures half * (d / m) == d / 2.0
  {
    assert (d / m) * m == d;
    assert half * (d / m) * 2.0 == (d / m) * m;
  }
}

/** The row-major layout shared by the heat map, the RGB8 buffers and the PNG rows:
    cell `(x, y)` of a `width`-wide raster is number `y*width + x`, and its three
    channels sit at `3*(y*width + x) + 0..2` of a byte buffer. */
module Raster {
  import opened Palette

  /** The row-major number of cell `(x, y)`; for a column inside the row, remainder and
      quotient by the width give the column and the row back. */
  function CellIndex(x: nat, y: nat, width: nat): (i: nat)
    ensures x < width ==> i % width == x && i / width == y
  {
    var i := y * width + x;
    if x < width then DivModUnique(i, width, y, x); i else i
  }

  /** A cell inside the raster has a number below `width*height`, and its column and
      row are recovered from that number by remainder and quotient. */
  lemma CellIndexBounds(x: nat, y: nat, width: nat, height: nat)
    requires x < width && y < height
    ensures CellIndex(x, y, width) < width * height
    ensures CellIndex(x, y, width) % width == x && CellIndex(x, y, width) / width == y
  {
    RowBounds(y, width, height);
  }

  /** Row `y < height` ends where row `y + 1` starts, inside the raster. */
  lemma RowBounds(y: nat, width: nat, height: nat)
    requires y < height
    ensures y * width + width == (y + 1) * width <= width * height
  {
    MulMonotone(y + 1, height, width);
  }

  /** `a <= b` implies `a*k <= b*k` for non-negative `k`. */
  lemma MulMonotone(a: nat, b: nat, k: nat)
    requires a <= b
    ensures a * k <= b * k
  {
    assert b * k == a * k + (b - a) * k;
  }

  /** Euclidean division is unique: `q*d + r` with `0 <= r < d` divides to `q` rest `r`. */
  lemma DivModUnique(n: nat, d: nat, q: nat, r: nat)
    requires r < d && n == q * d + r
    ensures n / d == q && n % d == r
  {
    var q', r' := n / d, n % d;
    assert q' * d + r' == q * d + r;
    if q' < q {
      MulMonotone(q' + 1, q, d);
    } else if q < q' {
      MulMonotone(q + 1, q', d);
    }
  }

  /** Every cell number below `width*height` is the number of a cell of the raster. */
  lemma CellOfIndex(i: nat, width: nat, height: nat)
    requires i < width * height
    ensures width > 0 && i % width < width && i / width < height
    ensures CellIndex(i % width, i / width, width) == i
  {
    assert width > 0;
    if i / width >= height {
      MulMonotone(height, i / width, width);
    }
  }

  /** Rows laid out one after another, as the cells of a raster are. */
  function Flatten<T>(rows: seq<seq<T>>): seq<T>
  {
    if |rows| == 0 then [] else Flatten(rows[..|rows| - 1]) + rows[|rows| - 1]
  }

  /** Taking one more row appends it after the others. */
  lemma FlattenStep<T>(rows: seq<seq<T>>, n: nat)
    requires n < |rows|
    ensures Flatten(rows[..n + 1]) == Flatten(rows[..n]) + rows[n]
  {
    assert rows[..n + 1][..n] == rows[..n];
  }

  /** Rows of at most `m` elements each flatten to at most `|rows| * m` elements. */
  lemma {:induction false} FlattenLength<T>(rows: seq<seq<T>>, m: nat)
    requires forall j :: 0 <= j < |rows| ==> |rows[j]| <= m
    ensures |Flatten(rows)| <= |rows| * m
  {
    if |rows| > 0 {
      FlattenLength(rows[..|rows| - 1], m);
      assert (|rows| - 1) * m + m == |rows| * m;
    }
  }

  /** Rows that are all empty flatten to nothing. */
  lemma {:induction false} FlattenEmpty<T>(rows: seq<seq<T>>)
    requires forall j :: 0 <= j < |rows| ==> rows[j] == []
    ensures Flatten(rows) == []
  {
    if |rows| > 0 {
      FlattenEmpty(rows[..|rows| - 1]);
    }
  }

  /** The pixel stored at cell `i` of an RGB8 buffer. */
  function RgbAt(buffer: seq<byte>, i: nat): Rgb
    requires 3 * i + 2 < |buffer|
  {
    Rgb(buffer[3 * i], buffer[3 * i + 1], buffer[3 * i + 2])
  }

  /** The buffer with pixel `i` set to `c`. */
  function WriteRgb(buffer: seq<byte>, i: nat, c: Rgb): seq<byte>
    requires 3 * i + 2 < |buffer|
  {
    buffer[3 * i := c.r][3 * i + 1 := c.g][3 * i + 2 := c.b]
  }

  /** Setting pixel `i` changes pixel `i` to the new colour and no other byte. */
  lemma WriteRgbEffect(buffer: seq<byte>, i: nat, c: Rgb)
    requires 3 * i + 2 < |buffer|
    ensures |WriteRgb(buffer, i, c)| == |buffer|
    ensures RgbAt(WriteRgb(buffer, i, c), i) == c
    ensures forall j :: 0 <= j < |buffer| && (j < 3 * i || 3 * i + 2 < j) ==> WriteRgb(buffer, i, c)[j] == buffer[j]
    ensures forall j :: 0 <= j && 3 * j + 2 < |buffer| && j != i ==> RgbAt(WriteRgb(buffer, i, c), j) == RgbAt(buffer, j)
  {
  }

  /** Store the three channels of `c` at pixel `i` of `buffer`. */
  method PutPixel(buffer: array<byte>, i: nat, c: Rgb)
    requires 3 * i + 2 < buffer.Length
    modifies buffer
    ensures buffer[..] == WriteRgb(old(buffer[..]), i, c)
  {
    buffer[3 * i] := c.r;
    buffer[3 * i + 1] := c.g;
    buffer[3 * i + 2] := c.b;
  }
}

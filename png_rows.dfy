/** The row hand-off of `save_buffer_as_png`: the RGB8 buffer is copied, one image row at
    a time, into a reused row buffer of `width*3` bytes, and each filled row is passed to
    the PNG writer.  The writer is modelled as the sequence of rows it receives. */
module PngRows {
  import opened Palette
  import opened Raster

  /** The bytes of image row `y` of a `width`-wide RGB8 buffer. */
  function RowOf(buffer: seq<byte>, y: nat, width: nat): (row: seq<byte>)
    requires 3 * (y * width) + 3 * width <= |buffer|
    ensures |row| == 3 * width
    ensures forall j :: 0 <= j < 3 * width ==> row[j] == buffer[3 * (y * width) + j]
  {
    buffer[3 * (y * width) .. 3 * (y * width) + 3 * width]
  }

  /** The rows the writer receives for a `width` by `height` image, top to bottom. */
  function Rows(buffer: seq<byte>, width: nat, height: nat): (rows: seq<seq<byte>>)
    requires |buffer| == 3 * (width * height)
    ensures |rows| == height
  {
    seq(height, y requires 0 <= y < height => (RowBounds(y, width, height); RowOf(buffer, y, width)))
  }

  /** Every row has `width*3` bytes. */
  ghost predicate FullRows(rows: seq<seq<byte>>, width: nat)
  {
    forall y :: 0 <= y < |rows| ==> |rows[y]| == 3 * width
  }

  /** Copy image row `y` of `buffer` into `row`, pixel by pixel and channel by channel. */
  method CopyRow(buffer: array<byte>, row: array<byte>, y: nat, width: nat)
    requires row.Length == 3 * width && 3 * (y * width) + 3 * width <= buffer.Length
    requires row != buffer
    modifies row
    ensures row[..] == RowOf(buffer[..], y, width)
  {
    ghost var base := 3 * (y * width);
    var x := 0;
    while x < width
      invariant 0 <= x <= width
      invariant forall j :: 0 <= j < 3 * x ==> row[j] == buffer[base + j]
    {
      assert 3 * (y * width + x) == base + x * 3;
      row[x * 3 + 0] := buffer[3 * (y * width + x) + 0];
      row[x * 3 + 1] := buffer[3 * (y * width + x) + 1];
      row[x * 3 + 2] := buffer[3 * (y * width + x) + 2];
      x := x + 1;
    }
  }

  /** `save_buffer_as_png` without the file: the rows written, in order, each a copy of
      the row buffer at the moment `png_write_row` is called. */
  method SaveRows(buffer: array<byte>, width: nat, height: nat) returns (written: seq<seq<byte>>)
    requires buffer.Length == 3 * (width * height)
    ensures written == Rows(buffer[..], width, height)
  {
    var row := new byte[width * 3];
    written := [];
    var y := 0;
    while y < height
      invariant 0 <= y <= height
      invariant |written| == y
      invariant forall j :: 0 <= j < y ==> written[j] == Rows(buffer[..], width, height)[j]
    {
      RowBounds(y, width, height);
      CopyRow(buffer, row, y, width);
      written := written + [row[..]];
      y := y + 1;
    }
  }

  /** The rows of a buffer join back to the whole buffer: the file holds exactly the
      rendered pixels, in order. */
  lemma FlattenRows(buffer: seq<byte>, width: nat, height: nat)
    requires |buffer| == 3 * (width * height)
    ensures Flatten(Rows(buffer, width, height)) == buffer
  {
    FlattenPrefix(buffer, width, height, height);
    assert Rows(buffer, width, height)[..height] == Rows(buffer, width, height);
  }

  /** The first `n` rows join to the first `3*(n*width)` bytes. */
  lemma {:induction false} FlattenPrefix(buffer: seq<byte>, width: nat, height: nat, n: nat)
    requires |buffer| == 3 * (width * height) && n <= height
    ensures 3 * (n * width) <= |buffer|
    ensures Flatten(Rows(buffer, width, height)[..n]) == buffer[..3 * (n * width)]
  {
    if n > 0 {
      FlattenPrefix(buffer, width, height, n - 1);
      FlattenPrefixStep(buffer, width, height, n);
    }
  }

  /** One more row extends the joined prefix by that row's slice of the buffer. */
  lemma FlattenPrefixStep(buffer: seq<byte>, width: nat, height: nat, n: nat)
    requires |buffer| == 3 * (width * height) && 0 < n <= height
    requires 3 * ((n - 1) * width) <= |buffer|
    requires Flatten(Rows(buffer, width, height)[..n - 1]) == buffer[..3 * ((n - 1) * width)]
    ensures 3 * (n * width) <= |buffer|
    ensures Flatten(Rows(buffer, width, height)[..n]) == buffer[..3 * (n * width)]
  {
    var rows := Rows(buffer, width, height);
    var a := 3 * ((n - 1) * width);
    RowBounds(n - 1, width, height);
    RowAt(buffer, width, height, n - 1);
    PrefixGrows(buffer, rows, n, a, a + 3 * width);
  }

  /** When the first `n - 1` rows flatten to `buffer[..a]` and row `n - 1` is
      `buffer[a..b]`, the first `n` rows flatten to `buffer[..b]`. */
  lemma PrefixGrows(buffer: seq<byte>, rows: seq<seq<byte>>, n: nat, a: nat, b: nat)
    requires 0 < n <= |rows| && a <= b <= |buffer|
    requires Flatten(rows[..n - 1]) == buffer[..a] && rows[n - 1] == buffer[a..b]
    ensures Flatten(rows[..n]) == buffer[..b]
  {
    FlattenStep(rows, n - 1);
    PrefixSplit(buffer, a, b);
  }

  /** Row `y` of the rows of a buffer is its slice of the buffer. */
  lemma RowAt(buffer: seq<byte>, width: nat, height: nat, y: nat)
    requires |buffer| == 3 * (width * height) && y < height
    ensures 3 * (y * width) + 3 * width <= |buffer|
    ensures Rows(buffer, width, height)[y] == buffer[3 * (y * width) .. 3 * (y * width) + 3 * width]
  {
    RowBounds(y, width, height);
  }

  /** A prefix is a shorter prefix followed by the slice in between. */
  lemma PrefixSplit(s: seq<byte>, a: nat, b: nat)
    requires a <= b <= |s|
    ensures s[..b] == s[..a] + s[a..b]
  {
  }

  /** Full rows are recovered from their join: splitting the image data into rows of
      `width*3` bytes gives back the rows written. */
  lemma RowsOfFlatten(rows: seq<seq<byte>>, width: nat)
    requires FullRows(rows, width)
    ensures |Flatten(rows)| == 3 * (width * |rows|)
    ensures Rows(Flatten(rows), width, |rows|) == rows
  {
    FullRowsLength(rows, width);
    forall y | 0 <= y < |rows|
      ensures Rows(Flatten(rows), width, |rows|)[y] == rows[y]
    {
      RowSlice(rows, width, y);
    }
  }

  /** Full rows join to `3*width` bytes per row. */
  lemma {:induction false} FullRowsLength(rows: seq<seq<byte>>, width: nat)
    requires FullRows(rows, width)
    ensures |Flatten(rows)| == 3 * (width * |rows|)
  {
    if |rows| > 0 {
      FullRowsLength(rows[..|rows| - 1], width);
      assert width * (|rows| - 1) + width == width * |rows|;
    }
  }

  /** Row `y` of full rows sits at bytes `3*(y*width) .. 3*(y*width) + 3*width` of the join. */
  lemma {:induction false} RowSlice(rows: seq<seq<byte>>, width: nat, y: nat)
    requires FullRows(rows, width) && y < |rows|
    ensures 3 * (y * width) + 3 * width <= |Flatten(rows)|
    ensures Flatten(rows)[3 * (y * width) .. 3 * (y * width) + 3 * width] == rows[y]
    decreases |rows|, 1
  {
    if y < |rows| - 1 {
      RowSliceFront(rows, width, y);
    } else {
      RowSliceLast(rows, width);
    }
  }

  /** A row before the last one sits where it sat in the join of the rows before the last. */
  lemma {:induction false} RowSliceFront(rows: seq<seq<byte>>, width: nat, y: nat)
    requires FullRows(rows, width) && y < |rows| - 1
    ensures 3 * (y * width) + 3 * width <= |Flatten(rows)|
    ensures Flatten(rows)[3 * (y * width) .. 3 * (y * width) + 3 * width] == rows[y]
    decreases |rows|, 0
  {
    var init := rows[..|rows| - 1];
    RowSlice(init, width, y);
    SliceOfFront(Flatten(init), rows[|rows| - 1], 3 * (y * width), 3 * width);
  }

  /** The last row is the end of the join. */
  lemma RowSliceLast(rows: seq<seq<byte>>, width: nat)
    requires FullRows(rows, width) && |rows| > 0
    ensures 3 * ((|rows| - 1) * width) + 3 * width == |Flatten(rows)|
    ensures Flatten(rows)[3 * ((|rows| - 1) * width) .. |Flatten(rows)|] == rows[|rows| - 1]
  {
    var init := rows[..|rows| - 1];
    FullRowsLength(init, width);
    assert (|rows| - 1) * width == width * (|rows| - 1);
    SliceOfBack(Flatten(init), rows[|rows| - 1]);
  }

  /** A slice inside the front part of a concatenation is a slice of the front part. */
  lemma SliceOfFront(front: seq<byte>, back: seq<byte>, a: nat, len: nat)
    requires a + len <= |front|
    ensures (front + back)[a..a + len] == front[a..a + len]
  {
  }

  /** The back part of a concatenation starts where the front part ends. */
  lemma SliceOfBack(front: seq<byte>, back: seq<byte>)
    ensures (front + back)[|front|..|front| + |back|] == back
  {
  }
}

/** The fixed 16-entry colour table and the cyclic lookup `colors[(n % NUMCOLORS)*3 + k]`
    used by both renderers. */
module Palette {

  /** One unsigned 8-bit channel value (`uint8_t`). */
  type byte = x: int | 0 <= x < 256

  /** One RGB8 pixel. */
  datatype Rgb = Rgb(r: byte, g: byte, b: byte)

  /** The background colour every freshly zeroed buffer holds. */
  const Black: Rgb := Rgb(0, 0, 0)

  /** The rows of the `colors` array, in order: 16 RGB triples. */
  const Table: seq<Rgb> := [
    Rgb( 66,  30,  15), Rgb( 25,   7,  26), Rgb(  9,   1,  47), Rgb(  4,   4,  73),
    Rgb(  0,   7, 100), Rgb( 12,  44, 138), Rgb( 24,  82, 177), Rgb( 57, 125, 209),
    Rgb(134, 181, 229), Rgb(211, 236, 248), Rgb(241, 233, 191), Rgb(248, 201,  95),
    Rgb(255, 170,   0), Rgb(204, 128,   0), Rgb(153,  87,   0), Rgb(106,  52,   3)
  ]

  /** The `colors` array itself: the rows of the table, three bytes each, one after
      another. */
  const Colors: seq<byte> := FlatOf(Table)

  /** Rows of colours written out channel by channel, one row after another. */
  function FlatOf(rows: seq<Rgb>): (flat: seq<byte>)
    ensures |flat| == 3 * |rows|
  {
    if |rows| == 0 then [] else [rows[0].r, rows[0].g, rows[0].b] + FlatOf(rows[1..])
  }

  /** Byte `i` of flattened rows is channel `i % 3` of row `i / 3`. */
  lemma {:induction false} FlatOfAt(rows: seq<Rgb>, i: nat)
    requires i < 3 * |rows|
    ensures i / 3 < |rows| && FlatOf(rows)[i] == Channel(rows[i / 3], i % 3)
  {
    if i >= 3 {
      FlatOfAt(rows[1..], i - 3);
      assert (i - 3) / 3 == i / 3 - 1 && (i - 3) % 3 == i % 3;
    }
  }

  /** `sizeof(colors)`: three bytes per row of the table. */
  function ColorsSize(): (n: nat)
    ensures n == 48
  {
    3 * |Table|
  }

  /** Channel `k` (0 red, 1 green, 2 blue) of a colour. */
  function Channel(c: Rgb, k: nat): byte
    requires k < 3
  {
    if k == 0 then c.r else if k == 1 then c.g else c.b
  }

  /** `colors[i]`, read through the rows of the table: channel `i % 3` of row `i / 3`. */
  function ColorByte(i: nat): byte
    requires i < ColorsSize()
  {
    Channel(Table[i / 3], i % 3)
  }

  /** Reading through the rows gives byte `i` of the flat `colors` array itself. */
  lemma ColorByteIsColors(i: nat)
    requires i < ColorsSize()
    ensures i < |Colors| && ColorByte(i) == Colors[i]
  {
    FlatOfAt(Table, i);
  }

  /** `NUMCOLORS`, i.e. `sizeof(colors) / 3`. */
  function NumColors(): (n: nat)
    ensures n == 16
  {
    ColorsSize() / 3
  }

  /** The flat index `(n % NUMCOLORS)*3 + k` of channel `k` of the colour for count `n`:
      it lies inside the table, in the row for `n mod 16`, at column `k`. */
  function PaletteIndex(n: nat, k: nat): (i: nat)
    requires k < 3
    ensures i < ColorsSize()
    ensures i % 3 == k && i / 3 == n % NumColors()
  {
    RowColumn(n % NumColors(), k);
    (n % NumColors()) * 3 + k
  }

  /** Column `k < 3` of row `q` of a three-column table is byte `q*3 + k`. */
  lemma RowColumn(q: nat, k: nat)
    requires k < 3
    ensures (q * 3 + k) % 3 == k && (q * 3 + k) / 3 == q
  {
  }

  /** The colour the renderers give to count `n`, read channel by channel from the flat
      table: it is row `n mod 16` of the table. */
  function ColorFor(n: nat): (c: Rgb)
    ensures c == Table[n % 16]
  {
    Rgb(ColorByte(PaletteIndex(n, 0)), ColorByte(PaletteIndex(n, 1)), ColorByte(PaletteIndex(n, 2)))
  }

  /** Shifting a count by any whole number of palette lengths gives the same colour. */
  lemma {:induction false} ColorForCyclic(n: nat, m: nat)
    ensures ColorFor(n + 16 * m) == ColorFor(n)
  {
    ModCycle(n, m);
  }

  /** Adding whole multiples of 16 keeps the remainder modulo 16. */
  lemma {:induction false} ModCycle(n: nat, m: nat)
    ensures (n + 16 * m) % 16 == n % 16
  {
    if m > 0 {
      ModCycle(n, m - 1);
      assert n + 16 * m == (n + 16 * (m - 1)) + 16;
    }
  }

  /** Two counts get the same colour exactly when they agree modulo 16: the sixteen rows
      of the table are pairwise different. */
  lemma ColorForSame(n: nat, m: nat)
    ensures ColorFor(n) == ColorFor(m) <==> n % 16 == m % 16
  {
    if n % 16 != m % 16 {
      TableDistinct(n % 16, m % 16);
    }
  }

  /** The sixteen rows of the table are pairwise different. */
  lemma TableDistinct(i: nat, j: nat)
    requires i < 16 && j < 16 && i != j
    ensures Table[i] != Table[j]
  {
  }

  /** The first colour of the table is the one given to count zero. */
  lemma ColorForZero()
    ensures ColorFor(0) == Rgb(66, 30, 15)
  {
  }

  /** No colour in the table is black, so a coloured pixel is always told apart from
      the background. */
  lemma ColorNeverBlack(n: nat)
    ensures ColorFor(n) != Black
  {
    TableNotBlack(n % 16);
  }

  /** No row of the table is black. */
  lemma TableNotBlack(i: nat)
    requires i < 16
    ensures Table[i] != Black
  {
  }
}

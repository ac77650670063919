/** The heat map of the density renderer: one counter per pixel, raised by one for every
    recorded orbit point whose `complex_to_coord` lands inside the raster.  The functions
    here are the reference the accumulation loop is proved against. */
module Heatmap {
  import opened ComplexArith
  import opened Coords
  import opened Raster

  datatype Option<T> = None | Some(value: T)

  /** The counter an orbit point raises: `by*WIDTH + bx` when `0 <= bx < WIDTH` and
      `0 <= by < HEIGHT`, none otherwise.  A point gets a cell exactly when it lies in
      `(FROMX - STEPX, TOX) x (FROMY - STEPY, TOY)`, and that cell's column and row are
      the coordinates `complex_to_coord` computes. */
  function CellOf(z: Complex, width: nat, height: nat): (r: Option<nat>)
    requires width > 0 && height > 0
    ensures r.Some? <==> FromX - StepX(width) < z.re < ToX && FromY - StepY(height) < z.im < ToY
    ensures r.Some? ==>
      && r.value < width * height
      && r.value % width == ComplexToCoord(z, width, height).x
      && r.value / width == ComplexToCoord(z, width, height).y
  {
    var p := ComplexToCoord(z, width, height);
    if 0 <= p.x < width && 0 <= p.y < height then
      CellIndexBounds(p.x, p.y, width, height);
      Some(CellIndex(p.x, p.y, width))
    else
      None
  }

  /** How many of the points `pts` land in cell `i`. */
  function Hits(pts: seq<Complex>, width: nat, height: nat, i: nat): (k: nat)
    requires width > 0 && height > 0
    ensures k <= |pts|
  {
    if |pts| == 0 then 0
    else (if CellOf(pts[0], width, height) == Some(i) then 1 else 0) + Hits(pts[1..], width, height, i)
  }

  /** How many of the points `pts` land anywhere in the raster. */
  function InRangeCount(pts: seq<Complex>, width: nat, height: nat): (k: nat)
    requires width > 0 && height > 0
    ensures k <= |pts|
  {
    if |pts| == 0 then 0
    else (if CellOf(pts[0], width, height).Some? then 1 else 0) + InRangeCount(pts[1..], width, height)
  }

  /** The heat map `heatmap` after every point of `pts` has been recorded. */
  function Accumulated(heatmap: seq<nat>, pts: seq<Complex>, width: nat, height: nat): (r: seq<nat>)
    requires width > 0 && height > 0
    ensures |r| == |heatmap|
    ensures forall i :: 0 <= i < |r| ==> heatmap[i] <= r[i] <= heatmap[i] + |pts|
  {
    seq(|heatmap|, i requires 0 <= i < |heatmap| => heatmap[i] + Hits(pts, width, height, i))
  }

  /** One `++heatmap[by*WIDTH+bx]`, or nothing when the point fell outside: the named
      counter rises by one and every other counter keeps its value. */
  function Record(heatmap: seq<nat>, cell: Option<nat>): (r: seq<nat>)
    ensures |r| == |heatmap|
    ensures forall i :: 0 <= i < |r| ==> r[i] == heatmap[i] + (if cell == Some(i) then 1 else 0)
  {
    match cell
    case Some(c) => if c < |heatmap| then heatmap[c := heatmap[c] + 1] else heatmap
    case None => heatmap
  }

  /** The total of all counters. */
  function Sum(s: seq<nat>): nat
  {
    if |s| == 0 then 0 else s[0] + Sum(s[1..])
  }

  /** Recording one point in front of the others is one `Record` on top of them. */
  lemma RecordAccumulated(heatmap: seq<nat>, z: Complex, pts: seq<Complex>, width: nat, height: nat)
    requires width > 0 && height > 0 && |heatmap| == width * height
    ensures Accumulated(heatmap, [z] + pts, width, height)
         == Record(Accumulated(heatmap, pts, width, height), CellOf(z, width, height))
  {
    var a := Accumulated(heatmap, [z] + pts, width, height);
    var b := Record(Accumulated(heatmap, pts, width, height), CellOf(z, width, height));
    assert ([z] + pts)[1..] == pts;
    assert |a| == |b|;
    forall i | 0 <= i < |a|
      ensures a[i] == b[i]
    {
      assert Hits([z] + pts, width, height, i)
          == (if CellOf(z, width, height) == Some(i) then 1 else 0) + Hits(pts, width, height, i);
    }
  }

  /** With no points the heat map is unchanged. */
  lemma AccumulatedEmpty(heatmap: seq<nat>, width: nat, height: nat)
    requires width > 0 && height > 0
    ensures Accumulated(heatmap, [], width, height) == heatmap
  {
  }

  /** A cell counts the points of a concatenation as those of both parts. */
  lemma {:induction false} HitsConcat(a: seq<Complex>, b: seq<Complex>, width: nat, height: nat, i: nat)
    requires width > 0 && height > 0
    ensures Hits(a + b, width, height, i) == Hits(a, width, height, i) + Hits(b, width, height, i)
  {
    if |a| > 0 {
      assert (a + b)[1..] == a[1..] + b;
      HitsConcat(a[1..], b, width, height, i);
    } else {
      assert a + b == b;
    }
  }

  /** Recording `a` and then `b` is recording `a + b`: the heat map of a run is the
      heat map of all its orbits together. */
  lemma AccumulatedConcat(heatmap: seq<nat>, a: seq<Complex>, b: seq<Complex>, width: nat, height: nat)
    requires width > 0 && height > 0
    ensures Accumulated(Accumulated(heatmap, a, width, height), b, width, height)
         == Accumulated(heatmap, a + b, width, height)
  {
    forall i | 0 <= i < |heatmap|
      ensures Accumulated(Accumulated(heatmap, a, width, height), b, width, height)[i]
           == Accumulated(heatmap, a + b, width, height)[i]
    {
      HitsConcat(a, b, width, height, i);
    }
  }

  /** The points of `s` in the opposite order. */
  function Reverse(s: seq<Complex>): (r: seq<Complex>)
    ensures |r| == |s|
  {
    if |s| == 0 then [] else Reverse(s[1..]) + [s[0]]
  }

  /** The order in which points are recorded does not change any counter: replaying an
      orbit backwards, as the renderer does, gives the same heat map as forwards. */
  lemma {:induction false} HitsReverse(pts: seq<Complex>, width: nat, height: nat, i: nat)
    requires width > 0 && height > 0
    ensures Hits(Reverse(pts), width, height, i) == Hits(pts, width, height, i)
  {
    if |pts| > 0 {
      HitsReverse(pts[1..], width, height, i);
      HitsConcat(Reverse(pts[1..]), [pts[0]], width, height, i);
      assert [pts[0]][1..] == [];
    }
  }

  /** The heat map after recording a reversed sequence equals the one after recording
      it in order. */
  lemma AccumulatedReverse(heatmap: seq<nat>, pts: seq<Complex>, width: nat, height: nat)
    requires width > 0 && height > 0
    ensures Accumulated(heatmap, Reverse(pts), width, height) == Accumulated(heatmap, pts, width, height)
  {
    forall i | 0 <= i < |heatmap|
      ensures Accumulated(heatmap, Reverse(pts), width, height)[i]
           == Accumulated(heatmap, pts, width, height)[i]
    {
      HitsReverse(pts, width, height, i);
    }
  }

  /** A counter is left alone exactly when none of the points lands in its cell. */
  lemma {:induction false} HitsZeroIff(pts: seq<Complex>, width: nat, height: nat, i: nat)
    requires width > 0 && height > 0
    ensures Hits(pts, width, height, i) == 0
        <==> forall j :: 0 <= j < |pts| ==> CellOf(pts[j], width, height) != Some(i)
  {
    if |pts| > 0 {
      HitsZeroIff(pts[1..], width, height, i);
      forall j | 1 <= j < |pts|
        ensures pts[j] == pts[1..][j - 1]
      {
      }
    }
  }

  /** No cell counts more points than land in the raster altogether. */
  lemma {:induction false} HitsAtMostInRange(pts: seq<Complex>, width: nat, height: nat, i: nat)
    requires width > 0 && height > 0
    ensures Hits(pts, width, height, i) <= InRangeCount(pts, width, height)
  {
    if |pts| > 0 {
      HitsAtMostInRange(pts[1..], width, height, i);
    }
  }

  /** When some point lands in the raster, some cell of the raster counts it. */
  lemma {:induction false} SomeCellHit(pts: seq<Complex>, width: nat, height: nat) returns (i: nat)
    requires width > 0 && height > 0 && InRangeCount(pts, width, height) > 0
    ensures i < width * height && Hits(pts, width, height, i) > 0
  {
    var cell := CellOf(pts[0], width, height);
    if cell.Some? {
      i := cell.value;
    } else {
      i := SomeCellHit(pts[1..], width, height);
    }
  }

  /** Raising one counter by one raises the total by one. */
  lemma {:induction false} SumRecord(s: seq<nat>, c: nat)
    requires c < |s|
    ensures Sum(s[c := s[c] + 1]) == Sum(s) + 1
  {
    if c > 0 {
      SumRecord(s[1..], c - 1);
      assert s[c := s[c] + 1][1..] == s[1..][c - 1 := s[1..][c - 1] + 1];
    } else {
      assert s[c := s[c] + 1][1..] == s[1..];
    }
  }

  /** Every point that lands in the raster adds exactly one to the total of the heat
      map, and every other point adds nothing. */
  lemma {:induction false} AccumulatedSum(heatmap: seq<nat>, pts: seq<Complex>, width: nat, height: nat)
    requires width > 0 && height > 0 && |heatmap| == width * height
    ensures Sum(Accumulated(heatmap, pts, width, height)) == Sum(heatmap) + InRangeCount(pts, width, height)
  {
    if |pts| == 0 {
      AccumulatedEmpty(heatmap, width, height);
    } else {
      var z, rest := pts[0], pts[1..];
      assert pts == [z] + rest;
      AccumulatedSum(heatmap, rest, width, height);
      RecordAccumulated(heatmap, z, rest, width, height);
      var cell := CellOf(z, width, height);
      if cell.Some? {
        SumRecord(Accumulated(heatmap, rest, width, height), cell.value);
      }
    }
  }
}

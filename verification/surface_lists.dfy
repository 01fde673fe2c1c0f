/** The v1.5 list transforms between the scanner and the mask rasterizer:
    densifying a polyline's contained points into one height per column,
    splitting the flat height list into per-slice rows, the divergence
    exclusion map, and the polygon vertex lists handed to the rasterizing
    fill (the fill itself belongs to the host image library). */
module SurfaceLists {
  import opened Polyline
  import ColumnScan

  // ---------------------------------------------------------------------------
  // Densification
  // ---------------------------------------------------------------------------

  /** A pixel of a polyline, as returned by the host's contained-points query. */
  datatype Point = Point(x: int, y: int)

  /** Point `i` opens a new column: it is the first point, or its x differs
      from the previous point's. */
  predicate IsStart(points: seq<Point>, i: int)
    requires 0 <= i < |points|
  {
    i == 0 || points[i].x != points[i - 1].x
  }

  /** The indices below `n` of the points that open a new column, in order. */
  function Starts(points: seq<Point>, n: nat): (s: seq<int>)
    requires n <= |points|
    ensures forall k :: 0 <= k < |s| ==> 0 <= s[k] < n && IsStart(points, s[k])
    ensures StrictlyIncreasing(s)
    ensures forall i :: 0 <= i < n && IsStart(points, i) ==> i in s
  {
    if n == 0 then []
    else if IsStart(points, n - 1) then Starts(points, n - 1) + [n - 1]
    else Starts(points, n - 1)
  }

  function Min(a: int, b: int): int {
    if a <= b then a else b
  }

  /** `heights` holds the y of every point below `n` that opens a new column. */
  predicate StartHeights(points: seq<Point>, n: nat, heights: seq<int>)
    requires n <= |points|
  {
    var s := Starts(points, n);
    && |heights| == |s|
    && forall k :: 0 <= k < |heights| ==> heights[k] == points[s[k]].y
  }

  /** One step of the densify loop extends the kept heights by point `i`
      exactly when it opens a new column. */
  lemma StartHeightsStep(points: seq<Point>, i: nat, heights: seq<int>)
    requires 1 <= i < |points|
    requires StartHeights(points, i, heights)
    ensures StartHeights(points, i + 1, if IsStart(points, i) then heights + [points[i].y] else heights)
  {
    assert Starts(points, i + 1) == if IsStart(points, i) then Starts(points, i) + [i] else Starts(points, i);
  }

  /** The densify loop of `secondStage`: keep the y of every point that opens a
      new column, then drop entries from the end until at most `width` remain. */
  method Densify(points: seq<Point>, width: nat) returns (heights: seq<int>)
    requires |points| >= 1
    ensures var s := Starts(points, |points|);
            && |heights| == Min(|s|, width)
            && forall k :: 0 <= k < |heights| ==> heights[k] == points[s[k]].y
  {
    heights := [points[0].y];
    assert Starts(points, 1) == [0];
    var i := 1;
    while i < |points|
      invariant 1 <= i <= |points|
      invariant StartHeights(points, i, heights)
    {
      StartHeightsStep(points, i, heights);
      if points[i].x != points[i - 1].x {
        heights := heights + [points[i].y];
      }
      i := i + 1;
    }
    ghost var all := heights;
    while |heights| > width
      invariant |heights| >= Min(|all|, width)
      invariant heights == all[..|heights|]
    {
      heights := heights[..|heights| - 1];
    }
  }

  predicate SortedByX(points: seq<Point>) {
    forall i, j :: 0 <= i <= j < |points| ==> points[i].x <= points[j].x
  }

  lemma {:induction false} StartOfColumn(points: seq<Point>, i: int) returns (s: int)
    requires 0 <= i < |points|
    ensures 0 <= s <= i && IsStart(points, s) && points[s].x == points[i].x
    decreases i
  {
    if IsStart(points, i) {
      s := i;
    } else {
      s := StartOfColumn(points, i - 1);
    }
  }

  /** For points sorted by x, the kept points are exactly one per distinct x,
      each the first point with that x, in increasing x order. */
  lemma FirstOfEachColumn(points: seq<Point>)
    requires SortedByX(points)
    ensures var s := Starts(points, |points|);
            && (forall k :: 0 <= k < |s| - 1 ==> points[s[k]].x < points[s[k + 1]].x)
            && (forall k, j :: 0 <= k < |s| && 0 <= j < s[k] ==> points[j].x < points[s[k]].x)
            && (forall i :: 0 <= i < |points| ==> exists k :: 0 <= k < |s| && points[s[k]].x == points[i].x)
  {
    var s := Starts(points, |points|);
    forall k, j | 0 <= k < |s| && 0 <= j < s[k]
      ensures points[j].x < points[s[k]].x
    {
      assert points[j].x <= points[s[k] - 1].x;
    }
    forall k | 0 <= k < |s| - 1
      ensures points[s[k]].x < points[s[k + 1]].x
    {
      assert s[k] < s[k + 1];
    }
    forall i | 0 <= i < |points|
      ensures exists k :: 0 <= k < |s| && points[s[k]].x == points[i].x
    {
      var t := StartOfColumn(points, i);
      assert t in s;
      var k :| 0 <= k < |s| && s[k] == t;
    }
  }

  // ---------------------------------------------------------------------------
  // Row split
  // ---------------------------------------------------------------------------

  /** `row` is slice `y` of the flat list: entries y * width up to (y + 1) * width. */
  predicate RowOf(full: seq<int>, width: nat, y: int, row: seq<int>) {
    0 <= y && (y + 1) * width <= |full| && row == full[y * width..(y + 1) * width]
  }

  /** The flat height list cut into rows of `width` (one per slice); a trailing
      partial row is dropped, as `len // width` rows are taken. */
  function Rows(full: seq<int>, width: nat): (rows: seq<seq<int>>)
    requires width >= 1
    ensures |rows| * width <= |full| < (|rows| + 1) * width
    ensures forall y :: 0 <= y < |rows| ==> |rows[y]| == width && RowOf(full, width, y, rows[y])
    decreases |full|
  {
    if |full| < width then []
    else
      var rest := Rows(full[width..], width);
      RowsCons(full, width, rest);
      [full[..width]] + rest
  }

  lemma MulSucc(a: int, w: int)
    ensures (a + 1) * w == a * w + w
  {
  }

  /** Prepending the first row to the rows of the remainder. */
  lemma RowsCons(full: seq<int>, width: nat, rest: seq<seq<int>>)
    requires 1 <= width <= |full|
    requires |rest| * width <= |full| - width < (|rest| + 1) * width
    requires forall y :: 0 <= y < |rest| ==> |rest[y]| == width && RowOf(full[width..], width, y, rest[y])
    ensures var rows := [full[..width]] + rest;
            |rows| * width <= |full| < (|rows| + 1) * width
    ensures var rows := [full[..width]] + rest;
            forall y :: 0 <= y < |rows| ==> |rows[y]| == width && RowOf(full, width, y, rows[y])
  {
    var rows := [full[..width]] + rest;
    RowCountCons(|full|, width, |rest|);
    assert |rows| == |rest| + 1;
    forall y | 0 <= y < |rows|
      ensures |rows[y]| == width && RowOf(full, width, y, rows[y])
    {
      if y == 0 {
        assert rows[0] == full[..width];
      } else {
        assert rows[y] == rest[y - 1];
        RowShift(full, width, rest[y - 1], y);
      }
    }
  }

  lemma RowCountCons(n: int, width: nat, r: int)
    requires r * width <= n - width < (r + 1) * width
    ensures (r + 1) * width <= n < (r + 2) * width
  {
    MulSucc(r, width);
    MulSucc(r + 1, width);
  }

  /** Row `y - 1` of the remainder after the first row is row `y` of the whole. */
  lemma RowShift(full: seq<int>, width: nat, row: seq<int>, y: int)
    requires 1 <= width <= |full| && 1 <= y
    requires RowOf(full[width..], width, y - 1, row)
    ensures RowOf(full, width, y, row)
  {
    var lo, hi := (y - 1) * width, y * width;
    MulSucc(y - 1, width);
    MulSucc(y, width);
    assert full[width..][lo..hi] == full[width + lo..width + hi];
  }

  function Flatten(rows: seq<seq<int>>): seq<int> {
    if rows == [] then [] else rows[0] + Flatten(rows[1..])
  }

  /** Joining the rows back gives the flat list minus its partial last row:
      a prefix of it that falls short by less than one row, and the whole
      list when its length is a multiple of `width`. */
  lemma {:induction false} RowsRoundTrip(full: seq<int>, width: nat)
    requires width >= 1
    ensures var flat := Flatten(Rows(full, width));
            |flat| <= |full| && flat == full[..|flat|] && |full| - |flat| < width
    ensures |full| % width == 0 ==> Flatten(Rows(full, width)) == full
  {
    FlattenRows(full, width);
    var rows := Rows(full, width);
    if |full| % width == 0 {
      assert |rows| * width == |full| by { DivisibleRows(|full|, width, |rows|); }
    }
  }

  lemma {:induction false} FlattenRows(full: seq<int>, width: nat)
    requires width >= 1
    ensures Flatten(Rows(full, width)) == full[..|Rows(full, width)| * width]
    decreases |full|
  {
    var rows := Rows(full, width);
    if |full| >= width {
      FlattenRows(full[width..], width);
      assert rows[1..] == Rows(full[width..], width);
      assert |rows| * width == width + |rows[1..]| * width;
    }
  }

  lemma DivisibleRows(n: nat, width: nat, r: nat)
    requires width >= 1
    requires r * width <= n < (r + 1) * width
    requires n % width == 0
    ensures r * width == n
  {
    var q := n / width;
    assert n == q * width;
    if q > r {
      ColumnScan.MulMonotone(r + 1, q, width);
    } else if q < r {
      ColumnScan.MulMonotone(q + 1, r, width);
      MulSucc(q, width);
    }
  }

  // ---------------------------------------------------------------------------
  // Exclusion map
  // ---------------------------------------------------------------------------

  function Abs(v: real): real {
    if v < 0.0 then -v else v
  }

  /** The indices below `n` whose divergence magnitude exceeds `heightDiffMax`,
      in order (the `filter` over `xrange(len(subPixels))`). */
  function Excluded(sub: seq<real>, heightDiffMax: real, n: nat): (idx: seq<nat>)
    requires n <= |sub|
    ensures forall k :: 0 <= k < |idx| ==> idx[k] < n
    ensures forall i :: 0 <= i < n ==> (i in idx <==> Abs(sub[i]) > heightDiffMax)
  {
    if n == 0 then []
    else if Abs(sub[n - 1]) > heightDiffMax then Excluded(sub, heightDiffMax, n - 1) + [n - 1]
    else Excluded(sub, heightDiffMax, n - 1)
  }

  /** A zero byte array of length `n` with 100 written at every listed index. */
  function Mark(n: nat, idx: seq<nat>): (m: seq<int>)
    requires forall k :: 0 <= k < |idx| ==> idx[k] < n
    ensures |m| == n
    ensures forall i :: 0 <= i < n ==> m[i] == (if i in idx then 100 else 0)
  {
    if idx == [] then seq(n, i => 0)
    else Mark(n, idx[..|idx| - 1])[idx[|idx| - 1] := 100]
  }

  /** The exclusion map of `thirdStage`: 100 where the divergence magnitude
      exceeds `heightDiffMax`, 0 elsewhere. */
  function ExclusionMap(sub: seq<real>, heightDiffMax: real): (m: seq<int>)
    ensures |m| == |sub|
    ensures forall i :: 0 <= i < |sub| ==>
              && (m[i] == 100 <==> Abs(sub[i]) > heightDiffMax)
              && (m[i] == 0 <==> Abs(sub[i]) <= heightDiffMax)
  {
    Mark(|sub|, Excluded(sub, heightDiffMax, |sub|))
  }

  // ---------------------------------------------------------------------------
  // Polygon vertex lists
  // ---------------------------------------------------------------------------

  /** A closed polygon as parallel vertex-coordinate lists. */
  datatype Polygon = Polygon(xs: seq<int>, ys: seq<int>)

  /** The band between a surface shifted down by `offset` and the same surface
      shifted down by `offset + thickness`: the lower boundary left to right,
      then the upper boundary right to left. */
  function Band(xs: seq<int>, ys: seq<int>, offset: int, thickness: int): (p: Polygon)
    requires |xs| == |ys|
    ensures |p.xs| == |p.ys| == 2 * |xs|
    ensures p.xs[..|xs|] == xs
    ensures p.ys[..|xs|] == Shift(ys, offset)
    ensures forall i :: 0 <= i < 2 * |xs| ==> p.xs[i] == p.xs[2 * |xs| - 1 - i]
    ensures forall i :: 0 <= i < |xs| ==> p.ys[2 * |xs| - 1 - i] - p.ys[i] == thickness
  {
    var lower := Shift(ys, offset);
    var upper := Shift(ys, offset + thickness);
    Polygon(xs + Reverse(xs), lower + Reverse(upper))
  }

  /** Polygon mode of v1.5: the band over one row of the dense height map,
      whose x coordinates are the columns 0 .. width - 1. */
  function PolygonMode(row: seq<int>, offset: int, thickness: int): (p: Polygon)
    ensures |p.xs| == |p.ys| == 2 * |row|
    ensures forall i :: 0 <= i < |row| ==> p.xs[i] == i && p.ys[i] == row[i] + offset
    ensures forall i :: |row| <= i < 2 * |row| ==>
              p.xs[i] == 2 * |row| - 1 - i && p.ys[i] == row[2 * |row| - 1 - i] + offset + thickness
  {
    var p := Band(Columns(|row|), row, offset, thickness);
    assert forall i :: 0 <= i < |row| ==> p.xs[i] == p.xs[..|row|][i] && p.ys[i] == p.ys[..|row|][i];
    p
  }

  /** Erode mode of v1.5: the surface one layer down, closed along the image's
      bottom edge by a corner just right of the last column and a corner at
      column 0, so that it encloses everything below the surface. */
  function ErodeOutline(row: seq<int>, height: int): (p: Polygon)
    ensures |p.xs| == |p.ys| == |row| + 2
    ensures StrictlyIncreasing(p.xs[..|row| + 1])
    ensures p.xs[|row|] == |row| + 1 && p.xs[|row| + 1] == 0
    ensures p.ys[|row|] == height && p.ys[|row| + 1] == height
    ensures forall i :: 0 <= i < |row| ==> p.xs[i] == i && p.ys[i] == row[i] + 1
  {
    Polygon(Columns(|row|) + [|row| + 1, 0], Shift(row, 1) + [height, height])
  }

  /** The erode-mode outline follows the lower boundary of a polygon-mode band
      with depth offset 1. */
  lemma ErodeOutlineFollowsBand(row: seq<int>, height: int, thickness: int)
    ensures var e := ErodeOutline(row, height);
            var b := PolygonMode(row, 1, thickness);
            e.xs[..|row|] == b.xs[..|row|] && e.ys[..|row|] == b.ys[..|row|]
  {
  }

  /** A flat surface gives a rectangle: the lower vertices all at depth
      `c + offset`, the upper ones all at `c + offset + thickness`. */
  lemma FlatSurfaceBand(xs: seq<int>, ys: seq<int>, c: int, offset: int, thickness: int)
    requires |xs| == |ys|
    requires forall i :: 0 <= i < |ys| ==> ys[i] == c
    ensures var p := Band(xs, ys, offset, thickness);
            && (forall i :: 0 <= i < |xs| ==> p.ys[i] == c + offset)
            && (forall i :: |xs| <= i < 2 * |xs| ==> p.ys[i] == c + offset + thickness)
  {
    var p := Band(xs, ys, offset, thickness);
    forall i | 0 <= i < |xs|
      ensures p.ys[i] == c + offset
    {
      assert p.ys[i] == p.ys[..|xs|][i];
    }
    forall i | |xs| <= i < 2 * |xs|
      ensures p.ys[i] == c + offset + thickness
    {
      var j := 2 * |xs| - 1 - i;
      assert p.ys[j] == p.ys[..|xs|][j];
    }
  }
}

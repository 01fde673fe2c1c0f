/** `findEpidermis` of EZ Peeler v1.5: masked column scan from `topSlice`,
    polyline compression that drops unresolved interior columns, and the
    repair of unresolved end points. */
module PeelerV15 {
  import opened ColumnScan
  import opened Polyline

  /** Column `x`, masked with `andOp`, is above the threshold at depth `y`. */
  predicate MaskedCrosses(pixels: seq<int>, width: nat, height: nat, threshold: real, andOp: int, x: nat, y: nat)
    requires |pixels| == width * height
    requires andOp == 0xFF || andOp == 0xFFFF
    requires x < width && y < height
  {
    MaskPixel(Voxel(pixels, width, height, x, y), andOp) as real > threshold
  }

  /** `v` is the scanner's verdict on column `x`: the least depth in
      [topSlice, height) whose masked voxel is above the threshold, or
      `height + 1` when there is none. */
  predicate MaskedFirstCrossing(pixels: seq<int>, width: nat, height: nat, threshold: real, topSlice: nat,
                                andOp: int, x: nat, v: int)
    requires |pixels| == width * height
    requires andOp == 0xFF || andOp == 0xFFFF
    requires x < width
  {
    if v < Sentinel(height) then
      && topSlice <= v < height
      && MaskedCrosses(pixels, width, height, threshold, andOp, x, v)
      && forall y :: topSlice <= y < v ==> !MaskedCrosses(pixels, width, height, threshold, andOp, x, y)
    else
      && v == Sentinel(height)
      && forall y :: topSlice <= y < height ==> !MaskedCrosses(pixels, width, height, threshold, andOp, x, y)
  }

  /** Scanning the masked buffer column by column gives the masked verdict. */
  lemma MaskedScanColumn(pixels: seq<int>, width: nat, height: nat, threshold: real, topSlice: nat,
                         andOp: int, x: nat)
    requires |pixels| == width * height
    requires andOp == 0xFF || andOp == 0xFFFF
    requires x < width
    ensures var masked := MaskBuffer(pixels, andOp);
            MaskedFirstCrossing(pixels, width, height, threshold, topSlice, andOp, x,
                                ScanHeights(masked, width, height, topSlice, threshold)[x])
  {
    var masked := MaskBuffer(pixels, andOp);
    forall y: nat | y < height
      ensures Voxel(masked, width, height, x, y) == MaskPixel(Voxel(pixels, width, height, x, y), andOp)
    {
      IndexInBuffer(width, height, x, y);
    }
  }

  /** The masked column scan of v1.5, starting at row `topSlice`. */
  function Scan(pixels: seq<int>, width: nat, height: nat, threshold: real, topSlice: nat, andOp: int): (h: seq<int>)
    requires |pixels| == width * height
    requires andOp == 0xFF || andOp == 0xFFFF
    ensures |h| == width
    ensures forall x :: 0 <= x < width ==> (topSlice <= h[x] < height) || h[x] == Sentinel(height)
    ensures forall x :: 0 <= x < width ==> MaskedFirstCrossing(pixels, width, height, threshold, topSlice, andOp, x, h[x])
  {
    var h := ScanHeights(MaskBuffer(pixels, andOp), width, height, topSlice, threshold);
    assert forall x :: 0 <= x < width ==> MaskedFirstCrossing(pixels, width, height, threshold, topSlice, andOp, x, h[x]) by {
      forall x | 0 <= x < width
        ensures MaskedFirstCrossing(pixels, width, height, threshold, topSlice, andOp, x, h[x])
      {
        MaskedScanColumn(pixels, width, height, threshold, topSlice, andOp, x);
      }
    }
    h
  }

  /** Interior column `x` becomes a vertex: it was resolved and is not flat. */
  predicate Kept(h: seq<int>, height: nat, x: int)
    requires 1 <= x < |h| - 1
  {
    !Flat(h, x) && h[x] < Sentinel(height)
  }

  /** The outcome of the compression loop over the heights `h`: column 0,
      every kept interior column in order, then x = width carrying the last
      column's height. */
  predicate IsVertexList(h: seq<int>, height: nat, xs: seq<int>, ys: seq<int>)
    requires |h| >= 1
  {
    && Spans(xs, ys, |h|)
    && ys[0] == h[0] && ys[|ys| - 1] == h[|h| - 1]
    && (forall i :: 0 < i < |xs| - 1 ==>
          1 <= xs[i] <= |h| - 2 && Kept(h, height, xs[i]) && ys[i] == h[xs[i]])
    && (forall x :: 1 <= x <= |h| - 2 && Kept(h, height, x) ==> x in xs)
  }

  /** The compression loop has handled the columns below `x`: column 0 and
      every kept interior column below `x`, in order. */
  predicate VerticesBelow(h: seq<int>, height: nat, x: int, xs: seq<int>, ys: seq<int>)
    requires 1 <= x <= |h|
  {
    && |xs| == |ys| >= 1 && xs[0] == 0 && ys[0] == h[0]
    && StrictlyIncreasing(xs) && xs[|xs| - 1] < x
    && (forall i :: 0 < i < |xs| ==>
          1 <= xs[i] < x && xs[i] < |h| - 1 && Kept(h, height, xs[i]) && ys[i] == h[xs[i]])
    && (forall z :: 1 <= z < x && z < |h| - 1 && Kept(h, height, z) ==> z in xs)
  }

  lemma VerticesStep(h: seq<int>, height: nat, x: int, xs: seq<int>, ys: seq<int>)
    requires 1 <= x < |h| - 1
    requires VerticesBelow(h, height, x, xs, ys)
    ensures Kept(h, height, x) ==> VerticesBelow(h, height, x + 1, xs + [x], ys + [h[x]])
    ensures !Kept(h, height, x) ==> VerticesBelow(h, height, x + 1, xs, ys)
  {
    if Kept(h, height, x) {
      var xs', ys' := xs + [x], ys + [h[x]];
      forall i | 0 <= i < |xs'| - 1
        ensures xs'[i] < xs'[i + 1]
      {
        if i < |xs| - 1 {
          assert xs'[i] == xs[i] && xs'[i + 1] == xs[i + 1];
        }
      }
      forall i | 0 < i < |xs'|
        ensures 1 <= xs'[i] < x + 1 && xs'[i] < |h| - 1 && Kept(h, height, xs'[i]) && ys'[i] == h[xs'[i]]
      {
        if i < |xs| {
          assert xs'[i] == xs[i] && ys'[i] == ys[i];
        }
      }
      forall z | 1 <= z < x + 1 && z < |h| - 1 && Kept(h, height, z)
        ensures z in xs'
      {
        if z < x {
          var i :| 0 <= i < |xs| && xs[i] == z;
          assert xs'[i] == z;
        } else {
          assert xs'[|xs|] == z;
        }
      }
    }
  }

  /** Appending x = width with the last column's height completes the list. */
  lemma VerticesClose(h: seq<int>, height: nat, xs: seq<int>, ys: seq<int>)
    requires |h| >= 1
    requires VerticesBelow(h, height, if |h| >= 2 then |h| - 1 else 1, xs, ys)
    ensures IsVertexList(h, height, xs + [|h|], ys + [h[|h| - 1]])
  {
    var xs', ys' := xs + [|h|], ys + [h[|h| - 1]];
    assert forall i :: 0 <= i < |xs| ==> xs'[i] == xs[i] && ys'[i] == ys[i];
    assert forall z :: z in xs ==> z in xs';
  }

  /** The compression loop of `findEpidermis`. */
  method Vertices(h: seq<int>, height: nat) returns (xs: seq<int>, ys: seq<int>)
    requires |h| >= 1
    ensures IsVertexList(h, height, xs, ys)
  {
    var width := |h|;
    xs, ys := [0], [h[0]];
    var x := 1;
    while x < width - 1
      invariant 1 <= x <= width
      invariant VerticesBelow(h, height, x, xs, ys)
    {
      VerticesStep(h, height, x, xs, ys);
      if !Flat(h, x) && h[x] < Sentinel(height) {
        xs, ys := xs + [x], ys + [h[x]];
      }
      x := x + 1;
    }
    VerticesClose(h, height, xs, ys);
    xs, ys := xs + [width], ys + [h[width - 1]];
  }

  /** A first or last height above `height` (an unresolved end point) takes
      the value of its neighbour in the list; the first end is repaired first. */
  function RepairEndpoints(ys: seq<int>, height: nat): (r: seq<int>)
    requires |ys| >= 2
    ensures |r| == |ys|
    ensures forall i :: 0 < i < |ys| - 1 ==> r[i] == ys[i]
    ensures forall i :: 0 <= i < |ys| && ys[i] <= height ==> r[i] == ys[i]
    ensures ys[0] > height ==> r[0] == ys[1]
    ensures ys[|ys| - 1] > height ==> r[|r| - 1] == r[|r| - 2]
    ensures forall v :: v in r ==> v in ys
    ensures (forall i :: 0 < i < |ys| - 1 ==> ys[i] <= height) && (exists i :: 0 <= i < |ys| && ys[i] <= height)
            ==> forall i :: 0 <= i < |r| ==> r[i] <= height
  {
    var first := if ys[0] > height then ys[0 := ys[1]] else ys;
    if first[|first| - 1] > height then first[|first| - 1 := first[|first| - 2]] else first
  }

  /** When both end columns are unresolved but some column is resolved, the
      end of that column's run of equal heights is a kept interior vertex. */
  lemma {:induction false} ResolvedColumnYieldsVertex(h: seq<int>, height: nat, c: int)
    requires 0 <= c < |h|
    requires h[0] >= Sentinel(height) && h[|h| - 1] >= Sentinel(height)
    requires h[c] < Sentinel(height)
    ensures exists x :: 1 <= x <= |h| - 2 && Kept(h, height, x)
    decreases |h| - c
  {
    if !Flat(h, c) {
      assert Kept(h, height, c);
    } else {
      ResolvedColumnYieldsVertex(h, height, c + 1);
    }
  }

  /** Every value of a repaired vertex list comes from the heights it was built from. */
  lemma RepairedValuesFromHeights(h: seq<int>, height: nat, xs: seq<int>, raw: seq<int>)
    requires |h| >= 1 && IsVertexList(h, height, xs, raw)
    ensures forall i :: 0 <= i < |raw| ==> RepairEndpoints(raw, height)[i] in h
  {
    var r := RepairEndpoints(raw, height);
    forall i | 0 <= i < |raw|
      ensures r[i] in h
    {
      assert r[i] in raw;
      var j :| 0 <= j < |raw| && raw[j] == r[i];
      if 0 < j < |raw| - 1 {
        assert h[xs[j]] == raw[j];
      } else if j == 0 {
        assert h[0] == raw[j];
      } else {
        assert h[|h| - 1] == raw[j];
      }
    }
  }

  /** `xs`/`ys` is the repaired polyline of the heights `h`: the vertex rule
      on interior columns, each end either the column's own resolved height or
      a copy of its list neighbour, free of unresolved heights exactly when
      some column crossed, and the two-point sentinel line when none did. */
  predicate IsSurfaceLine(h: seq<int>, height: nat, topSlice: nat, xs: seq<int>, ys: seq<int>)
    requires |h| >= 1
  {
    && Spans(xs, ys, |h|)
    && (forall i :: 0 < i < |xs| - 1 ==>
          1 <= xs[i] <= |h| - 2 && Kept(h, height, xs[i]) && ys[i] == h[xs[i]])
    && (forall x :: 1 <= x <= |h| - 2 && Kept(h, height, x) ==> x in xs)
    && (h[0] < Sentinel(height) ==> ys[0] == h[0])
    && (h[0] >= Sentinel(height) ==> ys[0] == ys[1])
    && (h[|h| - 1] < Sentinel(height) ==> ys[|ys| - 1] == h[|h| - 1])
    && (h[|h| - 1] >= Sentinel(height) ==> ys[|ys| - 1] == ys[|ys| - 2])
    && ((exists x :: 0 <= x < |h| && h[x] < Sentinel(height))
        <==> forall i :: 0 <= i < |ys| ==> topSlice <= ys[i] < height)
    && ((forall x :: 0 <= x < |h| ==> h[x] >= Sentinel(height))
        ==> xs == [0, |h|] && ys == [Sentinel(height), Sentinel(height)])
  }

  /** The repaired vertex list is free of unresolved heights exactly when some
      column is resolved; when none is, it is the two-point sentinel line. */
  lemma RepairedResolvedIff(h: seq<int>, height: nat, topSlice: nat, xs: seq<int>, raw: seq<int>, ys: seq<int>)
    requires |h| >= 1 && IsVertexList(h, height, xs, raw)
    requires forall x :: 0 <= x < |h| ==> (topSlice <= h[x] < height) || h[x] == Sentinel(height)
    requires ys == RepairEndpoints(raw, height)
    ensures (exists x :: 0 <= x < |h| && h[x] < Sentinel(height))
            <==> forall i :: 0 <= i < |ys| ==> topSlice <= ys[i] < height
    ensures (forall x :: 0 <= x < |h| ==> h[x] >= Sentinel(height))
            ==> xs == [0, |h|] && ys == [Sentinel(height), Sentinel(height)]
  {
    RepairedValuesFromHeights(h, height, xs, raw);
    assert forall i :: 0 < i < |raw| - 1 ==> raw[i] <= height;
    if exists c :: 0 <= c < |h| && h[c] < Sentinel(height) {
      var c :| 0 <= c < |h| && h[c] < Sentinel(height);
      if h[0] >= Sentinel(height) && h[|h| - 1] >= Sentinel(height) {
        ResolvedColumnYieldsVertex(h, height, c);
        var x :| 1 <= x <= |h| - 2 && Kept(h, height, x);
        assert x in xs;
        var i :| 0 <= i < |xs| && xs[i] == x;
        assert raw[i] <= height;
      } else if h[0] < Sentinel(height) {
        assert raw[0] <= height;
      } else {
        assert raw[|raw| - 1] <= height;
      }
      assert forall i :: 0 <= i < |ys| ==> ys[i] <= height;
      forall i | 0 <= i < |ys|
        ensures topSlice <= ys[i] < height
      {
        var j :| 0 <= j < |h| && h[j] == ys[i];
      }
    } else {
      assert |xs| == 2;
      assert ys[0] == Sentinel(height);
    }
  }


  /** Compression followed by end-point repair yields the surface line of the
      heights. */
  lemma RepairedVertices(h: seq<int>, height: nat, topSlice: nat, xs: seq<int>, raw: seq<int>, ys: seq<int>)
    requires |h| >= 1 && IsVertexList(h, height, xs, raw)
    requires forall x :: 0 <= x < |h| ==> (topSlice <= h[x] < height) || h[x] == Sentinel(height)
    requires ys == RepairEndpoints(raw, height)
    ensures IsSurfaceLine(h, height, topSlice, xs, ys)
  {
    RepairedResolvedIff(h, height, topSlice, xs, raw, ys);
  }

  /** The whole v1.5 `findEpidermis` for one slice. */
  method FindEpidermis(pixels: seq<int>, width: nat, height: nat, threshold: real, topSlice: nat, andOp: int)
    returns (xs: seq<int>, ys: seq<int>)
    requires width >= 1
    requires |pixels| == width * height
    requires andOp == 0xFF || andOp == 0xFFFF
    ensures IsSurfaceLine(Scan(pixels, width, height, threshold, topSlice, andOp), height, topSlice, xs, ys)
  {
    var h := Scan(pixels, width, height, threshold, topSlice, andOp);
    var raw;
    xs, raw := Vertices(h, height);
    ys := RepairEndpoints(raw, height);
    RepairedVertices(h, height, topSlice, xs, raw, ys);
  }
}

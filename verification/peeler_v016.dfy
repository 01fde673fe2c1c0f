/** `findEpidermis` of EZ Peeler V0.16: unmasked column scan from row 0,
    a left-to-right fill of unresolved columns, optional forward and backward
    hole removal, then polyline compression. */
module PeelerV016 {
  import opened ColumnScan
  import opened Polyline

  /** Column `x` is above the threshold at depth `y` (raw intensity, no mask). */
  predicate Crosses(pixels: seq<int>, width: nat, height: nat, threshold: real, x: nat, y: nat)
    requires |pixels| == width * height
    requires x < width && y < height
  {
    Voxel(pixels, width, height, x, y) as real > threshold
  }

  /** Entry `x` is the least depth in [0, height) whose voxel is above the
      threshold, or `height + 1` when there is none. */
  function Scan(pixels: seq<int>, width: nat, height: nat, threshold: real): (h: seq<int>)
    requires |pixels| == width * height
    ensures |h| == width
    ensures forall x :: 0 <= x < width ==> (0 <= h[x] < height) || h[x] == Sentinel(height)
    ensures forall x :: 0 <= x < width ==>
              if h[x] < Sentinel(height) then
                && Crosses(pixels, width, height, threshold, x, h[x])
                && forall y :: 0 <= y < h[x] ==> !Crosses(pixels, width, height, threshold, x, y)
              else
                forall y :: 0 <= y < height ==> !Crosses(pixels, width, height, threshold, x, y)
  {
    ScanHeights(pixels, width, height, 0, threshold)
  }

  /** `v` is what the neighbour fill leaves in column `x`: the height of the
      nearest resolved column in [1, x], or column 1's (unresolved) height when
      none of them is resolved. */
  predicate NearestResolved(h: seq<int>, height: nat, x: int, v: int)
    requires 1 <= x < |h|
  {
    || (exists j :: 1 <= j <= x && h[j] < Sentinel(height) && v == h[j]
                 && forall k :: j < k <= x ==> h[k] >= Sentinel(height))
    || ((forall k :: 1 <= k <= x ==> h[k] >= Sentinel(height)) && v == h[1])
  }

  lemma NearestResolvedStep(h: seq<int>, height: nat, x: int, v: int)
    requires 2 <= x < |h|
    requires h[x] >= Sentinel(height)
    requires NearestResolved(h, height, x - 1, v)
    ensures NearestResolved(h, height, x, v)
  {
    if exists j :: 1 <= j <= x - 1 && h[j] < Sentinel(height) && v == h[j]
                 && forall k :: j < k <= x - 1 ==> h[k] >= Sentinel(height) {
      var j :| 1 <= j <= x - 1 && h[j] < Sentinel(height) && v == h[j]
               && forall k :: j < k <= x - 1 ==> h[k] >= Sentinel(height);
      assert forall k :: j < k <= x ==> h[k] >= Sentinel(height);
    }
  }

  /** Column `x` after the fill: an unresolved column takes the filled value
      of its left neighbour, a resolved one keeps its height. */
  predicate FillStep(h: seq<int>, r: seq<int>, height: nat, x: int)
    requires 1 <= x < |h| && |r| == |h|
  {
    r[x] == if h[x] >= Sentinel(height) then r[x - 1] else h[x]
  }

  /** `r` is the outcome of the left-to-right fill over [2, width - 2]. */
  predicate Filled(h: seq<int>, r: seq<int>, height: nat) {
    && |r| == |h|
    && (forall x :: 0 <= x < |h| && (x < 2 || x == |h| - 1) ==> r[x] == h[x])
    && (forall x :: 2 <= x <= |h| - 2 ==> FillStep(h, r, height, x))
  }

  /** The fill loop: for x in [2, width - 2] an unresolved column copies its
      already updated left neighbour. Columns 0, 1 and width - 1 are untouched. */
  method NeighbourFill(h: seq<int>, height: nat) returns (r: seq<int>)
    ensures Filled(h, r, height)
    ensures forall x :: 2 <= x <= |h| - 2 ==> NearestResolved(h, height, x, r[x])
    ensures (forall x :: 0 <= x < |h| ==> h[x] <= Sentinel(height)) ==>
              forall x :: 0 <= x < |h| ==> r[x] <= h[x]
  {
    r := h;
    var x := 2;
    while x < |h| - 1
      invariant |r| == |h|
      invariant 2 <= x && (|h| >= 3 ==> x <= |h| - 1)
      invariant forall k :: 0 <= k < |h| && (k < 2 || k >= x) ==> r[k] == h[k]
      invariant forall k :: 2 <= k < x && k < |h| ==> FillStep(h, r, height, k)
    {
      ghost var before := r;
      if r[x] >= Sentinel(height) {
        r := r[x := r[x - 1]];
      }
      forall k | 2 <= k < x
        ensures FillStep(h, r, height, k)
      {
        assert FillStep(h, before, height, k);
      }
      x := x + 1;
    }
    forall x | 2 <= x <= |h| - 2
      ensures NearestResolved(h, height, x, r[x])
    {
      FilledNearest(h, r, height, x);
    }
    if forall k :: 0 <= k < |h| ==> h[k] <= Sentinel(height) {
      forall x | 0 <= x < |h|
        ensures r[x] <= h[x]
      {
        if 2 <= x <= |h| - 2 {
          FilledBelowSentinel(h, r, height, x);
        }
      }
    }
  }

  /** The fill leaves in each column the nearest resolved height to its left. */
  lemma {:induction false} FilledNearest(h: seq<int>, r: seq<int>, height: nat, x: int)
    requires Filled(h, r, height)
    requires 2 <= x <= |h| - 2
    ensures NearestResolved(h, height, x, r[x])
    decreases x
  {
    assert FillStep(h, r, height, x);
    if h[x] < Sentinel(height) {
      assert NearestResolved(h, height, x, r[x]);
    } else if x == 2 {
      if h[1] < Sentinel(height) {
        assert NearestResolved(h, height, 1, r[1]);
      }
      NearestResolvedStep(h, height, x, r[1]);
    } else {
      FilledNearest(h, r, height, x - 1);
      NearestResolvedStep(h, height, x, r[x - 1]);
    }
  }

  /** When no input height exceeds the sentinel, the fill never raises one. */
  lemma {:induction false} FilledBelowSentinel(h: seq<int>, r: seq<int>, height: nat, x: int)
    requires Filled(h, r, height)
    requires forall k :: 0 <= k < |h| ==> h[k] <= Sentinel(height)
    requires 2 <= x <= |h| - 2
    ensures r[x] <= h[x] && r[x] <= Sentinel(height)
    decreases x
  {
    assert FillStep(h, r, height, x);
    if x > 2 {
      FilledBelowSentinel(h, r, height, x - 1);
    }
  }

  /** The fill is determined by its column rule: two lists that both satisfy
      it are equal. */
  lemma FilledUnique(h: seq<int>, a: seq<int>, b: seq<int>, height: nat)
    requires Filled(h, a, height) && Filled(h, b, height)
    ensures a == b
  {
    FilledAgree(h, a, b, height, |h|);
  }

  lemma {:induction false} FilledAgree(h: seq<int>, a: seq<int>, b: seq<int>, height: nat, n: nat)
    requires Filled(h, a, height) && Filled(h, b, height) && n <= |h|
    ensures forall x :: 0 <= x < n ==> a[x] == b[x]
    decreases n
  {
    if n > 0 {
      FilledAgree(h, a, b, height, n - 1);
      if 2 <= n - 1 <= |h| - 2 {
        assert FillStep(h, a, height, n - 1) && FillStep(h, b, height, n - 1);
      }
    }
  }

  /** The jump from column `x - 1` to column `x` is within `heightDiffMax`,
      or column `x - 1` is unresolved. */
  predicate ForwardSettled(r: seq<int>, height: nat, heightDiffMax: real, x: int)
    requires 1 <= x < |r|
  {
    (r[x] - r[x - 1]) as real <= heightDiffMax || r[x - 1] >= Sentinel(height)
  }

  /** The jump from column `x + 1` to column `x` is within `heightDiffMax`,
      or column `x + 1` is unresolved. */
  predicate BackwardSettled(r: seq<int>, height: nat, heightDiffMax: real, x: int)
    requires 0 <= x < |r| - 1
  {
    (r[x] - r[x + 1]) as real <= heightDiffMax || r[x + 1] >= Sentinel(height)
  }

  /** Column `x` after the forward pass: when it rises above its (already
      corrected) left neighbour by more than `heightDiffMax` and that
      neighbour is resolved, it takes the neighbour's value; otherwise it
      keeps its own. */
  predicate ForwardStep(h: seq<int>, r: seq<int>, height: nat, heightDiffMax: real, x: int)
    requires 1 <= x < |h| && |r| == |h|
  {
    r[x] == if (h[x] - r[x - 1]) as real > heightDiffMax && r[x - 1] < Sentinel(height)
            then r[x - 1] else h[x]
  }

  /** `r` is the outcome of the forward sweep over x in [2, width). */
  predicate ForwardDone(h: seq<int>, r: seq<int>, height: nat, heightDiffMax: real) {
    && |r| == |h|
    && (forall x :: 0 <= x < |h| && x < 2 ==> r[x] == h[x])
    && (forall x :: 2 <= x < |h| ==> ForwardStep(h, r, height, heightDiffMax, x))
  }

  /** Column `x` after the backward pass, mirroring `ForwardStep` with the
      (already corrected) right neighbour. */
  predicate BackwardStep(h: seq<int>, r: seq<int>, height: nat, heightDiffMax: real, x: int)
    requires 0 <= x < |h| - 1 && |r| == |h|
  {
    r[x] == if (h[x] - r[x + 1]) as real > heightDiffMax && r[x + 1] < Sentinel(height)
            then r[x + 1] else h[x]
  }

  /** `r` is the outcome of the backward sweep over x from width - 2 down to 1. */
  predicate BackwardDone(h: seq<int>, r: seq<int>, height: nat, heightDiffMax: real) {
    && |r| == |h|
    && (forall x :: 0 <= x < |h| && (x == 0 || x == |h| - 1) ==> r[x] == h[x])
    && (forall x :: 1 <= x <= |h| - 2 ==> BackwardStep(h, r, height, heightDiffMax, x))
  }

  /** What a finished forward sweep guarantees: a column only ever changes to
      its resolved left neighbour over a jump larger than `heightDiffMax`, and
      for a non-negative limit no jump onto a resolved column is left and no
      height grows. */
  lemma ForwardDoneFacts(h: seq<int>, r: seq<int>, height: nat, heightDiffMax: real)
    requires ForwardDone(h, r, height, heightDiffMax)
    ensures heightDiffMax >= 0.0 ==> forall x :: 2 <= x < |h| ==> ForwardSettled(r, height, heightDiffMax, x)
    ensures forall x :: 2 <= x < |h| && r[x] != h[x] ==>
              && r[x] == r[x - 1]
              && (h[x] - r[x - 1]) as real > heightDiffMax
              && r[x - 1] < Sentinel(height)
    ensures heightDiffMax >= 0.0 ==> forall x :: 0 <= x < |h| ==> r[x] <= h[x]
  {
    forall x | 2 <= x < |h|
      ensures heightDiffMax >= 0.0 ==> ForwardSettled(r, height, heightDiffMax, x)
      ensures r[x] != h[x] ==>
                && r[x] == r[x - 1]
                && (h[x] - r[x - 1]) as real > heightDiffMax
                && r[x - 1] < Sentinel(height)
      ensures heightDiffMax >= 0.0 ==> r[x] <= h[x]
    {
      assert ForwardStep(h, r, height, heightDiffMax, x);
    }
  }

  /** The mirror image of `ForwardDoneFacts` for the backward sweep. */
  lemma BackwardDoneFacts(h: seq<int>, r: seq<int>, height: nat, heightDiffMax: real)
    requires BackwardDone(h, r, height, heightDiffMax)
    ensures heightDiffMax >= 0.0 ==> forall x :: 1 <= x <= |h| - 2 ==> BackwardSettled(r, height, heightDiffMax, x)
    ensures forall x :: 1 <= x <= |h| - 2 && r[x] != h[x] ==>
              && r[x] == r[x + 1]
              && (h[x] - r[x + 1]) as real > heightDiffMax
              && r[x + 1] < Sentinel(height)
    ensures heightDiffMax >= 0.0 ==> forall x :: 0 <= x < |h| ==> r[x] <= h[x]
  {
    forall x | 1 <= x <= |h| - 2
      ensures heightDiffMax >= 0.0 ==> BackwardSettled(r, height, heightDiffMax, x)
      ensures r[x] != h[x] ==>
                && r[x] == r[x + 1]
                && (h[x] - r[x + 1]) as real > heightDiffMax
                && r[x + 1] < Sentinel(height)
      ensures heightDiffMax >= 0.0 ==> r[x] <= h[x]
    {
      assert BackwardStep(h, r, height, heightDiffMax, x);
    }
  }

  /** The forward sweep is determined by its column rule. */
  lemma ForwardDoneUnique(h: seq<int>, a: seq<int>, b: seq<int>, height: nat, heightDiffMax: real)
    requires ForwardDone(h, a, height, heightDiffMax) && ForwardDone(h, b, height, heightDiffMax)
    ensures a == b
  {
    ForwardAgree(h, a, b, height, heightDiffMax, |h|);
  }

  lemma {:induction false} ForwardAgree(h: seq<int>, a: seq<int>, b: seq<int>, height: nat, heightDiffMax: real, n: nat)
    requires ForwardDone(h, a, height, heightDiffMax) && ForwardDone(h, b, height, heightDiffMax)
    requires n <= |h|
    ensures forall x :: 0 <= x < n ==> a[x] == b[x]
    decreases n
  {
    if n > 0 {
      ForwardAgree(h, a, b, height, heightDiffMax, n - 1);
      if n - 1 >= 2 {
        assert ForwardStep(h, a, height, heightDiffMax, n - 1);
        assert ForwardStep(h, b, height, heightDiffMax, n - 1);
      }
    }
  }

  /** The backward sweep is determined by its column rule. */
  lemma BackwardDoneUnique(h: seq<int>, a: seq<int>, b: seq<int>, height: nat, heightDiffMax: real)
    requires BackwardDone(h, a, height, heightDiffMax) && BackwardDone(h, b, height, heightDiffMax)
    ensures a == b
  {
    BackwardAgree(h, a, b, height, heightDiffMax, 0);
  }

  lemma {:induction false} BackwardAgree(h: seq<int>, a: seq<int>, b: seq<int>, height: nat, heightDiffMax: real, n: nat)
    requires BackwardDone(h, a, height, heightDiffMax) && BackwardDone(h, b, height, heightDiffMax)
    requires n <= |h|
    ensures forall x :: n <= x < |h| ==> a[x] == b[x]
    decreases |h| - n
  {
    if n < |h| {
      BackwardAgree(h, a, b, height, heightDiffMax, n + 1);
      if 1 <= n <= |h| - 2 {
        assert BackwardStep(h, a, height, heightDiffMax, n);
        assert BackwardStep(h, b, height, heightDiffMax, n);
      }
    }
  }

  /** The forward hole-removal loop over x in [2, width). */
  method ForwardPass(h: seq<int>, height: nat, heightDiffMax: real) returns (r: seq<int>)
    ensures ForwardDone(h, r, height, heightDiffMax)
    ensures heightDiffMax >= 0.0 ==> forall x :: 2 <= x < |h| ==> ForwardSettled(r, height, heightDiffMax, x)
    ensures forall x :: 2 <= x < |h| && r[x] != h[x] ==>
              && r[x] == r[x - 1]
              && (h[x] - r[x - 1]) as real > heightDiffMax
              && r[x - 1] < Sentinel(height)
    ensures heightDiffMax >= 0.0 ==> forall x :: 0 <= x < |h| ==> r[x] <= h[x]
  {
    r := h;
    var x := 2;
    while x < |h|
      invariant |r| == |h|
      invariant 2 <= x && (|h| >= 2 ==> x <= |h|)
      invariant forall k :: 0 <= k < |h| && (k < 2 || k >= x) ==> r[k] == h[k]
      invariant forall k :: 2 <= k < x && k < |h| ==> ForwardStep(h, r, height, heightDiffMax, k)
    {
      ghost var before := r;
      if (r[x] - r[x - 1]) as real > heightDiffMax {
        if r[x - 1] < Sentinel(height) {
          r := r[x := r[x - 1]];
        }
      }
      forall k | 2 <= k < x
        ensures ForwardStep(h, r, height, heightDiffMax, k)
      {
        assert ForwardStep(h, before, height, heightDiffMax, k);
      }
      x := x + 1;
    }
    ForwardDoneFacts(h, r, height, heightDiffMax);
  }

  /** The backward hole-removal loop over x from width - 2 down to 1. */
  method BackwardPass(h: seq<int>, height: nat, heightDiffMax: real) returns (r: seq<int>)
    ensures BackwardDone(h, r, height, heightDiffMax)
    ensures heightDiffMax >= 0.0 ==> forall x :: 1 <= x <= |h| - 2 ==> BackwardSettled(r, height, heightDiffMax, x)
    ensures forall x :: 1 <= x <= |h| - 2 && r[x] != h[x] ==>
              && r[x] == r[x + 1]
              && (h[x] - r[x + 1]) as real > heightDiffMax
              && r[x + 1] < Sentinel(height)
    ensures heightDiffMax >= 0.0 ==> forall x :: 0 <= x < |h| ==> r[x] <= h[x]
  {
    r := h;
    var x := |h| - 2;
    while x >= 1
      invariant |r| == |h|
      invariant x <= |h| - 2 && (x >= 0 || x == |h| - 2)
      invariant forall k :: 0 <= k < |h| && (k <= x || k == |h| - 1) ==> r[k] == h[k]
      invariant forall k :: x < k <= |h| - 2 && k >= 1 ==> BackwardStep(h, r, height, heightDiffMax, k)
    {
      ghost var before := r;
      if (r[x] - r[x + 1]) as real > heightDiffMax {
        if r[x + 1] < Sentinel(height) {
          r := r[x := r[x + 1]];
        }
      }
      forall k | x < k <= |h| - 2
        ensures BackwardStep(h, r, height, heightDiffMax, k)
      {
        assert BackwardStep(h, before, height, heightDiffMax, k);
      }
      x := x - 1;
    }
    BackwardDoneFacts(h, r, height, heightDiffMax);
  }

  /** `r` is what hole removal leaves of `h`: the backward sweep applied to
      the forward sweep when `hdRemoval` is set, `h` itself otherwise. */
  ghost predicate HolesRemoved(h: seq<int>, r: seq<int>, height: nat, hdRemoval: bool, heightDiffMax: real) {
    if hdRemoval then
      exists f :: ForwardDone(h, f, height, heightDiffMax) && BackwardDone(f, r, height, heightDiffMax)
    else
      r == h
  }

  /** Hole removal has exactly one outcome. */
  lemma HolesRemovedUnique(h: seq<int>, a: seq<int>, b: seq<int>, height: nat, hdRemoval: bool, heightDiffMax: real)
    requires HolesRemoved(h, a, height, hdRemoval, heightDiffMax)
    requires HolesRemoved(h, b, height, hdRemoval, heightDiffMax)
    ensures a == b
  {
    if hdRemoval {
      var fa :| ForwardDone(h, fa, height, heightDiffMax) && BackwardDone(fa, a, height, heightDiffMax);
      var fb :| ForwardDone(h, fb, height, heightDiffMax) && BackwardDone(fb, b, height, heightDiffMax);
      ForwardDoneUnique(h, fa, fb, height, heightDiffMax);
      BackwardDoneUnique(fa, a, b, height, heightDiffMax);
    }
  }

  /** What the two sweeps do to the columns the fill leaves alone: column 0
      keeps its height, while an unresolved last column (forward sweep) or
      second column (backward sweep) takes its resolved neighbour's height
      when the sentinel lies more than `heightDiffMax` above that neighbour. */
  lemma HoleRemovalEnds(h: seq<int>, f: seq<int>, r: seq<int>, height: nat, heightDiffMax: real)
    requires |h| >= 3
    requires ForwardDone(h, f, height, heightDiffMax) && BackwardDone(f, r, height, heightDiffMax)
    ensures r[0] == h[0]
    ensures var n := |h|;
            && h[n - 1] == Sentinel(height) && f[n - 2] < Sentinel(height)
            && (Sentinel(height) - f[n - 2]) as real > heightDiffMax
            ==> r[n - 1] == f[n - 2]
    ensures && h[1] == Sentinel(height) && r[2] < Sentinel(height)
            && (Sentinel(height) - r[2]) as real > heightDiffMax
            ==> r[1] == r[2]
  {
    assert ForwardStep(h, f, height, heightDiffMax, |h| - 1);
    assert BackwardStep(f, r, height, heightDiffMax, 1);
  }

  /** An 8-column slice of height 20 whose only crossing is column 3 at depth
      5, with hole removal on and the default limit of 4: the fill leaves
      columns 0-2 and 7 at the sentinel 21, and hole removal then resolves
      every column but column 0. */
  lemma DefaultHoleRemovalExample()
    ensures Filled([21, 21, 21, 5, 21, 21, 21, 21], [21, 21, 21, 5, 5, 5, 5, 21], 20)
    ensures HolesRemoved([21, 21, 21, 5, 5, 5, 5, 21], [21, 5, 5, 5, 5, 5, 5, 5], 20, true, 4.0)
  {
    var h: seq<int> := [21, 21, 21, 5, 21, 21, 21, 21];
    var filled: seq<int> := [21, 21, 21, 5, 5, 5, 5, 21];
    var forward: seq<int> := [21, 21, 21, 5, 5, 5, 5, 5];
    var r: seq<int> := [21, 5, 5, 5, 5, 5, 5, 5];
    forall x | 2 <= x <= 6
      ensures FillStep(h, filled, 20, x)
    {
      assert x == 2 || x == 3 || x == 4 || x == 5 || x == 6;
    }
    forall x | 2 <= x < 8
      ensures ForwardStep(filled, forward, 20, 4.0, x)
    {
      assert x == 2 || x == 3 || x == 4 || x == 5 || x == 6 || x == 7;
    }
    forall x | 1 <= x <= 6
      ensures BackwardStep(forward, r, 20, 4.0, x)
    {
      assert x == 1 || x == 2 || x == 3 || x == 4 || x == 5 || x == 6;
    }
    assert ForwardDone(filled, forward, 20, 4.0) && BackwardDone(forward, r, 20, 4.0);
  }

  /** Hole removal: both passes when `hdRemoval` is set, nothing otherwise. */
  method RemoveHoles(h: seq<int>, height: nat, hdRemoval: bool, heightDiffMax: real) returns (r: seq<int>)
    ensures HolesRemoved(h, r, height, hdRemoval, heightDiffMax)
    ensures |r| == |h|
    ensures !hdRemoval ==> r == h
    ensures |h| >= 1 ==> r[0] == h[0]
    ensures hdRemoval && heightDiffMax >= 0.0 ==> forall x :: 1 <= x <= |h| - 2 ==> BackwardSettled(r, height, heightDiffMax, x)
    ensures heightDiffMax >= 0.0 ==> forall x :: 0 <= x < |h| ==> r[x] <= h[x]
  {
    if hdRemoval {
      var forward := ForwardPass(h, height, heightDiffMax);
      r := BackwardPass(forward, height, heightDiffMax);
    } else {
      r := h;
    }
  }

  /** The outcome of the compression loop: column 0, every interior column
      that is not flat (unresolved ones included), then x = width carrying the
      last column's height. */
  predicate IsVertexList(h: seq<int>, xs: seq<int>, ys: seq<int>)
    requires |h| >= 1
  {
    && Spans(xs, ys, |h|)
    && ys[0] == h[0] && ys[|ys| - 1] == h[|h| - 1]
    && (forall i :: 0 < i < |xs| - 1 ==>
          1 <= xs[i] <= |h| - 2 && !Flat(h, xs[i]) && ys[i] == h[xs[i]])
    && (forall x :: 1 <= x <= |h| - 2 && !Flat(h, x) ==> x in xs)
  }

  /** The compression loop has handled the columns below `x`: column 0 and
      every non-flat interior column below `x`, in order. */
  predicate VerticesBelow(h: seq<int>, x: int, xs: seq<int>, ys: seq<int>)
    requires 1 <= x <= |h|
  {
    && |xs| == |ys| >= 1 && xs[0] == 0 && ys[0] == h[0]
    && StrictlyIncreasing(xs) && xs[|xs| - 1] < x
    && (forall i :: 0 < i < |xs| ==>
          1 <= xs[i] < x && xs[i] < |h| - 1 && !Flat(h, xs[i]) && ys[i] == h[xs[i]])
    && (forall z :: 1 <= z < x && z < |h| - 1 && !Flat(h, z) ==> z in xs)
  }

  lemma VerticesStep(h: seq<int>, x: int, xs: seq<int>, ys: seq<int>)
    requires 1 <= x < |h| - 1
    requires VerticesBelow(h, x, xs, ys)
    ensures !Flat(h, x) ==> VerticesBelow(h, x + 1, xs + [x], ys + [h[x]])
    ensures Flat(h, x) ==> VerticesBelow(h, x + 1, xs, ys)
  {
    if !Flat(h, x) {
      var xs', ys' := xs + [x], ys + [h[x]];
      forall i | 0 <= i < |xs'| - 1
        ensures xs'[i] < xs'[i + 1]
      {
        if i < |xs| - 1 {
          assert xs'[i] == xs[i] && xs'[i + 1] == xs[i + 1];
        }
      }
      forall i | 0 < i < |xs'|
        ensures 1 <= xs'[i] < x + 1 && xs'[i] < |h| - 1 && !Flat(h, xs'[i]) && ys'[i] == h[xs'[i]]
      {
        if i < |xs| {
          assert xs'[i] == xs[i] && ys'[i] == ys[i];
        }
      }
      forall z | 1 <= z < x + 1 && z < |h| - 1 && !Flat(h, z)
        ensures z in xs'
      {
        if z < x {
          var i :| 0 <= i < |xs| && xs[i] == z;
          assert xs'[i] == z;
        } else {
          assert xs'[|xs|] == z;
        }
      }
    }
  }

  /** Appending x = width with the last column's height completes the list. */
  lemma VerticesClose(h: seq<int>, xs: seq<int>, ys: seq<int>)
    requires |h| >= 1
    requires VerticesBelow(h, if |h| >= 2 then |h| - 1 else 1, xs, ys)
    ensures IsVertexList(h, xs + [|h|], ys + [h[|h| - 1]])
  {
    var xs', ys' := xs + [|h|], ys + [h[|h| - 1]];
    assert forall i :: 0 <= i < |xs| ==> xs'[i] == xs[i] && ys'[i] == ys[i];
    assert forall z :: z in xs ==> z in xs';
  }

  /** The compression loop of `findEpidermis`. */
  method Vertices(h: seq<int>) returns (xs: seq<int>, ys: seq<int>)
    requires |h| >= 1
    ensures IsVertexList(h, xs, ys)
  {
    var width := |h|;
    xs, ys := [0], [h[0]];
    var x := 1;
    while x < width - 1
      invariant 1 <= x <= width
      invariant VerticesBelow(h, x, xs, ys)
    {
      VerticesStep(h, x, xs, ys);
      if !Flat(h, x) {
        xs, ys := xs + [x], ys + [h[x]];
      }
      x := x + 1;
    }
    VerticesClose(h, xs, ys);
    xs, ys := xs + [width], ys + [h[width - 1]];
  }

  /** The whole V0.16 `findEpidermis` for one slice; `corrected` is the height
      list after the fill and hole-removal passes, from which the vertices are
      taken. */
  method FindEpidermis(pixels: seq<int>, width: nat, height: nat, threshold: real,
                       hdRemoval: bool, heightDiffMax: real)
    returns (xs: seq<int>, ys: seq<int>, corrected: seq<int>)
    requires width >= 1
    requires |pixels| == width * height
    ensures |corrected| == width
    ensures IsVertexList(corrected, xs, ys)
    ensures var h := Scan(pixels, width, height, threshold);
            exists f :: Filled(h, f, height) && HolesRemoved(f, corrected, height, hdRemoval, heightDiffMax)
    ensures var h := Scan(pixels, width, height, threshold);
            && ys[0] == h[0]
            && (heightDiffMax >= 0.0 ==> forall x :: 0 <= x < width ==> corrected[x] <= h[x])
            && (!hdRemoval ==>
                  && (forall x :: 0 <= x < width && (x < 2 || x == width - 1) ==> corrected[x] == h[x])
                  && (forall x :: 2 <= x <= width - 2 ==> NearestResolved(h, height, x, corrected[x])))
    ensures hdRemoval && heightDiffMax >= 0.0 ==> forall x :: 1 <= x <= width - 2 ==> BackwardSettled(corrected, height, heightDiffMax, x)
  {
    var h := Scan(pixels, width, height, threshold);
    var filled := NeighbourFill(h, height);
    corrected := RemoveHoles(filled, height, hdRemoval, heightDiffMax);
    xs, ys := Vertices(corrected);
  }
}

/** The column scanner shared by both plugin versions.

    A resliced image slice is a flat buffer of `width * height` intensities,
    row-major: the voxel of column `x` at depth `y` sits at `width * y + x`.
    For every column the scanner records the first depth, starting at some
    row `from`, whose intensity is strictly above the threshold, or the
    sentinel `height + 1` when no row of that column crosses it.
 */
module ColumnScan {

  /** The "not found" marker a column receives when nothing crosses. */
  function Sentinel(height: nat): int {
    height + 1
  }

  lemma IndexInBuffer(width: nat, height: nat, x: nat, y: nat)
    requires x < width && y < height
    ensures width * y + x < width * height
  {
    calc {
      width * y + x;
    <  width * y + width;
    == width * (y + 1);
    <= { MulMonotone(y + 1, height, width); }
      width * height;
    }
  }

  /** Multiplying both sides by the same non-negative factor keeps the order. */
  lemma MulMonotone(a: int, b: int, w: nat)
    requires a <= b
    ensures a * w <= b * w
  {
  }

  /** The intensity of column `x` at depth `y`. */
  function Voxel(buf: seq<int>, width: nat, height: nat, x: nat, y: nat): int
    requires |buf| == width * height
    requires x < width && y < height
  {
    IndexInBuffer(width, height, x, y);
    buf[width * y + x]
  }

  /** Column `x` read top to bottom: depth `y` of the result is `Voxel(x, y)`. */
  function Column(buf: seq<int>, width: nat, height: nat, x: nat): (col: seq<int>)
    requires |buf| == width * height
    requires x < width
    ensures |col| == height
    ensures forall y :: 0 <= y < height ==> col[y] == Voxel(buf, width, height, x, y)
  {
    seq(height, y requires 0 <= y < height => Voxel(buf, width, height, x, y))
  }

  /** `y` is the first index at or after `from` whose value is above `threshold`,
      or the sentinel `|col| + 1` when there is none. */
  predicate FirstAbove(col: seq<int>, from: nat, threshold: real, y: int) {
    || (from <= y < |col|
        && col[y] as real > threshold
        && forall k :: from <= k < y ==> col[k] as real <= threshold)
    || (y == |col| + 1
        && forall k :: from <= k < |col| ==> col[k] as real <= threshold)
  }

  /** The early-exit depth loop of one column. */
  function FirstCrossing(col: seq<int>, from: nat, threshold: real): (y: int)
    ensures FirstAbove(col, from, threshold, y)
    decreases |col| - from
  {
    if from >= |col| then |col| + 1
    else if col[from] as real > threshold then from
    else FirstCrossing(col, from + 1, threshold)
  }

  /** The surface of column `x` is at depth `y`: the voxel there crosses the
      threshold and no voxel between `from` and `y` does. */
  predicate DetectedAt(buf: seq<int>, width: nat, height: nat, from: nat, threshold: real, x: nat, y: int)
    requires |buf| == width * height
    requires x < width
  {
    && from <= y < height
    && Voxel(buf, width, height, x, y) as real > threshold
    && forall k :: from <= k < y ==> Voxel(buf, width, height, x, k) as real <= threshold
  }

  /** No voxel of column `x` from depth `from` on crosses the threshold. */
  predicate Undetected(buf: seq<int>, width: nat, height: nat, from: nat, threshold: real, x: nat)
    requires |buf| == width * height
    requires x < width
  {
    forall k :: from <= k < height ==> Voxel(buf, width, height, x, k) as real <= threshold
  }

  /** One height per column: the first crossing at or below `from`, else the sentinel. */
  function ScanHeights(buf: seq<int>, width: nat, height: nat, from: nat, threshold: real): (h: seq<int>)
    requires |buf| == width * height
    ensures |h| == width
    ensures forall x :: 0 <= x < width ==> (from <= h[x] < height) || h[x] == Sentinel(height)
    ensures forall x :: 0 <= x < width ==>
              || DetectedAt(buf, width, height, from, threshold, x, h[x])
              || (h[x] == Sentinel(height) && Undetected(buf, width, height, from, threshold, x))
  {
    seq(width, x requires 0 <= x < width => FirstCrossing(Column(buf, width, height, x), from, threshold))
  }

  /** The two's-complement `p & andOp` for the two masks the plugin uses
      (`0xFF` for 8-bit, `0xFFFF` for 16-bit images). */
  function MaskPixel(p: int, andOp: int): (v: int)
    requires andOp == 0xFF || andOp == 0xFFFF
    ensures 0 <= v <= andOp
    ensures (v - p) % (andOp + 1) == 0
  {
    p % (andOp + 1)
  }

  /** The buffer with every intensity masked. */
  function MaskBuffer(buf: seq<int>, andOp: int): (m: seq<int>)
    requires andOp == 0xFF || andOp == 0xFFFF
    ensures |m| == |buf|
    ensures forall i :: 0 <= i < |buf| ==> m[i] == MaskPixel(buf[i], andOp)
  {
    seq(|buf|, i requires 0 <= i < |buf| => MaskPixel(buf[i], andOp))
  }
}

/** The summed-area table ("integral image") over a w-by-h intensity buffer:
    its cell (x, y) holds the sum of all intensities in columns 0..x and rows
    0..y. A rectangle of intensities is then summed from four table cells. */
module Integral {
  import opened Image

  /** Sum of the first x intensities of row y. */
  function RowSum(p: seq<byte>, w: nat, h: nat, y: nat, x: nat): (r: int)
    requires |p| == w * h && y < h && x <= w
    ensures 0 <= r <= 255 * x
  {
    if x == 0 then 0
    else
      IndexInBounds(w, h, x - 1, y);
      RowSum(p, w, h, y, x - 1) + p[y * w + x - 1]
  }

  /** Sum of the intensities in columns below x and rows below y; the table
      value of cell (x, y) is Prefix(p, w, h, x + 1, y + 1). */
  function Prefix(p: seq<byte>, w: nat, h: nat, x: nat, y: nat): (r: int)
    requires |p| == w * h && x <= w && y <= h
    ensures 0 <= r
  {
    if y == 0 then 0 else Prefix(p, w, h, x, y - 1) + RowSum(p, w, h, y - 1, x)
  }

  /** Reference row sum, independent of the table: intensities of row y in
      columns xa <= x' < xb. */
  function Span(p: seq<byte>, w: nat, h: nat, y: nat, xa: nat, xb: nat): (r: int)
    requires |p| == w * h && y < h && xa <= xb <= w
    ensures 0 <= r <= 255 * (xb - xa)
    decreases xb - xa
  {
    if xa == xb then 0
    else
      IndexInBounds(w, h, xa, y);
      p[y * w + xa] + Span(p, w, h, y, xa + 1, xb)
  }

  /** Reference rectangle sum: intensities in columns xa <= x' < xb and rows
      ya <= y' < yb, so at most 255 per cell. */
  function RectSum(p: seq<byte>, w: nat, h: nat, xa: nat, xb: nat, ya: nat, yb: nat): (r: int)
    requires |p| == w * h && xa <= xb <= w && ya <= yb <= h
    ensures 0 <= r <= 255 * (xb - xa) * (yb - ya)
    decreases yb - ya
  {
    if ya == yb then 0
    else Span(p, w, h, ya, xa, xb) + RectSum(p, w, h, xa, xb, ya + 1, yb)
  }

  /** The table value of the cell at address k (column k % w, row k / w). */
  function SumTo(p: seq<byte>, w: nat, h: nat, k: nat): (r: int)
    requires |p| == w * h && k < w * h
    ensures 0 <= r
  {
    CellOf(w, h, k);
    Prefix(p, w, h, k % w + 1, k / w + 1)
  }

  /** `ii` is the summed-area table of the w-by-h buffer `p`. */
  predicate IsIntegral(ii: seq<int>, p: seq<byte>, w: nat, h: nat): (b: bool)
    ensures b ==> forall k :: 0 <= k < |ii| ==> ii[k] >= 0
  {
    && |p| == w * h
    && |ii| == w * h
    && forall k :: 0 <= k < w * h ==> ii[k] == SumTo(p, w, h, k)
  }

  /** Read at cell (x, y), a summed-area table gives the sum over columns
      0..x and rows 0..y. */
  lemma TableAt(ii: seq<int>, p: seq<byte>, w: nat, h: nat, x: nat, y: nat)
    requires IsIntegral(ii, p, w, h) && x < w && y < h
    ensures y * w + x < w * h && ii[y * w + x] == Prefix(p, w, h, x + 1, y + 1)
  {
    SumToCell(p, w, h, x, y);
    var k := y * w + x;
    assert ii[k] == SumTo(p, w, h, k);
  }

  /** The table value of cell (x, y) is the prefix sum up to and including
      that cell. */
  lemma SumToCell(p: seq<byte>, w: nat, h: nat, x: nat, y: nat)
    requires |p| == w * h && x < w && y < h
    ensures y * w + x < w * h && SumTo(p, w, h, y * w + x) == Prefix(p, w, h, x + 1, y + 1)
  {
    IndexInBounds(w, h, x, y);
    RowCol(w, x, y);
  }

  /** Nothing lies left of column 0. */
  lemma {:induction false} PrefixFirstColumn(p: seq<byte>, w: nat, h: nat, y: nat)
    requires |p| == w * h && y <= h
    ensures Prefix(p, w, h, 0, y) == 0
  {
    if y > 0 {
      PrefixFirstColumn(p, w, h, y - 1);
    }
  }

  lemma {:induction false} SpanIsRowDifference(p: seq<byte>, w: nat, h: nat, y: nat, xa: nat, xb: nat)
    requires |p| == w * h && y < h && xa <= xb <= w
    ensures Span(p, w, h, y, xa, xb) == RowSum(p, w, h, y, xb) - RowSum(p, w, h, y, xa)
    decreases xb - xa
  {
    if xa < xb {
      SpanIsRowDifference(p, w, h, y, xa + 1, xb);
    }
  }

  /** The four-corner query: a rectangle sum is the table at its far corner,
      minus the strips left of it and above it, plus the doubly removed
      corner block. */
  lemma {:induction false} InclusionExclusion(p: seq<byte>, w: nat, h: nat, xa: nat, xb: nat, ya: nat, yb: nat)
    requires |p| == w * h && xa <= xb <= w && ya <= yb <= h
    ensures RectSum(p, w, h, xa, xb, ya, yb)
         == Prefix(p, w, h, xb, yb) - Prefix(p, w, h, xa, yb) - Prefix(p, w, h, xb, ya) + Prefix(p, w, h, xa, ya)
    decreases yb - ya
  {
    if ya < yb {
      InclusionExclusion(p, w, h, xa, xb, ya + 1, yb);
      SpanIsRowDifference(p, w, h, ya, xa, xb);
    }
  }

  /** The prefix sums grow along both axes. */
  lemma PrefixMonotone(p: seq<byte>, w: nat, h: nat, x: nat, y: nat)
    requires |p| == w * h && x <= w && y <= h
    ensures x < w ==> Prefix(p, w, h, x, y) <= Prefix(p, w, h, x + 1, y)
    ensures y < h ==> Prefix(p, w, h, x, y) <= Prefix(p, w, h, x, y + 1)
  {
    if x < w {
      InclusionExclusion(p, w, h, x, x + 1, 0, y);
    }
  }

  /** The prefix sums of a column prefix grow with the number of rows. */
  lemma PrefixRowsMonotone(p: seq<byte>, w: nat, h: nat, x: nat, ya: nat, yb: nat)
    requires |p| == w * h && x <= w && ya <= yb <= h
    ensures Prefix(p, w, h, x, ya) <= Prefix(p, w, h, x, yb)
  {
    InclusionExclusion(p, w, h, 0, x, ya, yb);
    PrefixFirstColumn(p, w, h, ya);
    PrefixFirstColumn(p, w, h, yb);
  }

  /** The raster recurrence the table is built with: the table at a cell is
      the cell's intensity plus the table to its left and above, minus the
      table diagonally above-left; missing neighbours count as 0. */
  lemma IntegralStep(p: seq<byte>, w: nat, h: nat, x: nat, y: nat, k: nat)
    requires |p| == w * h && x < w && y < h && k == y * w + x
    ensures k < w * h && (y > 0 ==> k >= w + x)
    ensures SumTo(p, w, h, k)
         == p[k]
          + (if x > 0 then SumTo(p, w, h, k - 1) else 0)
          + (if y > 0 then SumTo(p, w, h, k - w) else 0)
          - (if x > 0 && y > 0 then SumTo(p, w, h, k - w - 1) else 0)
  {
    SumToCell(p, w, h, x, y);
    PrefixStep(p, w, h, x, y);
    if x > 0 {
      LeftCell(p, w, h, x, y, k);
    } else {
      PrefixFirstColumn(p, w, h, y + 1);
      PrefixFirstColumn(p, w, h, y);
    }
    if y > 0 {
      UpperCell(p, w, h, x, y, k);
      if x > 0 {
        DiagonalCell(p, w, h, x, y, k);
      }
    }
  }

  /** The cell left of address k = y * w + x, for x > 0, is k - 1. */
  lemma LeftCell(p: seq<byte>, w: nat, h: nat, x: nat, y: nat, k: nat)
    requires |p| == w * h && 0 < x < w && y < h && k == y * w + x && k < w * h
    ensures 0 < k && SumTo(p, w, h, k - 1) == Prefix(p, w, h, x, y + 1)
  {
    SumToCell(p, w, h, x - 1, y);
  }

  /** The cell above address k = y * w + x, for y > 0, is k - w. */
  lemma UpperCell(p: seq<byte>, w: nat, h: nat, x: nat, y: nat, k: nat)
    requires |p| == w * h && x < w && 0 < y < h && k == y * w + x && k < w * h
    ensures k >= w + x && SumTo(p, w, h, k - w) == Prefix(p, w, h, x + 1, y)
  {
    MulMono(1, y, w);
    assert (y - 1) * w == y * w - w;
    SumToCell(p, w, h, x, y - 1);
  }

  /** The cell diagonally above-left of address k = y * w + x, for x > 0
      and y > 0, is k - w - 1. */
  lemma DiagonalCell(p: seq<byte>, w: nat, h: nat, x: nat, y: nat, k: nat)
    requires |p| == w * h && 0 < x < w && 0 < y < h && k == y * w + x && k < w * h
    ensures k >= w + x && SumTo(p, w, h, k - w - 1) == Prefix(p, w, h, x, y)
  {
    MulMono(1, y, w);
    assert (y - 1) * w == y * w - w;
    SumToCell(p, w, h, x - 1, y - 1);
  }

  /** The recurrence on prefix sums: the block up to and including cell
      (x, y) is that cell plus the block left of it and the block above it,
      minus their overlap. */
  lemma PrefixStep(p: seq<byte>, w: nat, h: nat, x: nat, y: nat)
    requires |p| == w * h && x < w && y < h
    ensures y * w + x < w * h
    ensures Prefix(p, w, h, x + 1, y + 1)
         == p[y * w + x] + Prefix(p, w, h, x, y + 1) + Prefix(p, w, h, x + 1, y) - Prefix(p, w, h, x, y)
  {
    IndexInBounds(w, h, x, y);
  }

  lemma RightNeighbour(ii: seq<int>, p: seq<byte>, w: nat, h: nat, k: nat)
    requires IsIntegral(ii, p, w, h) && k < w * h && k % w + 1 < w
    ensures k + 1 < w * h && ii[k] <= ii[k + 1]
  {
    CellOf(w, h, k);
    var x, y := k % w, k / w;
    IndexInBounds(w, h, x + 1, y);
    RowCol(w, x + 1, y);
    PrefixMonotone(p, w, h, x + 1, y + 1);
  }

  lemma LowerNeighbour(ii: seq<int>, p: seq<byte>, w: nat, h: nat, k: nat)
    requires IsIntegral(ii, p, w, h) && k + w < w * h
    ensures ii[k] <= ii[k + w]
  {
    CellOf(w, h, k);
    var x, y := k % w, k / w;
    assert k + w == (y + 1) * w + x;
    CellOf(w, h, k + w);
    RowCol(w, x, y + 1);
    PrefixMonotone(p, w, h, x + 1, y + 1);
  }

  /** A summed-area table is non-decreasing to the right (address k + 1 in
      the same row) and downwards (address k + w). */
  lemma IntegralMonotone(ii: seq<int>, p: seq<byte>, w: nat, h: nat)
    requires IsIntegral(ii, p, w, h)
    ensures forall k :: 0 <= k && k + 1 < w * h && k % w + 1 < w ==> ii[k] <= ii[k + 1]
    ensures forall k :: 0 <= k && k + w < w * h ==> ii[k] <= ii[k + w]
  {
    forall k | 0 <= k && k + 1 < w * h && k % w + 1 < w
      ensures ii[k] <= ii[k + 1]
    {
      RightNeighbour(ii, p, w, h, k);
    }
    forall k | 0 <= k && k + w < w * h
      ensures ii[k] <= ii[k + w]
    {
      LowerNeighbour(ii, p, w, h, k);
    }
  }

  lemma {:induction false} SpanUniform(p: seq<byte>, w: nat, h: nat, v: byte, y: nat, xa: nat, xb: nat)
    requires |p| == w * h && y < h && xa <= xb <= w
    requires forall k :: 0 <= k < |p| ==> p[k] == v
    ensures Span(p, w, h, y, xa, xb) == v * (xb - xa)
    decreases xb - xa
  {
    if xa < xb {
      IndexInBounds(w, h, xa, y);
      assert p[y * w + xa] == v;
      SpanUniform(p, w, h, v, y, xa + 1, xb);
      assert v * (xb - xa) == v + v * (xb - (xa + 1));
    }
  }

  /** On an image of one intensity v every rectangle sums to v times its
      number of cells. */
  lemma {:induction false} RectUniform(p: seq<byte>, w: nat, h: nat, v: byte, xa: nat, xb: nat, ya: nat, yb: nat)
    requires |p| == w * h && xa <= xb <= w && ya <= yb <= h
    requires forall k :: 0 <= k < |p| ==> p[k] == v
    ensures RectSum(p, w, h, xa, xb, ya, yb) == v * (xb - xa) * (yb - ya)
    decreases yb - ya
  {
    if ya < yb {
      RectUniform(p, w, h, v, xa, xb, ya + 1, yb);
      SpanUniform(p, w, h, v, ya, xa, xb);
      var c := v * (xb - xa);
      assert v * (xb - xa) * (yb - ya) == c + c * (yb - (ya + 1));
    }
  }
}

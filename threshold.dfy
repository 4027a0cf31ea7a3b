/** The adaptive thresholder `aithreshold` (src/aithreshold.c:27-99): each
    pixel is compared with a threshold derived from the mean of a window
    around it, optionally after an edge-enhancement step, and overwritten in
    place with 0 or 255. All window sums come from the summed-area table. */
module Threshold {
  import opened Image
  import opened Integral
  import opened Geometry

  /** The parameters of `aithreshold`, with its floating-point arithmetic
      abstracted into two integer-valued functions:
      - `edgeOn` is the test `ked > 0.0f` (line 59);
      - `thres(sum, count)` is the threshold of lines 57-58, computed from the
        mean `sum / count` with `tscale` and `delta`;
      - `edgeDiv(pix, sumw, countw)` is the EdgeDiv value of lines 70-90,
        before its clamp to [0, 255] at line 92. */
  datatype Params = Params(
    npart: int,
    wed: nat,
    edgeOn: bool,
    thres: (int, nat) -> int,
    edgeDiv: (byte, int, nat) -> int)

  function Dist(a: int, b: int): nat {
    if a < b then b - a else a - b
  }

  /** The trim of line 92: the byte nearest to v. */
  function Clamp255(v: int): (r: byte)
    ensures 0 <= v <= 255 ==> r == v
    ensures forall b: byte :: Dist(r, v) <= Dist(b, v)
  {
    if v < 0 then 0 else if v < 255 then v else 255
  }

  /** The value compared against the threshold (`pix` at line 95): the
      original intensity when edge enhancement is off, else the EdgeDiv
      value trimmed to [0, 255]. */
  function Compared(prm: Params, pix: byte, sumw: int, countw: nat): (v: int)
    ensures !prm.edgeOn ==> v == pix
    ensures prm.edgeOn ==> 0 <= v <= 255 && v == Clamp255(prm.edgeDiv(pix, sumw, countw))
  {
    if prm.edgeOn then Clamp255(prm.edgeDiv(pix, sumw, countw)) else pix
  }

  /** The binary decision of line 95. */
  function Decide(v: int, t: int): (b: byte)
    ensures b == 0 || b == 255
    ensures b == 0 <==> v < t
  {
    if v < t then 0 else 255
  }

  /** The four-corner query of lines 51-55 (and 65-69) on a table `ii`. On any
      table a window of no cells queries 0; on a summed-area table the query is
      the window's sum (`QueryIsWindowSum`). */
  function Query(ii: seq<int>, w: nat, h: nat, win: Window): (r: int)
    requires |ii| == w * h && win.Inside(w, h)
    ensures win.x1 == win.x2 || win.y1 == win.y2 ==> r == 0
  {
    CornersInBounds(win, w, h);
    ii[win.y2 * w + win.x2] + ii[win.y1 * w + win.x1] - ii[win.y1 * w + win.x2] - ii[win.y2 * w + win.x1]
  }

  /** What a query over `win` sums, straight from the intensities: the cells
      x1 < x' <= x2, y1 < y' <= y2. */
  function WindowSum(p: seq<byte>, w: nat, h: nat, win: Window): (s: int)
    requires |p| == w * h && win.Inside(w, h)
    ensures 0 <= s <= 255 * win.Area()
  {
    MulAssoc(255, win.x2 - win.x1, win.y2 - win.y1);
    RectSum(p, w, h, win.x1 + 1, win.x2 + 1, win.y1 + 1, win.y2 + 1)
  }

  /** On a summed-area table the four-corner query returns the window's sum
      of intensities, which lies between 0 and 255 per covered cell. */
  lemma QueryIsWindowSum(ii: seq<int>, p: seq<byte>, w: nat, h: nat, win: Window)
    requires IsIntegral(ii, p, w, h) && win.Inside(w, h)
    ensures Query(ii, w, h, win) == WindowSum(p, w, h, win)
    ensures 0 <= Query(ii, w, h, win) <= 255 * win.Area()
  {
    var x1, y1, x2, y2 := win.x1 + 1, win.y1 + 1, win.x2 + 1, win.y2 + 1;
    TableAt(ii, p, w, h, win.x1, win.y1);
    TableAt(ii, p, w, h, win.x2, win.y1);
    TableAt(ii, p, w, h, win.x1, win.y2);
    TableAt(ii, p, w, h, win.x2, win.y2);
    assert Query(ii, w, h, win)
        == Prefix(p, w, h, x2, y2) + Prefix(p, w, h, x1, y1) - Prefix(p, w, h, x2, y1) - Prefix(p, w, h, x1, y2);
    InclusionExclusion(p, w, h, x1, x2, y1, y2);
  }

  /** The query of line 55 is evaluated left to right in unsigned
      arithmetic: the first partial result `dataint[k22] + dataint[k11] -
      dataint[k12]` is not below `dataint[k11]`, and the final one is not
      below 0, so no step wraps around. */
  lemma QueryNoWrap(ii: seq<int>, p: seq<byte>, w: nat, h: nat, win: Window)
    requires IsIntegral(ii, p, w, h) && win.Inside(w, h)
    ensures win.y1 * w + win.x2 < w * h && win.y2 * w + win.x2 < w * h
    ensures ii[win.y1 * w + win.x2] <= ii[win.y2 * w + win.x2]
    ensures Query(ii, w, h, win) >= 0
  {
    TableAt(ii, p, w, h, win.x2, win.y1);
    TableAt(ii, p, w, h, win.x2, win.y2);
    PrefixRowsMonotone(p, w, h, win.x2 + 1, win.y1 + 1, win.y2 + 1);
    QueryIsWindowSum(ii, p, w, h, win);
  }

  /** The output of pixel k as `aithreshold` computes it: window sums by
      four-corner queries on `ii`, the pixel's own value from `orig`. */
  function ThresholdPixel(orig: seq<byte>, ii: seq<int>, w: nat, h: nat, prm: Params, k: nat): (b: byte)
    requires |orig| == w * h && |ii| == w * h && k < w * h && prm.npart > 0
    ensures b == 0 || b == 255
  {
    var mw := MeanWindowAt(w, h, prm.npart, k);
    var ew := EdgeWindowAt(w, h, prm.wed, k);
    Decide(Compared(prm, orig[k], Query(ii, w, h, ew), ew.Area()), prm.thres(Query(ii, w, h, mw), mw.Area()))
  }

  /** The first n pixels of the output image, each the table-based decision
      of `ThresholdPixel`. */
  function Thresholded(orig: seq<byte>, ii: seq<int>, w: nat, h: nat, prm: Params, n: nat): (out: seq<byte>)
    requires |orig| == w * h && |ii| == w * h && n <= w * h && prm.npart > 0
    ensures |out| == n
    ensures forall j {:trigger ThresholdPixel(orig, ii, w, h, prm, j)} :: 0 <= j < n ==>
              out[j] == ThresholdPixel(orig, ii, w, h, prm, j)
  {
    if n == 0 then [] else Thresholded(orig, ii, w, h, prm, n - 1) + [ThresholdPixel(orig, ii, w, h, prm, n - 1)]
  }

  /** The output of pixel k stated without the table: the same decision with
      every window sum taken directly over the intensities. */
  function ReferencePixel(orig: seq<byte>, w: nat, h: nat, prm: Params, k: nat): (b: byte)
    requires |orig| == w * h && k < w * h && prm.npart > 0
    ensures b == 0 || b == 255
  {
    var mw := MeanWindowAt(w, h, prm.npart, k);
    var ew := EdgeWindowAt(w, h, prm.wed, k);
    Decide(Compared(prm, orig[k], WindowSum(orig, w, h, ew), ew.Area()), prm.thres(WindowSum(orig, w, h, mw), mw.Area()))
  }

  /** With the summed-area table of the original intensities, the table-based
      output agrees with the reference at every pixel. */
  lemma PixelMatchesReference(orig: seq<byte>, ii: seq<int>, w: nat, h: nat, prm: Params, k: nat)
    requires IsIntegral(ii, orig, w, h) && k < w * h && prm.npart > 0
    ensures ThresholdPixel(orig, ii, w, h, prm, k) == ReferencePixel(orig, w, h, prm, k)
  {
    QueryIsWindowSum(ii, orig, w, h, MeanWindowAt(w, h, prm.npart, k));
    QueryIsWindowSum(ii, orig, w, h, EdgeWindowAt(w, h, prm.wed, k));
  }

  /** Pixel k's output depends on the buffer only through pixel k itself:
      the other pixels are seen only through the table, so overwriting them
      first does not change it. */
  lemma OnlyOwnPixelRead(orig: seq<byte>, other: seq<byte>, ii: seq<int>, w: nat, h: nat, prm: Params, k: nat)
    requires |orig| == w * h && |other| == w * h && |ii| == w * h && k < w * h && prm.npart > 0
    requires orig[k] == other[k]
    ensures ThresholdPixel(orig, ii, w, h, prm, k) == ThresholdPixel(other, ii, w, h, prm, k)
  {
  }

  /** `count` is the number of cells a query covers: on an image of a single
      intensity v the window sums to v times its area. */
  lemma WindowSumUniform(p: seq<byte>, w: nat, h: nat, win: Window, v: byte)
    requires |p| == w * h && win.Inside(w, h)
    requires forall j :: 0 <= j < |p| ==> p[j] == v
    ensures WindowSum(p, w, h, win) == v * win.Area()
  {
    RectUniform(p, w, h, v, win.x1 + 1, win.x2 + 1, win.y1 + 1, win.y2 + 1);
    MulAssoc(v, win.x2 - win.x1, win.y2 - win.y1);
  }

  /** On an image of a single intensity v with edge enhancement off, every
      pixel is compared with the threshold of a mean window summing to v
      times its cell count. */
  lemma UniformImage(orig: seq<byte>, ii: seq<int>, w: nat, h: nat, prm: Params, v: byte, k: nat)
    requires IsIntegral(ii, orig, w, h) && k < w * h && prm.npart > 0 && !prm.edgeOn
    requires forall j :: 0 <= j < |orig| ==> orig[j] == v
    ensures var a := MeanWindowAt(w, h, prm.npart, k).Area();
            ThresholdPixel(orig, ii, w, h, prm, k) == Decide(v, prm.thres(v * a, a))
  {
    var mw := MeanWindowAt(w, h, prm.npart, k);
    QueryIsWindowSum(ii, orig, w, h, mw);
    WindowSumUniform(orig, w, h, mw, v);
  }

  /** With edge enhancement off (`ked` = 0, line 59) the edge window plays
      no part: a pixel is compared, unchanged, with the threshold of its mean
      window. */
  lemma EdgeOffReference(orig: seq<byte>, w: nat, h: nat, prm: Params, k: nat)
    requires |orig| == w * h && k < w * h && prm.npart > 0 && !prm.edgeOn
    ensures var mw := MeanWindowAt(w, h, prm.npart, k);
            ReferencePixel(orig, w, h, prm, k) == Decide(orig[k], prm.thres(WindowSum(orig, w, h, mw), mw.Area()))
  {
  }

  /** On a 2-by-2 image with npart = 1 the local-mean window of every pixel
      has corners (0, 0) and (1, 1): it covers the single cell (1, 1), so a
      pixel's own cell counts towards its mean only at (1, 1). */
  lemma TwoByTwoWindow(p: seq<byte>, k: nat)
    requires |p| == 4 && k < 4
    ensures MeanWindowAt(2, 2, 1, k) == Window(0, 0, 1, 1)
    ensures Window(0, 0, 1, 1).Area() == 1 && WindowSum(p, 2, 2, Window(0, 0, 1, 1)) == p[3]
  {
    assert Radius(2, 1) == 1;
    assert k % 2 < 2 && k / 2 < 2;
    assert Span(p, 2, 2, 1, 1, 2) == p[3];
    assert WindowSum(p, 2, 2, Window(0, 0, 1, 1)) == Span(p, 2, 2, 1, 1, 2) + RectSum(p, 2, 2, 1, 2, 2, 2);
  }

  /** The 2-by-2 image [[0, 0], [0, 255]] with npart = 1 and edge
      enhancement off: each pixel is compared with the threshold for sum 255
      over 1 cell, pixel (0, 0) included, although it is not part of its own
      window. */
  lemma TwoByTwo(prm: Params, k: nat)
    requires prm.npart == 1 && !prm.edgeOn && k < 4
    ensures ReferencePixel([0, 0, 0, 255], 2, 2, prm, k) == Decide([0, 0, 0, 255][k], prm.thres(255, 1))
  {
    var p: seq<byte> := [0, 0, 0, 255];
    TwoByTwoWindow(p, k);
    EdgeOffReference(p, 2, 2, prm, k);
  }

  /** The four-corner query of lines 51-55 (and 65-69) over the table, as
      array reads. It computes the function `Query`; what the query means is
      proved about that function (`QueryIsWindowSum`, `QueryNoWrap`). */
  method CornerQuery(dataint: array<nat>, width: nat, height: nat, x1: nat, y1: nat, x2: nat, y2: nat)
    returns (sum: int)
    requires dataint.Length == width * height && Window(x1, y1, x2, y2).Inside(width, height)
    ensures sum == Query(dataint[..], width, height, Window(x1, y1, x2, y2))
  {
    CornersInBounds(Window(x1, y1, x2, y2), width, height);
    var k11 := y1 * width + x1;
    var k12 := y1 * width + x2;
    var k21 := y2 * width + x1;
    var k22 := y2 * width + x2;
    sum := dataint[k22] as int + dataint[k11] - dataint[k12] - dataint[k21];
  }

  /** Lines 48-58: the local-mean window of pixel (x, y) at address k, its
      cell count, its sum by a four-corner query, and the threshold. */
  method MeanThreshold(dataint: array<nat>, width: nat, height: nat, prm: Params,
                       rx: nat, y1: nat, y2: nat, x: nat, y: nat, k: nat)
    returns (thres: int)
    requires dataint.Length == width * height && prm.npart > 0
    requires x < width && y < height && k == y * width + x && k < width * height
    requires rx == Radius(width, prm.npart)
    requires y1 == ClampLo(y, Radius(height, prm.npart)) && y2 == ClampHi(y, Radius(height, prm.npart), height)
    ensures var mw := MeanWindowAt(width, height, prm.npart, k);
            thres == prm.thres(Query(dataint[..], width, height, mw), mw.Area())
  {
    RowCol(width, x, y);
    var x1 := if x < rx then 0 else x - rx;
    var x2 := if x + rx < width then x + rx else width - 1;
    ghost var mw := Window(x1, y1, x2, y2);
    assert mw == MeanWindowAt(width, height, prm.npart, k);
    var count := (x2 - x1) * (y2 - y1);
    assert count == mw.Area();
    var sum := CornerQuery(dataint, width, height, x1, y1, x2, y2);
    thres := prm.thres(sum, count);
  }

  /** Lines 61-92: the edge-enhancement window of pixel (x, y) at address
      k, its cell count and sum, and the EdgeDiv value of `pix` trimmed to
      [0, 255]. */
  method EdgeValue(dataint: array<nat>, width: nat, height: nat, prm: Params,
                   y1w: nat, y2w: nat, x: nat, y: nat, k: nat, pix: byte)
    returns (v: int)
    requires dataint.Length == width * height
    requires x < width && y < height && k == y * width + x && k < width * height
    requires y1w == ClampLo(y, prm.wed) && y2w == ClampHi(y, prm.wed, height)
    ensures var ew := EdgeWindowAt(width, height, prm.wed, k);
            v == Clamp255(prm.edgeDiv(pix, Query(dataint[..], width, height, ew), ew.Area()))
  {
    RowCol(width, x, y);
    var wed := prm.wed;
    var x1w := if x < wed then 0 else x - wed;
    var x2w := if x + wed < width then x + wed else width - 1;
    ghost var ew := Window(x1w, y1w, x2w, y2w);
    assert ew == EdgeWindowAt(width, height, wed, k);
    var countw := (x2w - x1w) * (y2w - y1w);
    assert countw == ew.Area();
    var sumw := CornerQuery(dataint, width, height, x1w, y1w, x2w, y2w);
    v := prm.edgeDiv(pix, sumw, countw);
    v := if v < 0 then 0 else if v < 255 then v else 255;
  }

  /** The body of the inner loop up to the write (lines 48-94): from the
      row's window edges, the table and `data[k]`, the new value of pixel
      k = y * width + x. */
  method PixelValue(data: array<byte>, dataint: array<nat>, width: nat, height: nat, prm: Params,
                    rx: nat, y1: nat, y2: nat, y1w: nat, y2w: nat, x: nat, y: nat, k: nat)
    returns (b: byte)
    requires data.Length == width * height && dataint.Length == width * height && prm.npart > 0
    requires x < width && y < height && k == y * width + x && k < width * height
    requires rx == Radius(width, prm.npart)
    requires y1 == ClampLo(y, Radius(height, prm.npart)) && y2 == ClampHi(y, Radius(height, prm.npart), height)
    requires y1w == ClampLo(y, prm.wed) && y2w == ClampHi(y, prm.wed, height)
    ensures b == ThresholdPixel(data[..], dataint[..], width, height, prm, k)
  {
    var thres := MeanThreshold(dataint, width, height, prm, rx, y1, y2, x, y, k);
    var pix: int := data[k];
    if prm.edgeOn {
      pix := EdgeValue(dataint, width, height, prm, y1w, y2w, x, y, k, data[k]);
    }
    b := if pix < thres then 0 else 255;
  }

  /** The window extent along an axis of n pixels (lines 34-37: n / npart,
      or 2 on an axis of at most 2 * npart pixels), halved. It computes the
      function `Radius`, whose contract states what the half-size is. */
  method HalfSize(n: nat, npart: int) returns (r: nat)
    requires npart > 0
    ensures r == Radius(n, npart)
  {
    var extent: nat := if n > npart + npart then n / npart else 2;
    r := extent / 2;
  }

  /** One pass of the outer loop (lines 40-97): row y, with its window
      edges along y computed once. `out` is the decision of every pixel for
      the original buffer `orig` and the table `ii`; the row's pixels go from
      `orig` to `out` and nothing else changes. */
  method ThresholdRow(data: array<byte>, dataint: array<nat>, height: nat, width: nat, prm: Params,
                      rx: nat, ry: nat, y: nat, k0: nat, ghost orig: seq<byte>, ghost ii: seq<int>, ghost out: seq<byte>)
    requires data.Length == width * height && dataint.Length == width * height
    requires |orig| == width * height && |out| == width * height && ii == dataint[..]
    requires prm.npart > 0 && y < height && k0 == y * width && k0 + width <= width * height
    requires rx == Radius(width, prm.npart) && ry == Radius(height, prm.npart)
    requires forall j {:trigger ThresholdPixel(orig, ii, width, height, prm, j)} :: 0 <= j < width * height ==>
               out[j] == ThresholdPixel(orig, ii, width, height, prm, j)
    requires forall j :: 0 <= j < k0 ==> data[j] == out[j]
    requires forall j :: k0 <= j < width * height ==> data[j] == orig[j]
    modifies data
    ensures forall j :: 0 <= j < k0 + width ==> data[j] == out[j]
    ensures forall j :: k0 + width <= j < width * height ==> data[j] == orig[j]
  {
    var wed := prm.wed;
    var y1 := if y < ry then 0 else y - ry;
    var y2 := if y + ry < height then y + ry else height - 1;
    var y1w := if y < wed then 0 else y - wed;
    var y2w := if y + wed < height then y + wed else height - 1;
    var k := k0;
    var x: nat := 0;
    while x < width
      invariant x <= width && k == k0 + x
      invariant forall j :: 0 <= j < k ==> data[j] == out[j]
      invariant forall j :: k <= j < width * height ==> data[j] == orig[j]
    {
      IndexInBounds(width, height, x, y);
      var b := PixelValue(data, dataint, width, height, prm, rx, y1, y2, y1w, y2w, x, y, k);
      OnlyOwnPixelRead(data[..], orig, ii, width, height, prm, k);
      data[k] := b;
      k := k + 1;
      x := x + 1;
    }
  }

  /** `aithreshold`: walks every pixel in raster order with a running address
      k, reads `data[k]` and then overwrites it with 0 or 255. Afterwards
      every pixel holds the table-based decision for the original buffer. */
  method AiThreshold(data: array<byte>, dataint: array<nat>, height: nat, width: nat, prm: Params)
    requires data.Length == width * height && dataint.Length == width * height
    requires prm.npart > 0
    modifies data
    ensures dataint[..] == old(dataint[..])
    ensures data[..] == Thresholded(old(data[..]), dataint[..], width, height, prm, width * height)
  {
    var ry := HalfSize(height, prm.npart);
    var rx := HalfSize(width, prm.npart);
    ghost var orig: seq<byte>, ii: seq<int> := data[..], dataint[..];
    ghost var out := Thresholded(orig, ii, width, height, prm, width * height);
    var k: nat := 0;
    var y: nat := 0;
    while y < height
      invariant y <= height && k == y * width && k <= width * height
      invariant forall j :: 0 <= j < k ==> data[j] == out[j]
      invariant forall j :: k <= j < width * height ==> data[j] == orig[j]
    {
      NextRow(width, height, y);
      ThresholdRow(data, dataint, height, width, prm, rx, ry, y, k, orig, ii, out);
      k := k + width;
      y := y + 1;
    }
    LastRow(width, height, y, k);
    assert dataint[..] == ii;
    assert data[..] == out;
  }
}

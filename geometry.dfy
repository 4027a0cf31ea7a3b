/** Window geometry of `aithreshold` (src/aithreshold.c:34-54, 62-68): the
    half-sizes of the local-mean window, the clamping of a window centred on
    a pixel to the image, and the four corner addresses of a window. */
module Geometry {
  import opened Image

  /** A window given by two corner cells (x1, y1) and (x2, y2), x1 <= x2 and
      y1 <= y2. A query over it covers the cells x1 < x' <= x2, y1 < y' <= y2:
      row y1 and column x1 are not part of it. */
  datatype Window = Window(x1: nat, y1: nat, x2: nat, y2: nat) {

    predicate Inside(w: nat, h: nat) {
      x1 <= x2 < w && y1 <= y2 < h
    }

    /** Number of cells the query covers (`count`, `countw`). */
    function Area(): (r: nat)
      requires x1 <= x2 && y1 <= y2
      ensures r == 0 <==> x1 == x2 || y1 == y2
    {
      (x2 - x1) * (y2 - y1)
    }
  }

  /** Halving the quotient n / d: twice the half, times d, is at most n, and
      n stays below the next multiple of 2 * d. */
  lemma HalvedQuotient(n: nat, d: nat)
    requires d > 0 && n > d + d
    ensures n / d >= 2
    ensures 2 * (n / d / 2) * d <= n < (2 * (n / d / 2) + 2) * d
  {
    var q, m := n / d, n % d;
    assert n == q * d + m;
    if q < 2 {
      MulMono(q, 1, d);
      assert false;
    }
    var r := q / 2;
    assert q == 2 * r || q == 2 * r + 1;
    MulMono(2 * r, q, d);
    MulMono(q + 1, 2 * r + 2, d);
  }

  /** Half-size of the local-mean window along an axis of n pixels split in
      npart parts: half of n / npart when the axis is longer than 2 * npart,
      else half of 2. The window then spans about 1 / npart of the axis and
      never less than one pixel on each side. */
  function Radius(n: nat, npart: int): (r: nat)
    requires npart > 0
    ensures r >= 1
    ensures n <= npart + npart ==> r == 1
    ensures n > npart + npart ==> 2 * r * npart <= n < (2 * r + 2) * npart
  {
    if n > npart + npart then HalvedQuotient(n, npart); (n / npart) / 2 else 2 / 2
  }

  /** Lower edge of a window of half-size r around c: c - r, stopped at 0. */
  function ClampLo(c: nat, r: nat): (lo: nat)
    ensures lo <= c && c - lo <= r
    ensures lo > 0 ==> c - lo == r
  {
    if c < r then 0 else c - r
  }

  /** Upper edge of a window of half-size r around c on an axis of n pixels:
      c + r, stopped at the last pixel n - 1. */
  function ClampHi(c: nat, r: nat, n: nat): (hi: nat)
    requires c < n
    ensures c <= hi < n && hi - c <= r
    ensures hi < n - 1 ==> hi - c == r
  {
    if c + r < n then c + r else n - 1
  }

  /** The window of half-sizes rx, ry around pixel (x, y), clamped to the
      image: it contains the pixel and stays inside the image. */
  function ClampWindow(w: nat, h: nat, rx: nat, ry: nat, x: nat, y: nat): (win: Window)
    requires x < w && y < h
    ensures win.Inside(w, h)
    ensures win.x1 <= x <= win.x2 && win.y1 <= y <= win.y2
  {
    Window(ClampLo(x, rx), ClampLo(y, ry), ClampHi(x, rx, w), ClampHi(y, ry, h))
  }

  /** The local-mean window of pixel (x, y) (corners x1..x2, y1..y2). */
  function MeanWindow(w: nat, h: nat, npart: int, x: nat, y: nat): Window
    requires npart > 0 && x < w && y < h
  {
    ClampWindow(w, h, Radius(w, npart), Radius(h, npart), x, y)
  }

  /** The edge-enhancement window of pixel (x, y), of half-size wed on both
      axes (corners x1w..x2w, y1w..y2w). */
  function EdgeWindow(w: nat, h: nat, wed: nat, x: nat, y: nat): Window
    requires x < w && y < h
  {
    ClampWindow(w, h, wed, wed, x, y)
  }

  /** The local-mean window of the pixel at address k. */
  function MeanWindowAt(w: nat, h: nat, npart: int, k: nat): (win: Window)
    requires npart > 0 && k < w * h
    ensures win.Inside(w, h)
  {
    CellOf(w, h, k);
    MeanWindow(w, h, npart, k % w, k / w)
  }

  /** The edge-enhancement window of the pixel at address k. */
  function EdgeWindowAt(w: nat, h: nat, wed: nat, k: nat): (win: Window)
    requires k < w * h
    ensures win.Inside(w, h)
  {
    CellOf(w, h, k);
    EdgeWindow(w, h, wed, k % w, k / w)
  }

  /** Along one axis a clamped window of half-size at least 1 is empty only
      on an axis of one pixel. */
  lemma ClampedWidthPositive(c: nat, r: nat, n: nat)
    requires c < n && r >= 1
    ensures ClampHi(c, r, n) - ClampLo(c, r) > 0 <==> n >= 2
  {
  }

  /** A clamped window with half-sizes at least 1 covers at least one cell
      exactly when the image is at least 2 by 2. */
  lemma ClampedAreaPositive(w: nat, h: nat, rx: nat, ry: nat, x: nat, y: nat)
    requires x < w && y < h && rx >= 1 && ry >= 1
    ensures ClampWindow(w, h, rx, ry, x, y).Area() > 0 <==> w >= 2 && h >= 2
  {
    var win := ClampWindow(w, h, rx, ry, x, y);
    ClampedWidthPositive(x, rx, w);
    ClampedWidthPositive(y, ry, h);
    var a, b := win.x2 - win.x1, win.y2 - win.y1;
    if a > 0 && b > 0 {
      MulMono(1, a, b);
    }
  }

  /** `count` at line 50 is never 0 on an image of at least 2 by 2, so the
      mean at line 57 never divides by 0. */
  lemma MeanAreaPositive(w: nat, h: nat, npart: int, x: nat, y: nat)
    requires npart > 0 && x < w && y < h
    ensures MeanWindow(w, h, npart, x, y).Area() > 0 <==> w >= 2 && h >= 2
  {
    ClampedAreaPositive(w, h, Radius(w, npart), Radius(h, npart), x, y);
  }

  /** `countw` at line 64 is never 0 on an image of at least 2 by 2 when
      wed >= 1 (the option parser raises wed to at least 2). */
  lemma EdgeAreaPositive(w: nat, h: nat, wed: nat, x: nat, y: nat)
    requires wed >= 1 && x < w && y < h
    ensures EdgeWindow(w, h, wed, x, y).Area() > 0 <==> w >= 2 && h >= 2
  {
    ClampedAreaPositive(w, h, wed, wed, x, y);
  }

  /** All four corner addresses of a window inside the image lie inside the
      w-by-h buffer. */
  lemma CornersInBounds(win: Window, w: nat, h: nat)
    requires win.Inside(w, h)
    ensures win.y1 * w + win.x1 < w * h && win.y1 * w + win.x2 < w * h
    ensures win.y2 * w + win.x1 < w * h && win.y2 * w + win.x2 < w * h
  {
    IndexInBounds(w, h, win.x1, win.y1);
    IndexInBounds(w, h, win.x2, win.y1);
    IndexInBounds(w, h, win.x1, win.y2);
    IndexInBounds(w, h, win.x2, win.y2);
  }
}

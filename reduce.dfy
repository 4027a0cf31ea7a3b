/** Grayscale reduction and summed-area-table construction: the single raster
    pass of `main` (src/aithreshold.c:175-206) that turns the decoded RGBA
    buffer into one intensity per pixel and, in the same pass, fills the
    summed-area table from the cells already written. */
module Reduce {
  import opened Image
  import opened Integral

  /** Components per pixel in the decoded buffer: the decoder is always asked
      for RGBA, whatever the file's own channel count. */
  const Stride: nat := 4

  /** Sum of the d components starting at offset ki. */
  function ChannelSum(img: seq<byte>, ki: nat, d: nat): (s: int)
    requires ki + d <= |img|
    ensures 0 <= s <= 255 * d
  {
    if d == 0 then 0 else ChannelSum(img, ki, d - 1) + img[ki + d - 1]
  }

  /** A quotient of a sum of c bytes by c is again a byte. */
  lemma QuotientOfSum(s: int, c: nat)
    requires 1 <= c && 0 <= s <= 255 * c
    ensures 0 <= s / c <= 255
    ensures (s / c) * c <= s < (s / c + 1) * c
  {
    var q, r := s / c, s % c;
    assert s == q * c + r;
    if q > 255 {
      MulMono(256, q, c);
      assert false;
    }
  }

  /** The intensity of pixel kd: the mean of its first `channels` components,
      rounded down (the source's truncating `s /= channels` on a non-negative
      sum). */
  function Gray(img: seq<byte>, kd: nat, channels: nat): (g: byte)
    requires 1 <= channels <= Stride && Stride * kd + Stride <= |img|
    ensures g * channels <= ChannelSum(img, Stride * kd, channels) < (g + 1) * channels
  {
    var s := ChannelSum(img, Stride * kd, channels);
    QuotientOfSum(s, channels);
    s / channels
  }

  /** The intensity buffer of an n-pixel RGBA image. */
  function GrayImage(img: seq<byte>, channels: nat, n: nat): (g: seq<byte>)
    requires 1 <= channels <= Stride && |img| == Stride * n
    ensures |g| == n
    ensures forall kd :: 0 <= kd < n ==>
      g[kd] * channels <= ChannelSum(img, Stride * kd, channels) < (g[kd] + 1) * channels
  {
    seq(n, kd requires 0 <= kd < n => Gray(img, kd, channels))
  }

  /** The channel loop of one pixel: sums its first `channels` components and
      divides by `channels`. */
  method MeanOfChannels(img: array<byte>, kd: nat, channels: nat) returns (g: byte)
    requires 1 <= channels <= Stride && Stride * kd + Stride <= img.Length
    ensures g == Gray(img[..], kd, channels)
  {
    var ki := Stride * kd;
    var s := 0;
    var d := 0;
    while d < channels
      invariant d <= channels && s == ChannelSum(img[..], ki, d)
    {
      s := s + img[ki + d];
      d := d + 1;
    }
    g := s / channels;
  }

  /** In raster order the table cells left of, above and diagonally before
      address kd = y * w + x have been written already, and adding the cell's
      own intensity to the first two and subtracting the third gives the
      table value at kd. */
  lemma TableCell(t: seq<int>, p: seq<byte>, w: nat, h: nat, x: nat, y: nat, kd: nat)
    requires |p| == w * h && |t| == w * h && x < w && y < h && kd == y * w + x && kd < w * h
    requires forall j :: 0 <= j < kd ==> t[j] == SumTo(p, w, h, j)
    ensures y > 0 ==> kd >= w + x
    ensures SumTo(p, w, h, kd)
         == p[kd]
          + (if x > 0 then t[kd - 1] else 0)
          + (if y > 0 then t[kd - w] else 0)
          - (if x > 0 && y > 0 then t[kd - w - 1] else 0)
  {
    IntegralStep(p, w, h, x, y, kd);
  }

  /** The body of the inner loop of `main` (lines 182-204) at pixel (x, y),
      address kd: the pixel's intensity goes to `data[kd]` and its table
      value, built from the three table cells written before it, to
      `dataint[kd]`. */
  method IntegrateCell(img: array<byte>, width: nat, height: nat, channels: nat,
                       data: array<byte>, dataint: array<nat>, x: nat, y: nat, kd: nat, ghost gray: seq<byte>)
    requires img.Length == Stride * (width * height)
    requires 1 <= channels <= Stride
    requires data.Length == width * height && dataint.Length == width * height
    requires img != data
    requires gray == GrayImage(img[..], channels, width * height)
    requires x < width && y < height && kd == y * width + x && kd < width * height
    requires forall j :: 0 <= j < kd ==> dataint[j] == SumTo(gray, width, height, j)
    modifies data, dataint
    ensures data[..] == old(data[..])[kd := gray[kd]]
    ensures dataint[..] == old(dataint[..])[kd := SumTo(gray, width, height, kd)]
  {
    TableCell(dataint[..], gray, width, height, x, y, kd);
    var s := MeanOfChannels(img, kd, channels);
    var sums := s;
    if x > 0 {
      sums := sums + dataint[kd - 1];
    }
    if y > 0 {
      sums := sums + dataint[kd - width];
    }
    if x > 0 && y > 0 {
      sums := sums - dataint[kd - width - 1];
    }
    data[kd] := s;
    dataint[kd] := sums;
  }

  /** One pass of the outer loop of `main` (lines 180-205): row y, whose
      first pixel has address k0, gets its intensities and table cells; the
      cells before the row are already final and are only read. */
  method ReduceRow(img: array<byte>, width: nat, height: nat, channels: nat,
                   data: array<byte>, dataint: array<nat>, y: nat, k0: nat, ghost gray: seq<byte>)
    requires img.Length == Stride * (width * height)
    requires 1 <= channels <= Stride
    requires data.Length == width * height && dataint.Length == width * height
    requires img != data
    requires gray == GrayImage(img[..], channels, width * height)
    requires y < height && k0 == y * width && k0 + width <= width * height
    requires forall j :: 0 <= j < k0 ==> data[j] == gray[j]
    requires forall j :: 0 <= j < k0 ==> dataint[j] == SumTo(gray, width, height, j)
    modifies data, dataint
    ensures forall j :: 0 <= j < k0 + width ==> data[j] == gray[j]
    ensures forall j :: 0 <= j < k0 + width ==> dataint[j] == SumTo(gray, width, height, j)
    ensures forall j :: k0 + width <= j < width * height ==> data[j] == old(data[j]) && dataint[j] == old(dataint[j])
  {
    var kd := k0;
    var x: nat := 0;
    while x < width
      invariant x <= width && kd == k0 + x
      invariant img[..] == old(img[..])
      invariant forall j :: 0 <= j < kd ==> data[j] == gray[j]
      invariant forall j :: 0 <= j < kd ==> dataint[j] == SumTo(gray, width, height, j)
      invariant forall j :: kd <= j < width * height ==> data[j] == old(data[j]) && dataint[j] == old(dataint[j])
    {
      IntegrateCell(img, width, height, channels, data, dataint, x, y, kd, gray);
      kd := kd + 1;
      x := x + 1;
    }
  }

  /** The fused loop of `main`: `data` receives the intensity of every pixel
      and `dataint` the summed-area table of those intensities, each table
      cell computed from the three table cells already written. */
  method ReduceAndIntegrate(img: array<byte>, width: nat, height: nat, channels: nat,
                            data: array<byte>, dataint: array<nat>)
    requires img.Length == Stride * (width * height)
    requires 1 <= channels <= Stride
    requires data.Length == width * height && dataint.Length == width * height
    requires img != data
    modifies data, dataint
    ensures data[..] == GrayImage(img[..], channels, width * height)
    ensures IsIntegral(dataint[..], data[..], width, height)
  {
    ghost var gray := GrayImage(img[..], channels, width * height);
    var kd: nat := 0;
    var y: nat := 0;
    while y < height
      invariant y <= height && kd == y * width && kd <= width * height
      invariant forall j :: 0 <= j < kd ==> data[j] == gray[j]
      invariant forall j :: 0 <= j < kd ==> dataint[j] == SumTo(gray, width, height, j)
    {
      NextRow(width, height, y);
      ReduceRow(img, width, height, channels, data, dataint, y, kd, gray);
      kd := kd + width;
      y := y + 1;
    }
    LastRow(width, height, y, kd);
    assert data[..] == gray;
    assert forall j :: 0 <= j < width * height ==> dataint[..][j] == SumTo(data[..], width, height, j);
  }
}

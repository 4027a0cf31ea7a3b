/** The processing part of `main` (src/aithreshold.c:165-215) without the
    decoder, the encoder and the log lines: allocate the intensity buffer and
    the table, fill both in one raster pass, then threshold in place. */
module Pipeline {
  import opened Image
  import opened Integral
  import opened Reduce
  import opened Threshold

  /** Binarises a decoded RGBA image. Every output pixel is 0 or 255 and is
      the decision for that pixel taken on the grayscale intensities, with
      every window sum taken directly over those intensities: the table and
      the in-place overwrite leave no trace in the result. */
  method Binarise(img: array<byte>, width: nat, height: nat, channels: nat, prm: Params)
    returns (data: array<byte>)
    requires img.Length == Stride * (width * height)
    requires 1 <= channels <= Stride && prm.npart > 0
    ensures data.Length == width * height
    ensures forall k :: 0 <= k < data.Length ==>
              data[k] == ReferencePixel(GrayImage(img[..], channels, width * height), width, height, prm, k)
    ensures forall k :: 0 <= k < data.Length ==> data[k] == 0 || data[k] == 255
  {
    data := new byte[width * height];
    var dataint := new nat[width * height];
    ReduceAndIntegrate(img, width, height, channels, data, dataint);
    ghost var gray := data[..];
    AiThreshold(data, dataint, height, width, prm);
    forall k | 0 <= k < data.Length
      ensures data[k] == ReferencePixel(gray, width, height, prm, k)
    {
      PixelMatchesReference(gray, dataint[..], width, height, prm, k);
      assert data[k] == ThresholdPixel(gray, dataint[..], width, height, prm, k);
    }
  }
}

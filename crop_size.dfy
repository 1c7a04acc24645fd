/**
 * The file size `crop` records in its header counts 3 * width * height
 * pixel bytes, without the padding `write_bmp` puts after each row, so
 * `read_data` turns away the written file whenever rows need padding.
 * This module states that for the header as written, and gives the
 * padded size that makes a written crop read back.
 */
module CropSize {
  import opened Bytes
  import opened Wrappers
  import opened Grid
  import opened Types
  import opened Bmp
  import BmpRoundTrip
  import Transformations

  /**
   * As written: a region `crop` returns, once written by `write_bmp`,
   * passes the length check of `read_data` exactly when its rows carry
   * no padding, i.e. when 3 * width is a multiple of 4.
   */
  lemma CropSizeAcceptedIff(g: seq<Pixel>, width: u32, height: u32)
    requires width >= 1 && height >= 1 && WidthFits(width) && |g| == width * height
    requires OFFSET as nat + 3 * (width * height) < U32
    ensures var hd := FreshHeader(Wrap32(OFFSET as nat + 3 * (width * height)), width, height);
      LengthOk(EncodeBmp(hd, g), hd.size) <==> Padding(width) == 0
  {
    var n := width * height;
    var hd := FreshHeader(Wrap32(OFFSET as nat + 3 * n), width, height);
    assert hd.size == OFFSET as nat + 3 * n;
    assert Wrap32(hd.size - OFFSET) == 3 * n;
    var p := Padding(width);
    var hp := height * p;
    PaddedRows(width, height, p);
    MulLe(1, height, p);
    assert height * Stride(width) == 3 * n + hp;
    assert hp == 0 <==> p == 0;
    assert Wrap32(hd.size - OFFSET) == height * Stride(width) <==> p == 0;
    BmpRoundTrip.WrittenLengthAccepted(hd, g);
  }

  lemma PaddedRows(width: nat, height: nat, p: nat)
    ensures height * (3 * width + p) == 3 * (width * height) + height * p
  {
  }

  /** The smallest region, one pixel, is written with a 4-byte row but recorded as 3 bytes of data. */
  lemma OnePixelCropRejected(g: seq<Pixel>)
    requires |g| == 1
    ensures FreshHeader(Wrap32(OFFSET as nat + 3 * (1 * 1)), 1, 1).size == 57
    ensures !LengthOk(EncodeBmp(FreshHeader(57, 1, 1), g), 57)
  {
    PaddingExamples();
    CropSizeAcceptedIff(g, 1, 1);
  }

  /** The header a width x height region needs: the file size counting padded rows. */
  function PaddedCropHeader(width: u32, height: u32): (h: Header)
    requires WidthFits(width) && HEADER_BYTES + height * Stride(width) < U32
    ensures Canonical(h) && h.width == width && h.height == height
    ensures h.size - OFFSET == height * Stride(width)
  {
    FreshHeader(HEADER_BYTES + height * Stride(width), width, height)
  }

  /**
   * `crop` with the padded file size in its header: the same region, and
   * the file `write_bmp` emits for it passes `read_data`'s length check and
   * decodes back to the region, whatever its width.
   */
  method CropPadded(image: Image, startY: u32, startX: u32, height: u32, width: u32) returns (r: Option<Image>)
    requires Valid(image) && image.header.width * image.header.height < U32
    requires startY + height < U32 && startX + width < U32
    requires WidthFits(width) && HEADER_BYTES + height * Stride(width) < U32
    ensures r.Some? <==> Transformations.CropInBounds(image.header.width, image.header.height, startY, startX, height, width)
    ensures r.Some? ==> fresh(r.value.data) && Valid(r.value)
    ensures r.Some? ==> r.value.header == PaddedCropHeader(width, height)
    ensures r.Some? ==> r.value.data[..] == Transformations.Cropped(image.data[..], image.header.width, image.header.height,
                                                                     startY, startX, height, width)
    ensures r.Some? ==> LengthOk(EncodeBmp(r.value.header, r.value.data[..]), r.value.header.size)
    ensures r.Some? ==> DecodePixels(EncodeBmp(r.value.header, r.value.data[..]), width, height, Padding(width)) == r.value.data[..]
  {
    r := Transformations.Crop(image, startY, startX, height, width);
    if r.Some? {
      var data := r.value.data;
      PaddedCropReadsBack(image.header.width, image.header.height, width, height, data[..]);
      r := Some(Image(PaddedCropHeader(width, height), data));
    }
  }

  /** A region of any width written under the padded header passes the length check and decodes back. */
  lemma PaddedCropReadsBack(W: nat, H: nat, width: u32, height: u32, g: seq<Pixel>)
    requires W * H < U32 && width <= W && height <= H && |g| == width * height
    requires WidthFits(width) && HEADER_BYTES + height * Stride(width) < U32
    ensures LengthOk(EncodeBmp(PaddedCropHeader(width, height), g), PaddedCropHeader(width, height).size)
    ensures DecodePixels(EncodeBmp(PaddedCropHeader(width, height), g), width, height, Padding(width)) == g
  {
    MulLe(width, W, height);
    MulLe(height, H, W);
    BmpRoundTrip.BmpRoundTrip(PaddedCropHeader(width, height), g);
  }
}

/**
 * The BMP codec of bmp.c: header parsing, padded pixel-row decoding and
 * encoding. A FILE* being read is its byte contents (None for NULL) with a
 * cursor kept by each method; a FILE* being written is the bytes it
 * already holds, to which the writer appends.
 */
module Bmp {
  import opened Wrappers
  import opened Bytes
  import opened Grid
  import opened Types

  /** The bytes written as row padding, taken from the padding string. */
  const PADDING_CHAR: seq<byte> := [0, 0, 0]

  /** The widths for which the padding formula does not overflow 32 bits. */
  predicate WidthFits(W: nat)
  {
    W * 24 + 31 < U32
  }

  /** The headers whose pixel count `width * height` fits the 32-bit product. */
  predicate Fits(h: Header)
  {
    WidthFits(h.width) && h.width * h.height < U32
  }

  /** Pad bytes after each row: the row of 3W bytes rounded up to a multiple of 4. */
  function Padding(W: nat): (p: nat)
    requires WidthFits(W)
    ensures p <= 3
    ensures (3 * W + p) % 4 == 0
  {
    PaddingBounds(W);
    ((W * 24 + 31) / 32) * 4 - W * 3
  }

  /** The row length rounded up to whole 32-bit words, in bytes, lies within 3 of 3W. */
  lemma PaddingBounds(W: nat)
    ensures 3 * W <= ((W * 24 + 31) / 32) * 4 <= 3 * W + 3
    ensures (((W * 24 + 31) / 32) * 4) % 4 == 0
  {
    var n := W * 24 + 31;
    var q, r := n / 32, n % 32;
    assert 0 <= r < 32 && n == 32 * q + r;
    var d := 4 * q - 3 * W;
    assert 8 * d == 31 - r;
    assert 0 <= d <= 3;
    assert q * 4 == 3 * W + d;
  }

  /** Bytes per encoded row, padding included. */
  function Stride(W: nat): (s: nat)
    requires WidthFits(W)
    ensures 3 * W <= s <= 3 * W + 3
    ensures s % 4 == 0
  {
    3 * W + Padding(W)
  }

  lemma PaddingExamples()
    ensures Padding(1) == 1 && Stride(1) == 4
    ensures Padding(2) == 2 && Stride(2) == 8
    ensures Padding(4) == 0 && Stride(4) == 12
  {
  }

  /** Padding is the least pad that aligns a row: no smaller count makes 3W + p a multiple of 4. */
  lemma PaddingIsLeast(W: nat, q: nat)
    requires WidthFits(W)
    requires (3 * W + q) % 4 == 0
    ensures Padding(W) <= q
  {
  }

  lemma LE2(bs: seq<byte>)
    requires |bs| == 2
    ensures LE(bs) == bs[0] as int + 256 * bs[1] as int
  {
    assert bs[1..][1..] == [];
    assert LE(bs[1..]) == bs[1] as int + 256 * LE(bs[1..][1..]);
  }

  /** The 4-byte header field at offset o, as the header reader fills it. */
  function Field32(s: seq<byte>, o: nat): (v: u32)
    ensures o + 4 <= |s| ==> v == LE(s[o..o + 4])
    ensures o >= |s| ==> v == 0
  {
    assert Pow256(4) == U32;
    FieldAt(s, o, 4)
  }

  /**
   * The header `read_bmp_header` returns for a stream holding s: None
   * unless the first two bytes read as the "BM" signature; otherwise the
   * file size, dimensions and resolutions from their offsets and every
   * other field recomputed.
   */
  function ParseHeader(s: seq<byte>): (r: Option<Header>)
    ensures r.Some? <==> |s| >= 2 && s[0] == 0x42 && s[1] == 0x4D
    ensures r.Some? ==> Canonical(r.value.(xPpm := 0, yPpm := 0))
  {
    if |s| < 2 then None
    else if (LE2(s[..2]); LE(s[..2]) != TYPE as nat) then None
    else
      var size := Field32(s, 2);
      Some(Header(TYPE, size, 0, 0, OFFSET, DIB_SIZE, Field32(s, 18), Field32(s, 22),
                  PLANES, BPP, 0, Wrap32(size - OFFSET), Field32(s, 38), Field32(s, 42), 0, 0))
  }

  /** bmp.c `read_bmp_header`, seeking and reading through a cursor. */
  method ReadBmpHeader(stream: Option<seq<byte>>) returns (r: Option<Header>)
    ensures r == if stream.None? then None else ParseHeader(stream.value)
  {
    if stream.None? {
      return None;
    }
    var s := stream.value;
    var pos := 0;
    var got := Fread(s, pos, 2);
    pos := pos + |got|;
    if |got| < 2 {
      return None;
    }
    var fileType := LE(got);
    if fileType != TYPE as nat {
      return None;
    }
    assert got == s[..2];
    var size := Field32(s, pos);
    pos := pos + |Fread(s, pos, 4)|;
    pos := 18;
    var width := Field32(s, pos);
    pos := pos + |Fread(s, pos, 4)|;
    assert pos == 22 || |s| <= pos < 22;
    var height := Field32(s, pos);
    pos := pos + |Fread(s, pos, 4)|;
    pos := 38;
    var xPpm := Field32(s, pos);
    pos := pos + |Fread(s, pos, 4)|;
    assert pos == 42 || |s| <= pos < 42;
    var yPpm := Field32(s, pos);
    pos := pos + |Fread(s, pos, 4)|;
    r := Some(Header(TYPE, size, 0, 0, OFFSET, DIB_SIZE, width, height,
                     PLANES, BPP, 0, Wrap32(size - OFFSET), xPpm, yPpm, 0, 0));
  }

  /** The pixel whose blue, green and red bytes start at offset o (0 past the end). */
  function PixelAt(s: seq<byte>, o: nat): (p: Pixel)
    ensures o >= |s| ==> p == BLACK
  {
    Pixel(ByteAt(s, o), ByteAt(s, o + 1), ByteAt(s, o + 2))
  }

  /** Where the bytes of pixel (h, w) start when rows of W pixels carry pad bytes each. */
  function Offset(W: nat, pad: nat, h: nat, w: nat): nat
  {
    HEADER_BYTES + RowPos(W, pad, h, w)
  }

  /** Where pixel (h, w) starts within the pixel data. */
  function RowPos(W: nat, pad: nat, h: nat, w: nat): nat
  {
    h * (3 * W + pad) + 3 * w
  }

  /**
   * The grid `read_data` fills when rows carry pad padding bytes: pixel
   * (h, w) from the triple at Offset(W, pad, h, w), the first stream row
   * being row 0. `read_data` uses pad == Padding(W).
   */
  function DecodePixels(s: seq<byte>, W: nat, H: nat, pad: nat): (g: seq<Pixel>)
    ensures |g| == W * H
    ensures forall h, w | 0 <= h < H && 0 <= w < W :: g[Idx(W, H, h, w)] == PixelAt(s, Offset(W, pad, h, w))
  {
    seq(W * H, i requires 0 <= i < W * H => IdxCover(W, H, i); PixelAt(s, Offset(W, pad, i / W, i % W)))
  }

  /**
   * The length check of `read_data`: the bytes from offset 54 to the end
   * (a size_t difference) against the header size minus 54 (a uint32_t one).
   */
  function LengthOk(s: seq<byte>, size: u32): (ok: bool)
    ensures |s| < U64 ==> (ok <==> |s| >= 54 && |s| - 54 == Wrap32(size - 54))
  {
    Wrap64(|s| - 54) == Wrap32(size - 54)
  }

  /** A stream shorter than the 54 header bytes never passes the length check. */
  lemma ShortStreamRejected(s: seq<byte>, size: u32)
    requires |s| < 54
    ensures !LengthOk(s, size)
  {
  }

  /** Crossing the padding at the end of row h lands on the first pixel of row h + 1. */
  lemma NextRow(W: nat, pad: nat, h: nat)
    ensures Offset(W, pad, h, W) + pad == Offset(W, pad, h + 1, 0)
  {
    assert (h + 1) * (3 * W + pad) == h * (3 * W + pad) + (3 * W + pad);
  }

  /**
   * The three one-byte reads of `read_data` into a zeroed pixel slot whose
   * bytes start at offset o. A read at or past the end copies nothing and
   * leaves the cursor where it is, so the cursor is either exactly at o or
   * already at or past the end.
   */
  method FreadPixel(s: seq<byte>, pos: nat, ghost o: nat) returns (p: Pixel, next: nat)
    requires pos == o || |s| <= pos <= o
    ensures p == PixelAt(s, o)
    ensures next == o + 3 || |s| <= next <= o + 3
  {
    p := BLACK;
    next := pos;
    var got := Fread(s, next, 1);
    next := next + |got|;
    if |got| == 1 {
      p := p.(blue := got[0]);
    }
    got := Fread(s, next, 1);
    next := next + |got|;
    if |got| == 1 {
      p := p.(green := got[0]);
    }
    got := Fread(s, next, 1);
    next := next + |got|;
    if |got| == 1 {
      p := p.(red := got[0]);
    }
  }

  /** The inner loop of `read_data`: the W pixels of row h, read into a zeroed buffer. */
  method ReadRow(s: seq<byte>, pos: nat, pxarr: array<Pixel>, W: nat, H: nat, pad: nat, h: nat) returns (next: nat)
    requires h < H && pxarr.Length == W * H
    requires pos == Offset(W, pad, h, 0) || |s| <= pos <= Offset(W, pad, h, 0)
    modifies pxarr
    ensures next == Offset(W, pad, h, W) || |s| <= next <= Offset(W, pad, h, W)
    ensures forall hh, ww | 0 <= hh < H && 0 <= ww < W && hh != h :: pxarr[Idx(W, H, hh, ww)] == old(pxarr[Idx(W, H, hh, ww)])
    ensures forall ww | 0 <= ww < W :: pxarr[Idx(W, H, h, ww)] == PixelAt(s, Offset(W, pad, h, ww))
  {
    next := pos;
    var w := 0;
    while w < W
      invariant w <= W
      invariant next == Offset(W, pad, h, w) || |s| <= next <= Offset(W, pad, h, w)
      invariant forall hh, ww | 0 <= hh < H && 0 <= ww < W && hh != h :: pxarr[Idx(W, H, hh, ww)] == old(pxarr[Idx(W, H, hh, ww)])
      invariant forall ww | 0 <= ww < w :: pxarr[Idx(W, H, h, ww)] == PixelAt(s, Offset(W, pad, h, ww))
    {
      var index := Idx(W, H, h, w);
      pxarr[index], next := FreadPixel(s, next, Offset(W, pad, h, w));
      w := w + 1;
    }
  }

  /**
   * The row loop of `read_data`, from the cursor at offset 54: each row's
   * pixels, then a seek over its padding.
   */
  method ReadRows(s: seq<byte>, start: nat, pxarr: array<Pixel>, W: nat, H: nat)
    requires WidthFits(W) && pxarr.Length == W * H && start == HEADER_BYTES
    modifies pxarr
    ensures pxarr[..] == DecodePixels(s, W, H, Padding(W))
  {
    var padding := Padding(W);
    var pos := start;
    var h := 0;
    while h < H
      invariant h <= H
      invariant pos == Offset(W, padding, h, 0) || |s| <= pos <= Offset(W, padding, h, 0)
      invariant forall hh, ww | 0 <= hh < h && 0 <= ww < W :: pxarr[Idx(W, H, hh, ww)] == PixelAt(s, Offset(W, padding, hh, ww))
    {
      pos := ReadRow(s, pos, pxarr, W, H, padding, h);
      NextRow(W, padding, h);
      pos := pos + padding;
      h := h + 1;
    }
    GridExt(W, H, pxarr[..], DecodePixels(s, W, H, padding));
  }

  /** bmp.c `read_data`: length check, then rows of triples each followed by padding. */
  method ReadData(stream: Option<seq<byte>>, header: Option<Header>) returns (r: Option<array<Pixel>>)
    requires stream.Some? && header.Some? && LengthOk(stream.value, header.value.size) ==> Fits(header.value)
    ensures r.Some? <==> stream.Some? && header.Some? && LengthOk(stream.value, header.value.size)
    ensures r.Some? ==> fresh(r.value)
    ensures r.Some? ==> r.value[..] == DecodePixels(stream.value, header.value.width, header.value.height, Padding(header.value.width))
  {
    if header.None? {
      return None;
    }
    if stream.None? {
      return None;
    }
    var s, hd := stream.value, header.value;
    var dataEnd := |s|;
    var dataStart := 54;
    if Wrap64(dataEnd - dataStart) != Wrap32(hd.size - 54) {
      return None;
    }
    var W: nat, H: nat := hd.width, hd.height;
    var pxcount := Wrap32(W * H);
    var pxarr := new Pixel[pxcount](_ => BLACK);
    ReadRows(s, dataStart, pxarr, W, H);
    r := Some(pxarr);
  }

  /** bmp.c `read_bmp`: a header and its pixels, or None if either step fails. */
  method ReadBmp(stream: Option<seq<byte>>) returns (r: Option<Image>)
    requires stream.Some? && ParseHeader(stream.value).Some? && LengthOk(stream.value, ParseHeader(stream.value).value.size)
             ==> Fits(ParseHeader(stream.value).value)
    ensures r.Some? <==> stream.Some? && ParseHeader(stream.value).Some?
                         && LengthOk(stream.value, ParseHeader(stream.value).value.size)
    ensures r.Some? ==> r.value.header == ParseHeader(stream.value).value
    ensures r.Some? ==> fresh(r.value.data) && Valid(r.value)
    ensures r.Some? ==> r.value.data[..] == DecodePixels(stream.value, r.value.header.width, r.value.header.height, Padding(r.value.header.width))
  {
    var header := ReadBmpHeader(stream);
    if header.None? {
      return None;
    }
    var data := ReadData(stream, header);
    if data.None? {
      return None;
    }
    r := Some(Image(header.value, data.value));
  }

  /** The 54 bytes `write_bmp` emits for the sixteen header fields, in order. */
  function EncodeHeader(h: Header): (r: seq<byte>)
    ensures |r| == HEADER_BYTES
  {
    LEBytes(h.fileType, 2) + LEBytes(h.size, 4) + LEBytes(h.reserved1, 2) + LEBytes(h.reserved2, 2)
    + LEBytes(h.offset, 4) + LEBytes(h.dibSize, 4) + LEBytes(h.width, 4) + LEBytes(h.height, 4)
    + LEBytes(h.planes, 2) + LEBytes(h.bpp, 2) + LEBytes(h.compression, 4) + LEBytes(h.imageSize, 4)
    + LEBytes(h.xPpm, 4) + LEBytes(h.yPpm, 4) + LEBytes(h.numColors, 4) + LEBytes(h.importantColors, 4)
  }

  function PixelBytes(p: Pixel): (r: seq<byte>)
    ensures |r| == 3 && PixelAt(r, 0) == p
  {
    [p.blue, p.green, p.red]
  }

  /** The bytes of the first w pixels of row h. */
  function RowBytes(g: seq<Pixel>, W: nat, H: nat, h: nat, w: nat): (r: seq<byte>)
    requires |g| == W * H && h < H && w <= W
    ensures |r| == 3 * w
  {
    if w == 0 then [] else RowBytes(g, W, H, h, w - 1) + PixelBytes(g[Idx(W, H, h, w - 1)])
  }

  /** The bytes of the first h rows, each followed by pad padding bytes. */
  function Rows(g: seq<Pixel>, W: nat, H: nat, pad: nat, h: nat): (r: seq<byte>)
    requires |g| == W * H && h <= H && pad <= |PADDING_CHAR|
    ensures |r| == h * (3 * W + pad)
  {
    if h == 0 then []
    else Rows(g, W, H, pad, h - 1) + RowBytes(g, W, H, h - 1, W) + PADDING_CHAR[..pad]
  }

  /** The whole file `write_bmp` emits for a header and a grid. */
  function EncodeBmp(hd: Header, g: seq<Pixel>): (r: seq<byte>)
    requires WidthFits(hd.width) && |g| == hd.width * hd.height
    ensures |r| == HEADER_BYTES + hd.height * Stride(hd.width)
  {
    EncodeHeader(hd) + Rows(g, hd.width, hd.height, Padding(hd.width), hd.height)
  }

  /** The sixteen header `fwrite`s of `write_bmp`, each appending one field. */
  method WriteHeader(prior: seq<byte>, hd: Header) returns (out: seq<byte>)
    ensures out == prior + EncodeHeader(hd)
  {
    out := prior;
    out := out + LEBytes(hd.fileType, 2);
    out := out + LEBytes(hd.size, 4);
    out := out + LEBytes(hd.reserved1, 2);
    out := out + LEBytes(hd.reserved2, 2);
    out := out + LEBytes(hd.offset, 4);
    out := out + LEBytes(hd.dibSize, 4);
    out := out + LEBytes(hd.width, 4);
    out := out + LEBytes(hd.height, 4);
    out := out + LEBytes(hd.planes, 2);
    out := out + LEBytes(hd.bpp, 2);
    out := out + LEBytes(hd.compression, 4);
    out := out + LEBytes(hd.imageSize, 4);
    out := out + LEBytes(hd.xPpm, 4);
    out := out + LEBytes(hd.yPpm, 4);
    out := out + LEBytes(hd.numColors, 4);
    out := out + LEBytes(hd.importantColors, 4);
  }

  /** One row of `write_bmp`'s inner loop: the blue, green and red byte of each pixel. */
  method WriteRow(prior: seq<byte>, data: array<Pixel>, W: nat, H: nat, h: nat) returns (out: seq<byte>)
    requires h < H && W * H <= data.Length
    ensures out == prior + RowBytes(data[..W * H], W, H, h, W)
  {
    ghost var g := data[..W * H];
    out := prior;
    var w := 0;
    while w < W
      invariant w <= W
      invariant out == prior + RowBytes(g, W, H, h, w)
    {
      var index := Idx(W, H, h, w);
      assert data[index] == g[index];
      ghost var before := out;
      out := out + [data[index].blue];
      out := out + [data[index].green];
      out := out + [data[index].red];
      assert out == before + PixelBytes(g[index]);
      w := w + 1;
    }
  }

  /**
   * The row loop of `write_bmp`: for each row, the blue, green and red
   * byte of each pixel, then the row's padding bytes.
   */
  method WriteRows(prior: seq<byte>, data: array<Pixel>, W: nat, H: nat) returns (out: seq<byte>)
    requires WidthFits(W) && W * H <= data.Length
    ensures out == prior + Rows(data[..W * H], W, H, Padding(W), H)
  {
    ghost var g := data[..W * H];
    var padding := Padding(W);
    out := prior;
    var h := 0;
    while h < H
      invariant h <= H
      invariant out == prior + Rows(g, W, H, padding, h)
    {
      ghost var before := out;
      out := WriteRow(out, data, W, H, h);
      out := out + PADDING_CHAR[..padding];
      AppendRow(prior, before, out, g, W, H, padding, h);
      h := h + 1;
    }
  }

  /** Appending row h and its padding after the first h rows gives the first h + 1 rows. */
  lemma AppendRow(prior: seq<byte>, before: seq<byte>, after: seq<byte>, g: seq<Pixel>, W: nat, H: nat, pad: nat, h: nat)
    requires |g| == W * H && h < H && pad <= |PADDING_CHAR|
    requires before == prior + Rows(g, W, H, pad, h)
    requires after == before + RowBytes(g, W, H, h, W) + PADDING_CHAR[..pad]
    ensures after == prior + Rows(g, W, H, pad, h + 1)
  {
  }

  /** bmp.c `write_bmp`: the header fields, then each row's triples and its padding. */
  method WriteBmp(stream: Option<seq<byte>>, image: Option<Image>) returns (ok: bool, out: seq<byte>)
    requires image.Some? ==> WidthFits(image.value.header.width)
    requires image.Some? ==> image.value.header.width * image.value.header.height <= image.value.data.Length
    ensures ok <==> stream.Some? && image.Some?
    ensures stream.None? ==> out == []
    ensures stream.Some? && !ok ==> out == stream.value
    ensures ok ==> out == stream.value + EncodeBmp(image.value.header,
                     image.value.data[..image.value.header.width * image.value.header.height])
  {
    if stream.None? || image.None? {
      ok := false;
      out := if stream.Some? then stream.value else [];
      return;
    }
    var hd, data := image.value.header, image.value.data;
    out := WriteHeader(stream.value, hd);
    out := WriteRows(out, data, hd.width, hd.height);
    ok := true;
  }
}

/** What writing and reading back with bmp.c preserves. */
module BmpRoundTrip {
  import opened Wrappers
  import opened Bytes
  import opened Grid
  import opened Types
  import opened Bmp

  /**
   * Reading back the header `write_bmp` emits: it is accepted exactly when
   * its type is the signature, and then size, dimensions and resolutions
   * come back while the other fields are recomputed.
   */
  lemma HeaderRoundTrip(h: Header, rest: seq<byte>)
    ensures ParseHeader(EncodeHeader(h) + rest) ==
      if h.fileType != TYPE then None
      else Some(h.(reserved1 := 0, reserved2 := 0, offset := OFFSET, dibSize := DIB_SIZE,
                   planes := PLANES, bpp := BPP, compression := 0,
                   imageSize := Wrap32(h.size - OFFSET), numColors := 0, importantColors := 0))
  {
    var s := EncodeHeader(h) + rest;
    TypeRecovered(h, rest);
    assert Field32(s, 2) == h.size by { SizeRecovered(h, rest); }
    assert Field32(s, 18) == h.width && Field32(s, 22) == h.height by { DimensionsRecovered(h, rest); }
    assert Field32(s, 38) == h.xPpm && Field32(s, 42) == h.yPpm by { ResolutionRecovered(h, rest); }
  }

  lemma Field32Of(s: seq<byte>, o: nat, v: u32)
    requires o + 4 <= |s| && s[o..o + 4] == LEBytes(v, 4)
    ensures Field32(s, o) == v
  {
    assert Pow256(4) == U32;
    LERoundTrip(v, 4);
  }

  lemma TypeRecovered(h: Header, rest: seq<byte>)
    ensures |EncodeHeader(h) + rest| >= 2
    ensures LE((EncodeHeader(h) + rest)[..2]) == h.fileType
  {
    var s := EncodeHeader(h) + rest;
    assert s[..2] == LEBytes(h.fileType, 2);
    assert Pow256(2) == 0x1_0000;
    LERoundTrip(h.fileType, 2);
  }

  lemma SizeRecovered(h: Header, rest: seq<byte>)
    ensures Field32(EncodeHeader(h) + rest, 2) == h.size
  {
    var s := EncodeHeader(h) + rest;
    assert s[2..6] == LEBytes(h.size, 4);
    Field32Of(s, 2, h.size);
  }

  lemma DimensionsRecovered(h: Header, rest: seq<byte>)
    ensures Field32(EncodeHeader(h) + rest, 18) == h.width
    ensures Field32(EncodeHeader(h) + rest, 22) == h.height
  {
    WidthRecovered(h, rest);
    HeightRecovered(h, rest);
  }

  lemma WidthRecovered(h: Header, rest: seq<byte>)
    ensures Field32(EncodeHeader(h) + rest, 18) == h.width
  {
    var s := EncodeHeader(h) + rest;
    assert s[18..22] == LEBytes(h.width, 4);
    Field32Of(s, 18, h.width);
  }

  lemma HeightRecovered(h: Header, rest: seq<byte>)
    ensures Field32(EncodeHeader(h) + rest, 22) == h.height
  {
    var s := EncodeHeader(h) + rest;
    assert s[22..26] == LEBytes(h.height, 4);
    Field32Of(s, 22, h.height);
  }

  lemma ResolutionRecovered(h: Header, rest: seq<byte>)
    ensures Field32(EncodeHeader(h) + rest, 38) == h.xPpm
    ensures Field32(EncodeHeader(h) + rest, 42) == h.yPpm
  {
    XResolutionRecovered(h, rest);
    YResolutionRecovered(h, rest);
  }

  lemma XResolutionRecovered(h: Header, rest: seq<byte>)
    ensures Field32(EncodeHeader(h) + rest, 38) == h.xPpm
  {
    var s := EncodeHeader(h) + rest;
    assert s[38..42] == LEBytes(h.xPpm, 4);
    Field32Of(s, 38, h.xPpm);
  }

  lemma YResolutionRecovered(h: Header, rest: seq<byte>)
    ensures Field32(EncodeHeader(h) + rest, 42) == h.yPpm
  {
    var s := EncodeHeader(h) + rest;
    assert s[42..46] == LEBytes(h.yPpm, 4);
    Field32Of(s, 42, h.yPpm);
  }

  lemma {:induction false} RowBytesAt(g: seq<Pixel>, W: nat, H: nat, h: nat, w: nat, ww: nat, k: nat)
    requires |g| == W * H && h < H && w <= W && ww < w && k < 3
    ensures RowBytes(g, W, H, h, w)[3 * ww + k] == PixelBytes(g[Idx(W, H, h, ww)])[k]
  {
    if ww < w - 1 {
      RowBytesAt(g, W, H, h, w - 1, ww, k);
    }
  }

  /** Byte k of pixel (hh, ww) sits at hh * (3W + pad) + 3 * ww + k of the encoded rows. */
  lemma {:induction false} RowsAt(g: seq<Pixel>, W: nat, H: nat, pad: nat, h: nat, hh: nat, ww: nat, k: nat)
    requires |g| == W * H && h <= H && pad <= |PADDING_CHAR| && hh < h && ww < W && k < 3
    ensures RowPos(W, pad, hh, ww) + k < |Rows(g, W, H, pad, h)|
    ensures Rows(g, W, H, pad, h)[RowPos(W, pad, hh, ww) + k] == PixelBytes(g[Idx(W, H, hh, ww)])[k]
  {
    var prev, row := Rows(g, W, H, pad, h - 1), RowBytes(g, W, H, h - 1, W);
    assert Rows(g, W, H, pad, h) == prev + row + PADDING_CHAR[..pad];
    if hh < h - 1 {
      RowsAt(g, W, H, pad, h - 1, hh, ww, k);
      ConcatFirst(prev, row, PADDING_CHAR[..pad], RowPos(W, pad, hh, ww) + k);
    } else {
      RowsAtLast(g, W, H, pad, h, ww, k);
    }
  }

  /** Byte k of pixel (h - 1, ww) sits in the last of the first h encoded rows. */
  lemma RowsAtLast(g: seq<Pixel>, W: nat, H: nat, pad: nat, h: nat, ww: nat, k: nat)
    requires |g| == W * H && 0 < h <= H && pad <= |PADDING_CHAR| && ww < W && k < 3
    ensures RowPos(W, pad, h - 1, ww) + k < |Rows(g, W, H, pad, h)|
    ensures Rows(g, W, H, pad, h)[RowPos(W, pad, h - 1, ww) + k] == PixelBytes(g[Idx(W, H, h - 1, ww)])[k]
  {
    var prev, row := Rows(g, W, H, pad, h - 1), RowBytes(g, W, H, h - 1, W);
    assert Rows(g, W, H, pad, h) == prev + row + PADDING_CHAR[..pad];
    RowBytesAt(g, W, H, h - 1, W, ww, k);
    assert RowPos(W, pad, h - 1, ww) + k == |prev| + (3 * ww + k);
    ConcatMiddle(prev, row, PADDING_CHAR[..pad], 3 * ww + k);
  }

  lemma ConcatFirst<T>(a: seq<T>, b: seq<T>, c: seq<T>, j: nat)
    requires j < |a|
    ensures (a + b + c)[j] == a[j]
  {
  }

  lemma ConcatMiddle<T>(a: seq<T>, b: seq<T>, c: seq<T>, j: nat)
    requires j < |b|
    ensures |a| + j < |a + b + c| && (a + b + c)[|a| + j] == b[j]
  {
  }

  /** After any 54-byte header, pixel (h, w) of the rows is read back from its offset. */
  lemma PixelRoundTrip(pre: seq<byte>, g: seq<Pixel>, W: nat, H: nat, pad: nat, h: nat, w: nat)
    requires |pre| == HEADER_BYTES && |g| == W * H && pad <= |PADDING_CHAR| && h < H && w < W
    ensures PixelAt(pre + Rows(g, W, H, pad, H), Offset(W, pad, h, w)) == g[Idx(W, H, h, w)]
  {
    var rows := Rows(g, W, H, pad, H);
    var j := RowPos(W, pad, h, w);
    RowsAt(g, W, H, pad, H, h, w, 0);
    RowsAt(g, W, H, pad, H, h, w, 1);
    RowsAt(g, W, H, pad, H, h, w, 2);
    PixelIn(pre, rows, j, g[Idx(W, H, h, w)]);
  }

  /** A pixel's three bytes at position j of the rows are read back after the header. */
  lemma PixelIn(pre: seq<byte>, rows: seq<byte>, j: nat, p: Pixel)
    requires j + 2 < |rows|
    requires rows[j] == PixelBytes(p)[0] && rows[j + 1] == PixelBytes(p)[1] && rows[j + 2] == PixelBytes(p)[2]
    ensures PixelAt(pre + rows, |pre| + j) == p
  {
  }

  /** Decoding the rows `write_bmp` emits gives back the grid it was given. */
  lemma PixelsRoundTrip(hd: Header, g: seq<Pixel>)
    requires WidthFits(hd.width) && |g| == hd.width * hd.height
    ensures DecodePixels(EncodeBmp(hd, g), hd.width, hd.height, Padding(hd.width)) == g
  {
    var W, H, s := hd.width as nat, hd.height as nat, EncodeBmp(hd, g);
    var d := DecodePixels(s, W, H, Padding(W));
    forall h, w | 0 <= h < H && 0 <= w < W
      ensures d[Idx(W, H, h, w)] == g[Idx(W, H, h, w)]
    {
      PixelRoundTrip(EncodeHeader(hd), g, W, H, Padding(W), h, w);
    }
    GridExt(W, H, d, g);
  }

  /**
   * The file `write_bmp` emits passes `read_data`'s length check exactly
   * when the header's size minus 54 is the padded pixel data length.
   */
  lemma WrittenLengthAccepted(hd: Header, g: seq<Pixel>)
    requires WidthFits(hd.width) && |g| == hd.width * hd.height
    ensures LengthOk(EncodeBmp(hd, g), hd.size) <==> Wrap32(hd.size - OFFSET) == hd.height * Stride(hd.width)
  {
    var S := Stride(hd.width);
    MulLe(S, U32, hd.height);
    MulLe(hd.height + 1, U32, U32);
  }

  /**
   * The whole round trip of bmp.c: a file written from a header with the
   * signature and the padded size is read back to the same dimensions and
   * the same grid.
   */
  lemma BmpRoundTrip(hd: Header, g: seq<Pixel>)
    requires Fits(hd) && |g| == hd.width * hd.height
    requires hd.fileType == TYPE && hd.size == HEADER_BYTES + hd.height * Stride(hd.width)
    ensures ParseHeader(EncodeBmp(hd, g)).Some?
    ensures var r := ParseHeader(EncodeBmp(hd, g)).value;
      r.size == hd.size && r.width == hd.width && r.height == hd.height && LengthOk(EncodeBmp(hd, g), r.size)
    ensures DecodePixels(EncodeBmp(hd, g), hd.width, hd.height, Padding(hd.width)) == g
  {
    HeaderRoundTrip(hd, Rows(g, hd.width, hd.height, Padding(hd.width), hd.height));
    WrittenLengthAccepted(hd, g);
    PixelsRoundTrip(hd, g);
  }

  /** `write_bmp` then `read_bmp` on the bytes written gives back the image's grid. */
  method WriteThenRead(img: Image) returns (back: Option<Image>)
    requires Fits(img.header) && Valid(img)
    requires img.header.fileType == TYPE
    requires img.header.size == HEADER_BYTES + img.header.height * Stride(img.header.width)
    ensures back.Some?
    ensures back.value.header.width == img.header.width && back.value.header.height == img.header.height
    ensures back.value.data[..] == img.data[..]
  {
    var hd, g := img.header, img.data[..];
    var ok, bytes := WriteBmp(Some([]), Some(img));
    assert img.data[..hd.width * hd.height] == g;
    assert bytes == EncodeBmp(hd, g);
    BmpRoundTrip(hd, g);
    ghost var parsed := ParseHeader(bytes).value;
    assert parsed.width == hd.width && parsed.height == hd.height;
    assert Fits(parsed);
    back := ReadBmp(Some(bytes));
  }
}

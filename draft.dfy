/**
 * The earlier codec kept in main.c: the same header layout, but no length
 * check, no row padding, and each pixel's bytes taken and written in the
 * order blue, red, green. Pixels form one run of `width * height` triples
 * from offset 54, the count being a 32-bit product.
 */
module Draft {
  import opened Wrappers
  import opened Bytes
  import opened Grid
  import opened Types
  import Bmp

  /**
   * The header main.c's `read_bmp_header` returns: the signature check,
   * the file size and dimensions from their offsets, the resolutions left
   * 0, the constant fields set.
   */
  function ParseHeader(s: seq<byte>): (r: Option<Header>)
    ensures r.Some? <==> |s| >= 2 && s[0] == 0x42 && s[1] == 0x4D
    ensures r.Some? ==> Canonical(r.value)
  {
    if |s| < 2 then None
    else if (Bmp.LE2(s[..2]); LE(s[..2]) != TYPE as nat) then None
    else
      var size := Bmp.Field32(s, 2);
      Some(FreshHeader(size, Bmp.Field32(s, 18), Bmp.Field32(s, 22)))
  }

  /** The draft reads the same header as bmp.c, except that it leaves both resolutions 0. */
  lemma ParseHeaderAgrees(s: seq<byte>)
    ensures ParseHeader(s).Some? <==> Bmp.ParseHeader(s).Some?
    ensures ParseHeader(s).Some? ==> ParseHeader(s).value == Bmp.ParseHeader(s).value.(xPpm := 0, yPpm := 0)
  {
  }

  /** main.c `read_bmp_header`, through a cursor. */
  method ReadBmpHeader(stream: Option<seq<byte>>) returns (r: Option<Header>)
    ensures r == if stream.None? then None else ParseHeader(stream.value)
  {
    if stream.None? {
      return None;
    }
    var s := stream.value;
    var pos := 0;
    var got := Fread(s, pos, 2);
    pos := pos + |got|;
    if |got| < 2 {
      return None;
    }
    if LE(got) != TYPE as nat {
      return None;
    }
    assert got == s[..2];
    var size := Bmp.Field32(s, pos);
    pos := pos + |Fread(s, pos, 4)|;
    pos := 18;
    var width := Bmp.Field32(s, pos);
    pos := pos + |Fread(s, pos, 4)|;
    assert pos == 22 || |s| <= pos < 22;
    var height := Bmp.Field32(s, pos);
    pos := pos + |Fread(s, pos, 4)|;
    r := Some(FreshHeader(size, width, height));
  }

  /** The pixel whose blue, red and green bytes, in that order, start at offset o (0 past the end). */
  function PixelAt(s: seq<byte>, o: nat): (p: Pixel)
    ensures o >= |s| ==> p == BLACK
  {
    Pixel(ByteAt(s, o), ByteAt(s, o + 2), ByteAt(s, o + 1))
  }

  /** The n pixels the draft's `read_data` takes: pixel i from the triple at 54 + 3i. */
  function DecodePixels(s: seq<byte>, n: nat): (g: seq<Pixel>)
    ensures |g| == n
    ensures forall i | 0 <= i < n :: g[i] == PixelAt(s, HEADER_BYTES + 3 * i)
  {
    seq(n, i requires 0 <= i < n => PixelAt(s, HEADER_BYTES + 3 * i))
  }

  /** The draft's pixel count: `width * height` in 32-bit unsigned arithmetic. */
  function PixelCount(h: Header): (n: u32)
    ensures h.width * h.height < U32 ==> n == h.width * h.height
  {
    Wrap32(h.width * h.height)
  }

  /** The three one-byte reads of the draft's `read_data` into a zeroed slot at offset o. */
  method FreadPixel(s: seq<byte>, pos: nat, ghost o: nat) returns (p: Pixel, next: nat)
    requires pos == o || |s| <= pos <= o
    ensures p == PixelAt(s, o)
    ensures next == o + 3 || |s| <= next <= o + 3
  {
    p := BLACK;
    next := pos;
    var got := Fread(s, next, 1);
    next := next + |got|;
    if |got| == 1 {
      p := p.(blue := got[0]);
    }
    got := Fread(s, next, 1);
    next := next + |got|;
    if |got| == 1 {
      p := p.(red := got[0]);
    }
    got := Fread(s, next, 1);
    next := next + |got|;
    if |got| == 1 {
      p := p.(green := got[0]);
    }
  }

  /** main.c `read_data`: fails only on a missing header or stream, then reads every triple. */
  method ReadData(stream: Option<seq<byte>>, header: Option<Header>) returns (r: Option<array<Pixel>>)
    ensures r.Some? <==> stream.Some? && header.Some?
    ensures r.Some? ==> fresh(r.value)
    ensures r.Some? ==> r.value[..] == DecodePixels(stream.value, PixelCount(header.value))
  {
    if header.None? {
      return None;
    }
    if stream.None? {
      return None;
    }
    var s := stream.value;
    var pxcount := PixelCount(header.value);
    var pxarr := new Pixel[pxcount](_ => BLACK);
    var pos := 54;
    var i := 0;
    while i < pxcount
      invariant i <= pxcount
      invariant pos == HEADER_BYTES + 3 * i || |s| <= pos <= HEADER_BYTES + 3 * i
      invariant forall j | 0 <= j < i :: pxarr[j] == PixelAt(s, HEADER_BYTES + 3 * j)
    {
      pxarr[i], pos := FreadPixel(s, pos, HEADER_BYTES + 3 * i);
      i := i + 1;
    }
    r := Some(pxarr);
  }

  /** main.c `read_bmp`. */
  method ReadBmp(stream: Option<seq<byte>>) returns (r: Option<Image>)
    ensures r.Some? <==> stream.Some? && ParseHeader(stream.value).Some?
    ensures r.Some? ==> r.value.header == ParseHeader(stream.value).value
    ensures r.Some? ==> fresh(r.value.data)
    ensures r.Some? ==> r.value.data[..] == DecodePixels(stream.value, PixelCount(r.value.header))
  {
    var header := ReadBmpHeader(stream);
    if header.None? {
      return None;
    }
    var data := ReadData(stream, header);
    if data.None? {
      return None;
    }
    r := Some(Image(header.value, data.value));
  }

  function PixelBytes(p: Pixel): (r: seq<byte>)
    ensures |r| == 3 && PixelAt(r, 0) == p
  {
    [p.blue, p.red, p.green]
  }

  /** The bytes the draft's `write_bmp` emits for a run of pixels, without padding. */
  function EncodePixels(g: seq<Pixel>): (r: seq<byte>)
    ensures |r| == 3 * |g|
  {
    if g == [] then [] else EncodePixels(g[..|g| - 1]) + PixelBytes(g[|g| - 1])
  }

  /** main.c `write_bmp`: the sixteen header fields, then `width * height` unpadded triples. */
  method WriteBmp(stream: Option<seq<byte>>, image: Option<Image>) returns (ok: bool, out: seq<byte>)
    requires image.Some? ==> PixelCount(image.value.header) <= image.value.data.Length
    ensures ok <==> stream.Some? && image.Some?
    ensures stream.None? ==> out == []
    ensures stream.Some? && !ok ==> out == stream.value
    ensures ok ==> out == stream.value + Bmp.EncodeHeader(image.value.header)
                          + EncodePixels(image.value.data[..PixelCount(image.value.header)])
  {
    if stream.None? || image.None? {
      ok := false;
      out := if stream.Some? then stream.value else [];
      return;
    }
    var hd, data := image.value.header, image.value.data;
    out := Bmp.WriteHeader(stream.value, hd);
    ghost var prior := out;
    var pxcount := PixelCount(hd);
    var i := 0;
    while i < pxcount
      invariant i <= pxcount
      invariant out == prior + EncodePixels(data[..i])
    {
      assert data[..i + 1][..i] == data[..i];
      out := out + [data[i].blue];
      out := out + [data[i].red];
      out := out + [data[i].green];
      i := i + 1;
    }
    assert data[..i] == data[..pxcount];
    ok := true;
  }
}

/** What writing and reading back with the draft codec preserves, and how it differs from bmp.c. */
module DraftRoundTrip {
  import opened Wrappers
  import opened Bytes
  import opened Grid
  import opened Types
  import Bmp
  import BmpRoundTrip
  import opened Draft

  /** Byte k of pixel i sits at 3i + k of the encoded run. */
  lemma {:induction false} EncodedAt(g: seq<Pixel>, i: nat, k: nat)
    requires i < |g| && k < 3
    ensures EncodePixels(g)[3 * i + k] == Draft.PixelBytes(g[i])[k]
  {
    if i < |g| - 1 {
      EncodedAt(g[..|g| - 1], i, k);
    }
  }

  /** After any 54-byte header, pixel i of the run the draft writes is read back. */
  lemma PixelRoundTrip(pre: seq<byte>, g: seq<Pixel>, i: nat)
    requires |pre| == HEADER_BYTES && i < |g|
    ensures Draft.PixelAt(pre + EncodePixels(g), HEADER_BYTES + 3 * i) == g[i]
  {
    var enc := EncodePixels(g);
    EncodedAt(g, i, 0);
    EncodedAt(g, i, 1);
    EncodedAt(g, i, 2);
    ByteAtAppended(pre, enc, 3 * i);
    ByteAtAppended(pre, enc, 3 * i + 1);
    ByteAtAppended(pre, enc, 3 * i + 2);
  }

  /** After any 54-byte header, the run of triples the draft writes is read back as the same pixels. */
  lemma PixelsRoundTrip(pre: seq<byte>, g: seq<Pixel>)
    requires |pre| == HEADER_BYTES
    ensures Draft.DecodePixels(pre + EncodePixels(g), |g|) == g
  {
    var d := Draft.DecodePixels(pre + EncodePixels(g), |g|);
    forall i | 0 <= i < |g|
      ensures d[i] == g[i]
    {
      PixelRoundTrip(pre, g, i);
    }
  }

  /**
   * The draft's round trip: a file written from a header with the
   * signature and the right pixel count is read back to the same size,
   * the same dimensions and the same pixels.
   */
  lemma RoundTrip(hd: Header, g: seq<Pixel>)
    requires hd.fileType == TYPE && |g| == PixelCount(hd)
    ensures var s := Bmp.EncodeHeader(hd) + EncodePixels(g);
      && Draft.ParseHeader(s).Some?
      && Draft.ParseHeader(s).value == FreshHeader(hd.size, hd.width, hd.height)
      && Draft.DecodePixels(s, PixelCount(Draft.ParseHeader(s).value)) == g
  {
    var s := Bmp.EncodeHeader(hd) + EncodePixels(g);
    BmpRoundTrip.HeaderRoundTrip(hd, EncodePixels(g));
    ParseHeaderAgrees(s);
    PixelsRoundTrip(Bmp.EncodeHeader(hd), g);
  }

  function SwapGreenRed(p: Pixel): Pixel
  {
    Pixel(p.blue, p.red, p.green)
  }

  /**
   * On the same bytes, the draft reads pixel i of an unpadded grid as
   * bmp.c reads pixel i, with green and red exchanged.
   */
  lemma ReadsGreenRedSwapped(s: seq<byte>, W: nat, H: nat, h: nat, w: nat)
    requires h < H && w < W
    ensures Draft.DecodePixels(s, W * H)[Idx(W, H, h, w)] == SwapGreenRed(Bmp.DecodePixels(s, W, H, 0)[Idx(W, H, h, w)])
  {
    UnpaddedOffset(W, H, h, w);
  }

  lemma UnpaddedOffset(W: nat, H: nat, h: nat, w: nat)
    requires h < H && w < W
    ensures Bmp.Offset(W, 0, h, w) == HEADER_BYTES + 3 * Idx(W, H, h, w)
  {
    assert h * (3 * W + 0) + 3 * w == 3 * (h * W + w);
  }

  /**
   * A one-pixel image written by bmp.c and read by the draft comes back
   * with green and red exchanged, whatever the rest of its header.
   */
  lemma DraftMisreadsBmp(hd: Header)
    requires hd.width == 1 && hd.height == 1
    ensures Draft.DecodePixels(Bmp.EncodeBmp(hd, [Pixel(1, 2, 3)]), 1) == [Pixel(1, 3, 2)]
  {
    var g := [Pixel(1, 2, 3)];
    assert Bmp.Padding(1) == 1;
    assert Bmp.Rows(g, 1, 1, 1, 0) == [];
    assert Bmp.RowBytes(g, 1, 1, 0, 0) == [];
    var rows := Bmp.Rows(g, 1, 1, 1, 1);
    assert rows == [1, 2, 3, 0];
    ByteAtAppended(Bmp.EncodeHeader(hd), rows, 0);
    ByteAtAppended(Bmp.EncodeHeader(hd), rows, 1);
    ByteAtAppended(Bmp.EncodeHeader(hd), rows, 2);
  }
}

/**
 * The transformations of transformations.c. Each one allocates a new
 * image, builds its header in a zeroed struct and fills a fresh
 * width * height row-major buffer in nested loops; the input image is
 * only read. Each method is proved against a pure function on the pixel
 * sequence, and the properties of the transformations are lemmas about
 * those functions.
 */
module Transformations {
  import opened Wrappers
  import opened Bytes
  import opened Grid
  import opened Types

  /** The grid mirrored left to right: pixel (h, w) comes from (h, W - 1 - w). */
  function FlippedH(g: seq<Pixel>, W: nat, H: nat): (r: seq<Pixel>)
    requires |g| == W * H
    ensures |r| == W * H
    ensures forall h, w | 0 <= h < H && 0 <= w < W :: r[Idx(W, H, h, w)] == g[Idx(W, H, h, W - 1 - w)]
  {
    seq(W * H, i requires 0 <= i < W * H => g[MirrorH(W, H, i)])
  }

  /** The index `flip_horizontally` reads for buffer index i. */
  function MirrorH(W: nat, H: nat, i: nat): (j: nat)
    requires i < W * H
    ensures j < W * H
  {
    IdxCover(W, H, i);
    Idx(W, H, i / W, W - 1 - i % W)
  }

  /** The grid mirrored top to bottom: pixel (h, w) comes from (H - 1 - h, w). */
  function FlippedV(g: seq<Pixel>, W: nat, H: nat): (r: seq<Pixel>)
    requires |g| == W * H
    ensures |r| == W * H
    ensures forall h, w | 0 <= h < H && 0 <= w < W :: r[Idx(W, H, h, w)] == g[Idx(W, H, H - 1 - h, w)]
  {
    seq(W * H, i requires 0 <= i < W * H => g[MirrorV(W, H, i)])
  }

  /** The index `flip_vertically` reads for buffer index i. */
  function MirrorV(W: nat, H: nat, i: nat): (j: nat)
    requires i < W * H
    ensures j < W * H
  {
    IdxCover(W, H, i);
    Idx(W, H, H - 1 - i / W, i % W)
  }

  /** `flip_horizontally`: the mirrored grid under a header rebuilt from the input's size and dimensions. */
  method FlipHorizontally(image: Image) returns (r: Image)
    requires Valid(image)
    ensures r.header == FreshHeader(image.header.size, image.header.width, image.header.height)
    ensures fresh(r.data)
    ensures r.data[..] == FlippedH(image.data[..], image.header.width, image.header.height)
  {
    var W: nat, H: nat := image.header.width, image.header.height;
    var header := FreshHeader(image.header.size, image.header.width, image.header.height);
    var data := new Pixel[W * H](_ => BLACK);
    var h := 0;
    while h < H
      invariant h <= H
      invariant forall hh, ww | 0 <= hh < h && 0 <= ww < W :: data[Idx(W, H, hh, ww)] == image.data[Idx(W, H, hh, W - 1 - ww)]
    {
      FlipRowH(image, data, W, H, h);
      h := h + 1;
    }
    GridExt(W, H, data[..], FlippedH(image.data[..], W, H));
    r := Image(header, data);
  }

  /** The inner loop of `flip_horizontally`: row h of the copy, read right to left. */
  method FlipRowH(image: Image, data: array<Pixel>, W: nat, H: nat, h: nat)
    requires Valid(image) && W == image.header.width && H == image.header.height
    requires data != image.data && data.Length == W * H && h < H
    modifies data
    ensures forall ww | 0 <= ww < W :: data[Idx(W, H, h, ww)] == image.data[Idx(W, H, h, W - 1 - ww)]
    ensures forall i | 0 <= i < W * H && i / W != h :: data[i] == old(data[i])
  {
    var w := 0;
    while w < W
      invariant w <= W
      invariant forall ww | 0 <= ww < w :: data[Idx(W, H, h, ww)] == image.data[Idx(W, H, h, W - 1 - ww)]
      invariant forall i | 0 <= i < W * H && i / W != h :: data[i] == old(data[i])
    {
      data[Idx(W, H, h, w)] := image.data[Idx(W, H, h, W - 1 - w)];
      w := w + 1;
    }
  }

  /** `flip_vertically`: the grid mirrored top to bottom under a rebuilt header. */
  method FlipVertically(image: Image) returns (r: Image)
    requires Valid(image)
    ensures r.header == FreshHeader(image.header.size, image.header.width, image.header.height)
    ensures fresh(r.data)
    ensures r.data[..] == FlippedV(image.data[..], image.header.width, image.header.height)
  {
    var W: nat, H: nat := image.header.width, image.header.height;
    var header := FreshHeader(image.header.size, image.header.width, image.header.height);
    var data := new Pixel[W * H](_ => BLACK);
    var h := 0;
    while h < H
      invariant h <= H
      invariant forall hh, ww | 0 <= hh < h && 0 <= ww < W :: data[Idx(W, H, hh, ww)] == image.data[Idx(W, H, H - 1 - hh, ww)]
    {
      FlipRowV(image, data, W, H, h);
      h := h + 1;
    }
    GridExt(W, H, data[..], FlippedV(image.data[..], W, H));
    r := Image(header, data);
  }

  /** The inner loop of `flip_vertically`: row h of the copy, from row H - 1 - h. */
  method FlipRowV(image: Image, data: array<Pixel>, W: nat, H: nat, h: nat)
    requires Valid(image) && W == image.header.width && H == image.header.height
    requires data != image.data && data.Length == W * H && h < H
    modifies data
    ensures forall ww | 0 <= ww < W :: data[Idx(W, H, h, ww)] == image.data[Idx(W, H, H - 1 - h, ww)]
    ensures forall i | 0 <= i < W * H && i / W != h :: data[i] == old(data[i])
  {
    var w := 0;
    while w < W
      invariant w <= W
      invariant forall ww | 0 <= ww < w :: data[Idx(W, H, h, ww)] == image.data[Idx(W, H, H - 1 - h, ww)]
      invariant forall i | 0 <= i < W * H && i / W != h :: data[i] == old(data[i])
    {
      data[Idx(W, H, h, w)] := image.data[Idx(W, H, H - 1 - h, w)];
      w := w + 1;
    }
  }

  /**
   * `rotate_right`: a column-by-column walk whose every assignment is the
   * one of `flip_vertically`, so the result is the vertically flipped
   * grid with width and height unchanged.
   */
  method RotateRight(image: Image) returns (r: Image)
    requires Valid(image)
    ensures r.header == FreshHeader(image.header.size, image.header.width, image.header.height)
    ensures fresh(r.data)
    ensures r.data[..] == FlippedV(image.data[..], image.header.width, image.header.height)
  {
    var W: nat, H: nat := image.header.width, image.header.height;
    var header := FreshHeader(image.header.size, image.header.width, image.header.height);
    var data := new Pixel[W * H](_ => BLACK);
    var w := 0;
    while w < W
      invariant w <= W
      invariant forall hh, ww | 0 <= hh < H && 0 <= ww < w :: data[Idx(W, H, hh, ww)] == image.data[Idx(W, H, H - 1 - hh, ww)]
    {
      RotateColumnRight(image, data, W, H, w);
      w := w + 1;
    }
    GridExt(W, H, data[..], FlippedV(image.data[..], W, H));
    r := Image(header, data);
  }

  /** The inner loop of `rotate_right`: column w of the copy, from row H - 1 - h. */
  method RotateColumnRight(image: Image, data: array<Pixel>, W: nat, H: nat, w: nat)
    requires Valid(image) && W == image.header.width && H == image.header.height
    requires data != image.data && data.Length == W * H && w < W
    modifies data
    ensures forall hh | 0 <= hh < H :: data[Idx(W, H, hh, w)] == image.data[Idx(W, H, H - 1 - hh, w)]
    ensures forall i | 0 <= i < W * H && i % W != w :: data[i] == old(data[i])
  {
    var h := 0;
    while h < H
      invariant h <= H
      invariant forall hh | 0 <= hh < h :: data[Idx(W, H, hh, w)] == image.data[Idx(W, H, H - 1 - hh, w)]
      invariant forall i | 0 <= i < W * H && i % W != w :: data[i] == old(data[i])
    {
      data[Idx(W, H, h, w)] := image.data[Idx(W, H, H - 1 - h, w)];
      h := h + 1;
    }
  }

  /**
   * `rotate_left`: a column-by-column walk whose every assignment is the
   * one of `flip_horizontally`, so the result is the horizontally flipped
   * grid with width and height unchanged.
   */
  method RotateLeft(image: Image) returns (r: Image)
    requires Valid(image)
    ensures r.header == FreshHeader(image.header.size, image.header.width, image.header.height)
    ensures fresh(r.data)
    ensures r.data[..] == FlippedH(image.data[..], image.header.width, image.header.height)
  {
    var W: nat, H: nat := image.header.width, image.header.height;
    var header := FreshHeader(image.header.size, image.header.width, image.header.height);
    var data := new Pixel[W * H](_ => BLACK);
    var w := 0;
    while w < W
      invariant w <= W
      invariant forall hh, ww | 0 <= hh < H && 0 <= ww < w :: data[Idx(W, H, hh, ww)] == image.data[Idx(W, H, hh, W - 1 - ww)]
    {
      RotateColumnLeft(image, data, W, H, w);
      w := w + 1;
    }
    GridExt(W, H, data[..], FlippedH(image.data[..], W, H));
    r := Image(header, data);
  }

  /** The inner loop of `rotate_left`: column w of the copy, from column W - 1 - w. */
  method RotateColumnLeft(image: Image, data: array<Pixel>, W: nat, H: nat, w: nat)
    requires Valid(image) && W == image.header.width && H == image.header.height
    requires data != image.data && data.Length == W * H && w < W
    modifies data
    ensures forall hh | 0 <= hh < H :: data[Idx(W, H, hh, w)] == image.data[Idx(W, H, hh, W - 1 - w)]
    ensures forall i | 0 <= i < W * H && i % W != w :: data[i] == old(data[i])
  {
    var h := 0;
    while h < H
      invariant h <= H
      invariant forall hh | 0 <= hh < h :: data[Idx(W, H, hh, w)] == image.data[Idx(W, H, hh, W - 1 - w)]
      invariant forall i | 0 <= i < W * H && i % W != w :: data[i] == old(data[i])
    {
      data[Idx(W, H, h, w)] := image.data[Idx(W, H, h, W - 1 - w)];
      h := h + 1;
    }
  }

  /** Mirroring left to right twice gives back the grid. */
  lemma FlipHTwice(g: seq<Pixel>, W: nat, H: nat)
    requires |g| == W * H
    ensures FlippedH(FlippedH(g, W, H), W, H) == g
  {
    GridExt(W, H, FlippedH(FlippedH(g, W, H), W, H), g);
  }

  /** Mirroring top to bottom twice gives back the grid. */
  lemma FlipVTwice(g: seq<Pixel>, W: nat, H: nat)
    requires |g| == W * H
    ensures FlippedV(FlippedV(g, W, H), W, H) == g
  {
    GridExt(W, H, FlippedV(FlippedV(g, W, H), W, H), g);
  }

  /** The two mirrorings commute. */
  lemma FlipsCommute(g: seq<Pixel>, W: nat, H: nat)
    requires |g| == W * H
    ensures FlippedH(FlippedV(g, W, H), W, H) == FlippedV(FlippedH(g, W, H), W, H)
  {
    var a, b := FlippedH(FlippedV(g, W, H), W, H), FlippedV(FlippedH(g, W, H), W, H);
    forall h, w | 0 <= h < H && 0 <= w < W
      ensures a[Idx(W, H, h, w)] == b[Idx(W, H, h, w)]
    {
      HalfTurnAt(g, W, H, h, w);
    }
    GridExt(W, H, a, b);
  }

  /** Both flips together send pixel (h, w) to (H - 1 - h, W - 1 - w): a half turn. */
  lemma HalfTurnAt(g: seq<Pixel>, W: nat, H: nat, h: nat, w: nat)
    requires |g| == W * H && h < H && w < W
    ensures FlippedH(FlippedV(g, W, H), W, H)[Idx(W, H, h, w)] == g[Idx(W, H, H - 1 - h, W - 1 - w)]
    ensures FlippedV(FlippedH(g, W, H), W, H)[Idx(W, H, h, w)] == g[Idx(W, H, H - 1 - h, W - 1 - w)]
  {
    var v, f := FlippedV(g, W, H), FlippedH(g, W, H);
    assert FlippedH(v, W, H)[Idx(W, H, h, w)] == v[Idx(W, H, h, W - 1 - w)];
    assert FlippedV(f, W, H)[Idx(W, H, h, w)] == f[Idx(W, H, H - 1 - h, w)];
  }

  /**
   * The bounds checks of `crop`: the start inside the source, a non-empty
   * size, and the region inside the source.
   */
  function CropInBounds(W: nat, H: nat, startY: nat, startX: nat, height: nat, width: nat): (ok: bool)
    ensures ok ==> 1 <= width * height <= W * H
  {
    var ok := && startY < H && startX < W
              && height >= 1 && width >= 1
              && startY + height <= H && startX + width <= W;
    if ok then MulLe(width, W, height); MulLe(height, H, W); MulLe(1, width, height); ok else ok
  }

  /**
   * The region `crop` returns, `height` rows of `width` pixels: pixel
   * (h, w) is source pixel (H - startY - height + h, startX + w), rows
   * being counted from the first row in the stream.
   */
  function Cropped(g: seq<Pixel>, W: nat, H: nat, startY: nat, startX: nat, height: nat, width: nat): (r: seq<Pixel>)
    requires |g| == W * H && CropInBounds(W, H, startY, startX, height, width)
    ensures |r| == width * height
    ensures forall h, w | 0 <= h < height && 0 <= w < width ::
      r[Idx(width, height, h, w)] == g[Idx(W, H, H - startY - height + h, startX + w)]
  {
    seq(width * height, i requires 0 <= i < width * height => g[CropSource(W, H, startY, startX, height, width, i)])
  }

  /** The source index of buffer index i of the region. */
  function CropSource(W: nat, H: nat, startY: nat, startX: nat, height: nat, width: nat, i: nat): (j: nat)
    requires CropInBounds(W, H, startY, startX, height, width) && i < width * height
    ensures j < W * H
  {
    IdxCover(width, height, i);
    Idx(W, H, H - startY - height + i / width, startX + i % width)
  }

  /** Cropping the whole image from (0, 0) gives back its grid. */
  lemma CropWhole(g: seq<Pixel>, W: nat, H: nat)
    requires |g| == W * H && W >= 1 && H >= 1
    ensures Cropped(g, W, H, 0, 0, H, W) == g
  {
    GridExt(W, H, Cropped(g, W, H, 0, 0, H, W), g);
  }

  /**
   * The rows `crop` copies, taken from the bottom of the region up, are
   * put back in order by the vertical flip.
   */
  lemma FlipOfBottomUpRows(g: seq<Pixel>, W: nat, H: nat, startY: nat, startX: nat, height: nat, width: nat, t: seq<Pixel>)
    requires |g| == W * H && CropInBounds(W, H, startY, startX, height, width) && |t| == width * height
    requires forall h, w | 0 <= h < height && 0 <= w < width ::
      t[Idx(width, height, h, w)] == g[Idx(W, H, H - startY - h - 1, startX + w)]
    ensures FlippedV(t, width, height) == Cropped(g, W, H, startY, startX, height, width)
  {
    GridExt(width, height, FlippedV(t, width, height), Cropped(g, W, H, startY, startX, height, width));
  }

  /**
   * `crop`: None unless the region passes the bounds checks; otherwise the
   * region under a header giving its size as 54 + 3 * width * height
   * (rows unpadded), built by copying rows from the bottom of the region
   * up and flipping the copy vertically.
   */
  method Crop(image: Image, startY: u32, startX: u32, height: u32, width: u32) returns (r: Option<Image>)
    requires Valid(image) && image.header.width * image.header.height < U32
    requires startY + height < U32 && startX + width < U32
    ensures r.Some? <==> CropInBounds(image.header.width, image.header.height, startY, startX, height, width)
    ensures r.Some? ==> r.value.header == FreshHeader(Wrap32(OFFSET as nat + 3 * (width * height)), width, height)
    ensures r.Some? ==> r.value.header.imageSize == Wrap32(3 * (width * height))
    ensures r.Some? ==> fresh(r.value.data)
    ensures r.Some? ==> r.value.data[..] == Cropped(image.data[..], image.header.width, image.header.height,
                                                      startY, startX, height, width)
  {
    var sw: nat, sh: nat := image.header.width, image.header.height;
    if startY >= sh || startX >= sw {
      return None;
    }
    if height < 1 || width < 1 {
      return None;
    }
    if startY + height > sh || startX + width > sw {
      return None;
    }
    MulLe(height, sh, width);
    MulLe(width, sw, sh);
    var pxcount: nat := Wrap32(width * height);
    var header := Header(TYPE, Wrap32(OFFSET as nat + pxcount * 3), 0, 0, OFFSET, DIB_SIZE, width, height,
                         PLANES, BPP, 0, Wrap32(pxcount * 3), 0, 0, 0, 0);
    var data := new Pixel[pxcount](_ => BLACK);
    var h := 0;
    while h < height
      invariant h <= height
      invariant forall hh, ww | 0 <= hh < h && 0 <= ww < width ::
        data[Idx(width, height, hh, ww)] == image.data[Idx(sw, sh, sh - startY - hh - 1, startX + ww)]
    {
      CropRow(image, data, startY, startX, height, width, h);
      h := h + 1;
    }
    var ret := FlipVertically(Image(header, data));
    FlipOfBottomUpRows(image.data[..], sw, sh, startY, startX, height, width, data[..]);
    Wrap32Shift(OFFSET as nat + pxcount * 3, -(OFFSET as int));
    r := Some(ret);
  }

  /**
   * The inner loop of `crop`: row h of the copy from source row
   * sh - startY - h - 1, the index the source computes as
   * (sh - startY - h) * sw - (sw - startX - w).
   */
  method CropRow(image: Image, data: array<Pixel>, startY: nat, startX: nat, height: nat, width: nat, h: nat)
    requires Valid(image) && CropInBounds(image.header.width, image.header.height, startY, startX, height, width)
    requires data != image.data && data.Length == width * height && h < height
    modifies data
    ensures forall ww | 0 <= ww < width ::
      data[Idx(width, height, h, ww)] == image.data[Idx(image.header.width, image.header.height,
                                                         image.header.height - startY - h - 1, startX + ww)]
    ensures forall i | 0 <= i < width * height && i / width != h :: data[i] == old(data[i])
  {
    var sw: nat, sh: nat := image.header.width, image.header.height;
    var w := 0;
    while w < width
      invariant w <= width
      invariant forall ww | 0 <= ww < w ::
        data[Idx(width, height, h, ww)] == image.data[Idx(sw, sh, sh - startY - h - 1, startX + ww)]
      invariant forall i | 0 <= i < width * height && i / width != h :: data[i] == old(data[i])
    {
      var row := sh - startY - h;
      assert row * sw == (row - 1) * sw + sw;
      var src := row * sw - (sw - startX - w);
      assert src == Idx(sw, sh, sh - startY - h - 1, startX + w);
      data[Idx(width, height, h, w)] := image.data[src];
      w := w + 1;
    }
  }

  /** C's `&` on unsigned values, bit by bit from the lowest. */
  function And(x: nat, m: nat): (r: nat)
    ensures r <= x && r <= m
  {
    if x == 0 || m == 0 then 0
    else 2 * And(x / 2, m / 2) + (if x % 2 == 1 && m % 2 == 1 then 1 else 0)
  }

  function Pow2(k: nat): (r: nat)
    ensures r >= 1
  {
    if k == 0 then 1 else 2 * Pow2(k - 1)
  }

  /** Anding with k one-bits keeps every value below 2^k: `& 0xFF` keeps a byte. */
  lemma {:induction false} AndOnes(x: nat, k: nat)
    requires x < Pow2(k)
    ensures And(x, Pow2(k) - 1) == x
  {
    if x > 0 {
      AndOnes(x / 2, k - 1);
    }
  }

  /** In particular `& 0xFF` keeps a byte. */
  lemma AndFF(x: byte)
    ensures And(x, 0xFF) == x
  {
    assert Pow2(8) - 1 == 0xFF;
    AndOnes(x, 8);
  }

  /** Anding with the same mask a second time changes nothing. */
  lemma {:induction false} AndIdempotent(x: nat, m: nat)
    ensures And(And(x, m), m) == And(x, m)
  {
    if x != 0 && m != 0 {
      AndIdempotent(x / 2, m / 2);
    }
  }

  /**
   * The blue, green and red masks `extract` derives from the letters it
   * is given, held in a Pixel: None if any letter is not R, G or B;
   * otherwise 0xFF for each channel whose letter occurs and 0 for the
   * others.
   */
  function ChannelMask(colors: seq<char>): (m: Option<Pixel>)
    ensures m.None? <==> exists i | 0 <= i < |colors| :: !IsLetter(colors[i])
  {
    if forall c | c in colors :: IsLetter(c) then
      Some(Pixel(if B in colors then 0xFF else 0, if G in colors then 0xFF else 0, if R in colors then 0xFF else 0))
    else
      None
  }

  /** The letters `extract` accepts. */
  predicate IsLetter(c: char)
  {
    c == R || c == G || c == B
  }

  /**
   * The letter loop of `extract` over the characters before the string's
   * terminating NUL; `index` is a `short`, so the string is at most 32767
   * characters long.
   */
  method ReadMasks(colors: seq<char>) returns (m: Option<Pixel>)
    requires |colors| <= 32767
    ensures m == ChannelMask(colors)
  {
    var blue: byte, red: byte, green: byte := 0, 0, 0;
    var index := 0;
    while index < |colors|
      invariant index <= |colors|
      invariant forall c | c in colors[..index] :: IsLetter(c)
      invariant red == if R in colors[..index] then 0xFF else 0
      invariant green == if G in colors[..index] then 0xFF else 0
      invariant blue == if B in colors[..index] then 0xFF else 0
    {
      assert colors[..index + 1] == colors[..index] + [colors[index]];
      if colors[index] == R {
        red := 0xFF;
      } else if colors[index] == G {
        green := 0xFF;
      } else if colors[index] == B {
        blue := 0xFF;
      } else {
        assert colors[index] in colors;
        return None;
      }
      index := index + 1;
    }
    assert colors[..index] == colors;
    m := Some(Pixel(blue, green, red));
  }

  /** Each channel of a pixel anded with its mask. */
  function Masked(p: Pixel, m: Pixel): (r: Pixel)
    ensures r.blue <= p.blue && r.green <= p.green && r.red <= p.red
    ensures r.blue <= m.blue && r.green <= m.green && r.red <= m.red
  {
    Pixel(And(p.blue, m.blue), And(p.green, m.green), And(p.red, m.red))
  }

  /** The grid `extract` returns for the masks m. */
  function Extracted(g: seq<Pixel>, m: Pixel): (r: seq<Pixel>)
    ensures |r| == |g|
    ensures forall i | 0 <= i < |g| :: r[i] == Masked(g[i], m)
  {
    seq(|g|, i requires 0 <= i < |g| => Masked(g[i], m))
  }

  /**
   * A channel of the extracted grid keeps the input's value exactly when
   * its letter is among those given, and is 0 otherwise.
   */
  lemma ExtractKeepsListedChannels(g: seq<Pixel>, colors: seq<char>, i: nat)
    requires ChannelMask(colors).Some? && i < |g|
    ensures Extracted(g, ChannelMask(colors).value)[i].red == if R in colors then g[i].red else 0
    ensures Extracted(g, ChannelMask(colors).value)[i].green == if G in colors then g[i].green else 0
    ensures Extracted(g, ChannelMask(colors).value)[i].blue == if B in colors then g[i].blue else 0
  {
    AndFF(g[i].blue);
    AndFF(g[i].green);
    AndFF(g[i].red);
  }

  /** Keeping all three letters gives back the grid. */
  lemma ExtractAllIsIdentity(g: seq<Pixel>)
    ensures ChannelMask([R, G, B]).Some?
    ensures Extracted(g, ChannelMask([R, G, B]).value) == g
  {
    assert ChannelMask([R, G, B]) == Some(Pixel(0xFF, 0xFF, 0xFF));
    forall i | 0 <= i < |g|
      ensures Masked(g[i], Pixel(0xFF, 0xFF, 0xFF)) == g[i]
    {
      AndFF(g[i].blue);
      AndFF(g[i].green);
      AndFF(g[i].red);
    }
  }

  /** Keeping no letter gives an all-black grid. */
  lemma ExtractNoneIsBlack(g: seq<Pixel>)
    ensures ChannelMask([]) == Some(BLACK)
    ensures forall i | 0 <= i < |g| :: Extracted(g, BLACK)[i] == BLACK
  {
  }

  /** Only which letters occur matters, not their order or repetition. */
  lemma MaskIgnoresOrder(a: seq<char>, b: seq<char>)
    requires forall c :: c in a <==> c in b
    ensures ChannelMask(a) == ChannelMask(b)
  {
  }

  /** A letter other than R, G and B makes `extract` fail. */
  lemma UnknownLetterRejected(colors: seq<char>, i: nat)
    requires i < |colors| && !IsLetter(colors[i])
    ensures ChannelMask(colors).None?
  {
  }

  /** Extracting twice with the same letters is extracting once. */
  lemma ExtractIdempotent(g: seq<Pixel>, colors: seq<char>)
    requires ChannelMask(colors).Some?
    ensures Extracted(Extracted(g, ChannelMask(colors).value), ChannelMask(colors).value)
         == Extracted(g, ChannelMask(colors).value)
  {
    var m := ChannelMask(colors).value;
    forall i | 0 <= i < |g|
      ensures Masked(Masked(g[i], m), m) == Masked(g[i], m)
    {
      AndIdempotent(g[i].blue, m.blue);
      AndIdempotent(g[i].green, m.green);
      AndIdempotent(g[i].red, m.red);
    }
  }

  /**
   * `extract`: None for a missing image or string and for any letter
   * other than R, G and B; otherwise the masked grid under a header
   * rebuilt from the input's size and dimensions.
   */
  method Extract(image: Option<Image>, colors: Option<seq<char>>) returns (r: Option<Image>)
    requires image.Some? ==> Valid(image.value)
    requires colors.Some? ==> |colors.value| <= 32767
    ensures r.Some? <==> image.Some? && colors.Some? && ChannelMask(colors.value).Some?
    ensures r.Some? ==> r.value.header == FreshHeader(image.value.header.size, image.value.header.width, image.value.header.height)
    ensures r.Some? ==> fresh(r.value.data)
    ensures r.Some? ==> r.value.data[..] == Extracted(image.value.data[..], ChannelMask(colors.value).value)
  {
    if image.None? || colors.None? {
      return None;
    }
    var masks := ReadMasks(colors.value);
    if masks.None? {
      return None;
    }
    var src := image.value;
    var W: nat, H: nat := src.header.width, src.header.height;
    var header := FreshHeader(src.header.size, src.header.width, src.header.height);
    var data := new Pixel[W * H](_ => BLACK);
    var w := 0;
    while w < W
      invariant w <= W
      invariant forall hh, ww | 0 <= hh < H && 0 <= ww < w :: data[Idx(W, H, hh, ww)] == Masked(src.data[Idx(W, H, hh, ww)], masks.value)
    {
      ExtractColumn(src, data, W, H, w, masks.value);
      w := w + 1;
    }
    GridExt(W, H, data[..], Extracted(src.data[..], masks.value));
    r := Some(Image(header, data));
  }

  /** The inner loop of `extract`: column w, each channel anded with its mask. */
  method ExtractColumn(image: Image, data: array<Pixel>, W: nat, H: nat, w: nat, m: Pixel)
    requires Valid(image) && W == image.header.width && H == image.header.height
    requires data != image.data && data.Length == W * H && w < W
    modifies data
    ensures forall hh | 0 <= hh < H :: data[Idx(W, H, hh, w)] == Masked(image.data[Idx(W, H, hh, w)], m)
    ensures forall i | 0 <= i < W * H && i % W != w :: data[i] == old(data[i])
  {
    var h := 0;
    while h < H
      invariant h <= H
      invariant forall hh | 0 <= hh < h :: data[Idx(W, H, hh, w)] == Masked(image.data[Idx(W, H, hh, w)], m)
      invariant forall i | 0 <= i < W * H && i % W != w :: data[i] == old(data[i])
    {
      var i := Idx(W, H, h, w);
      data[i] := Pixel(And(image.data[i].blue, m.blue), And(image.data[i].green, m.green), And(image.data[i].red, m.red));
      h := h + 1;
    }
  }
}

/**
 * The image record shared by the codec and the transformations: the
 * 16-field BMP header, the 3-byte pixel and the image that pairs a header
 * with its pixel buffer. The header macros are named constants here.
 */
module Types {
  import opened Bytes

  const TYPE: u16 := 0x4d42        // "BM" read as a little-endian 16-bit value
  const OFFSET: u32 := 54          // file header (14) + info header (40)
  const DIB_SIZE: u32 := 40
  const PLANES: u16 := 1
  const BPP: u16 := 24
  const HEADER_BYTES: nat := 54    // bytes the 16 header fields occupy on disk

  /** The channel letters `extract` accepts. */
  const R: char := 'r'
  const G: char := 'g'
  const B: char := 'b'

  /** The header fields in on-disk order; `fileType` is the struct's `type`. */
  datatype Header = Header(
    fileType: u16,
    size: u32,
    reserved1: u16,
    reserved2: u16,
    offset: u32,
    dibSize: u32,
    width: u32,
    height: u32,
    planes: u16,
    bpp: u16,
    compression: u32,
    imageSize: u32,
    xPpm: u32,
    yPpm: u32,
    numColors: u32,
    importantColors: u32)

  datatype Pixel = Pixel(blue: byte, green: byte, red: byte)

  const BLACK: Pixel := Pixel(0, 0, 0)

  /** An image: its header and its row-major pixel buffer. */
  datatype Image = Image(header: Header, data: array<Pixel>)

  /** The buffer holds exactly width * height pixels, as every producer allocates it. */
  ghost predicate Valid(img: Image)
    reads img.data
  {
    img.data.Length == img.header.width * img.header.height
  }

  /**
   * A header as every transformation builds it in a zeroed struct: the
   * size and dimensions it is given, the format constants, the image size
   * derived from the file size, every other field 0.
   */
  predicate Canonical(h: Header)
  {
    && h.fileType == TYPE && h.offset == OFFSET && h.dibSize == DIB_SIZE
    && h.planes == PLANES && h.bpp == BPP
    && h.imageSize == Wrap32(h.size - OFFSET)
    && h.reserved1 == 0 && h.reserved2 == 0 && h.compression == 0
    && h.xPpm == 0 && h.yPpm == 0 && h.numColors == 0 && h.importantColors == 0
  }

  function FreshHeader(size: u32, width: u32, height: u32): (h: Header)
    ensures Canonical(h)
    ensures h.size == size && h.width == width && h.height == height
  {
    Header(TYPE, size, 0, 0, OFFSET, DIB_SIZE, width, height, PLANES, BPP,
           0, Wrap32(size - OFFSET), 0, 0, 0, 0)
  }

  /** Rebuilding a header from its size and dimensions is the identity exactly on canonical headers. */
  lemma FreshHeaderFixesCanonical(h: Header)
    ensures FreshHeader(h.size, h.width, h.height) == h <==> Canonical(h)
  {
  }
}

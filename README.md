# BMP codec and transformations, modelled in Dafny

This project models the core of a small C tool for 24-bit Windows bitmaps
(BMP). The tool has two parts:

- **The codec in `bmp.c`.**
  - `read_bmp_header` parses the 54-byte `BITMAPFILEHEADER` + `BITMAPINFOHEADER`.
  - `read_data` checks the stream length, then decodes rows of blue/green/red triples. Each row is padded to a 4-byte boundary.
  - `read_bmp` composes the two.
  - `write_bmp` emits the sixteen header fields little-endian, then the padded rows.
- **An older codec kept in `main.c`.** It has the same header but no length check and no padding, and it stores each pixel's bytes in blue/red/green order.
- **The transformations in `transformations.c`.**
  - `flip_horizontally`, `flip_vertically`, `rotate_right` and `rotate_left`.
  - `crop` and `extract`.
  - Each one allocates a fresh `width * height` row-major pixel buffer under a header rebuilt in a zeroed struct.

## How the model is built

**Streams**
- A `FILE*` being read is its byte contents, `Option<seq<byte>>`; `None` stands for `NULL`.
- Each method keeps its own cursor. `fseek`/`ftell` become cursor arithmetic, and `fread` becomes `Bytes.Fread`: it copies what is available, at most n bytes, and moves the cursor by that much.
- A field or pixel byte that is read past the end keeps the 0 that `calloc` put there (`Bytes.FieldAt`, `Bytes.ByteAt`).
- A `FILE*` being written is the bytes it already holds. The writer returns those bytes followed by what it appends.

**Data and integers**
- A header is the datatype `Types.Header`, with the sixteen fields in on-disk order. A pixel is `Types.Pixel(blue, green, red)`.
- An image pairs a header with an `array<Pixel>`. Every producer returns a fresh array and never writes to its input.
- Integers are unbounded. The C `uint32_t` arithmetic that can wrap is written with `Bytes.Wrap32`: `size - 54`, the crop header's size, and the pixel count of the draft. The `size_t` length difference in `read_data` is written with `Bytes.Wrap64`.

**Modules**
- `Bmp` and `BmpRoundTrip` model `bmp.c`.
- `Draft` and `DraftRoundTrip` model lines 6-137 of `main.c`.
- `Transformations` models `transformations.c`.
- `CropSize` records how `crop`'s header size interacts with `write_bmp`/`read_data`.

**How each operation is specified**
- Each loop becomes a method with its invariants, proved against a pure function of the inputs: `DecodePixels`, `Rows`, `EncodePixels`, `FlippedH`, `FlippedV`, `Cropped`, `ChannelMask`, `Extracted`.
- The source's properties are lemmas about those functions: round trips, involutions, full-crop identity, the facts about the masks.

**Behaviour the function names do not suggest**
- `rotate_right` and `rotate_left` keep width and height. Their loops perform exactly the assignments of `flip_vertically` and `flip_horizontally`.
- `crop` records `54 + 3 * width * height` as the file size, without row padding. See "## Findings".
- The flips, rotations and `extract` copy `size` from the input, whatever the dimensions.
- `read_data` does not fail on a short stream. It fails only when the length check fails; bytes past the end read as 0.
- Memory row 0 is the first row in the stream; no bottom-up inversion is applied.

## Model

| member | source | states |
|---|---|---|
| Bytes.Fread | bmp.c:17-20 | `fread` copies at most n bytes, exactly n when the stream holds them, each equal to the stream byte at the cursor plus its position |
| Bytes.FieldAt | bmp.c:32-42 | a field read at offset o is the little-endian value of the bytes there when available, and is below 256^n in any case (missing bytes stay 0) |
| Bytes.LERoundTrip | bmp.c:132-147 | an n-byte little-endian encoding of a value below 256^n decodes back to that value |
| Bytes.LEBytes | bmp.c:132-147 | an integer field is written as exactly n bytes, its little-endian encoding |
| Bytes.FieldRoundTrip | bmp.c:132-147 | a field written with `fwrite` after any prefix is read back by `fread` at the prefix's length |
| Bytes.Wrap32Shift | transformations.c:168-176 | reducing mod 2^32 before adding a constant does not change the reduced sum, so crop's image size is `3 * width * height` mod 2^32 |
| Types.FreshHeader | transformations.c:15-24 | the header built in a zeroed struct is canonical: given size and dimensions, the constants, image size = size - 54 mod 2^32, every other field 0 |
| Types.FreshHeaderFixesCanonical | transformations.c:15-24 | rebuilding a header from its size and dimensions is the identity exactly on canonical headers |
| Bmp.Padding | bmp.c:81-82 | the pad count is at most 3 and makes `3W + pad` a multiple of 4 |
| Bmp.PaddingBounds | bmp.c:82 | the rounded-up row length lies between 3W and 3W + 3 and is a multiple of 4 |
| Bmp.Stride | bmp.c:151 | the padded row length is a multiple of 4 within 3 of 3W |
| Bmp.PaddingExamples | bmp.c:82 | width 1 pads by 1 (stride 4), width 2 by 2 (stride 8), width 4 by 0 (stride 12) |
| Bmp.PaddingIsLeast | bmp.c:82 | no smaller pad count aligns the row to 4 bytes |
| Bmp.Field32 | bmp.c:32-42 | a 4-byte header field is the little-endian value of its 4 bytes when available |
| Bmp.ParseHeader | bmp.c:17-49 | a header is returned iff at least 2 bytes exist and they are 0x42 0x4D; it then has the constants, image size = size - 54 mod 2^32 and zero reserved/compression/colour fields |
| Bmp.ReadBmpHeader | bmp.c:3-52 | the cursor-based reads return None for a NULL stream and otherwise exactly `ParseHeader` of the contents |
| Bmp.PixelAt | bmp.c:90-92 | a pixel read wholly past the end of the stream is black, since missing bytes stay 0 |
| Bmp.DecodePixels | bmp.c:84-95 | the decoded grid has W*H pixels, and pixel (h, w) is the triple at `54 + h*(3W + pad) + 3w` in blue, green, red order, with no row inversion |
| Bmp.LengthOk | bmp.c:66-75 | for any stream shorter than 2^64 bytes, the check passes iff the stream has at least 54 bytes and `len - 54 == size - 54 mod 2^32` |
| Bmp.ShortStreamRejected | bmp.c:66-75 | a stream shorter than 54 bytes never passes the length check |
| Bmp.NextRow | bmp.c:94 | seeking over the padding at the end of row h lands on the first pixel of row h + 1 |
| Bmp.FreadPixel | bmp.c:90-92 | the three one-byte reads fill blue, green, red from offset o (0 past the end) and advance the cursor by 3 unless at the end |
| Bmp.ReadRow | bmp.c:88-93 | the inner loop fills row h from its offsets and leaves every other row unchanged |
| Bmp.ReadRows | bmp.c:87-95 | the row loop fills the buffer with exactly `DecodePixels` of the stream with the padding formula |
| Bmp.ReadData | bmp.c:54-98 | result is Some iff header and stream exist and `len - 54 == size - 54` (size_t against uint32_t); then a fresh buffer holding the decoded grid |
| Bmp.ReadBmp | bmp.c:100-122 | Some iff the header parses and the length check passes, with that header and the decoded grid; never a half-built image |
| Bmp.EncodeHeader | bmp.c:131-147 | the sixteen fields take exactly 54 bytes |
| Bmp.PixelBytes | bmp.c:158-160 | a pixel is written as 3 bytes that the reader takes back as the same pixel |
| Bmp.RowBytes | bmp.c:156-161 | the first w pixels of a row take 3w bytes |
| Bmp.Rows | bmp.c:155-163 | h padded rows take `h * (3W + pad)` bytes |
| Bmp.EncodeBmp | bmp.c:131-163 | the written file is `54 + H * stride` bytes long |
| Bmp.WriteHeader | bmp.c:131-147 | the sixteen `fwrite`s append exactly `EncodeHeader` |
| Bmp.WriteRow | bmp.c:156-161 | the inner loop appends each pixel's blue, green, red byte of row h |
| Bmp.WriteRows | bmp.c:150-163 | the row loop appends exactly the padded rows of the first W*H pixels |
| Bmp.AppendRow | bmp.c:155-163 | appending row h's triples and its padding after the first h rows gives the first h + 1 rows |
| Bmp.WriteBmp | bmp.c:124-166 | false iff stream or image is NULL, leaving the stream as it was; otherwise the stream gains exactly header + padded rows |
| BmpRoundTrip.HeaderRoundTrip | bmp.c:17-49 | reading back a written header fails iff its type is not 0x4d42; otherwise size, width, height, x/y resolution come back and every other field is recomputed |
| BmpRoundTrip.TypeRecovered | bmp.c:17-26 | the first two written bytes read back as the header's type |
| BmpRoundTrip.SizeRecovered | bmp.c:32 | the size written at offset 2 reads back |
| BmpRoundTrip.DimensionsRecovered | bmp.c:35-37 | width and height written at offsets 18 and 22 read back |
| BmpRoundTrip.ResolutionRecovered | bmp.c:40-42 | x and y resolution written at offsets 38 and 42 read back |
| BmpRoundTrip.RowBytesAt | bmp.c:156-161 | byte k of pixel w in an encoded row is at 3w + k |
| BmpRoundTrip.RowsAt | bmp.c:155-163 | byte k of pixel (h, w) in the encoded rows is at `h*(3W + pad) + 3w + k`, the offset the reader uses |
| BmpRoundTrip.PixelRoundTrip | bmp.c:87-95 | after any 54-byte header, pixel (h, w) of the written rows is read back from its offset |
| BmpRoundTrip.PixelsRoundTrip | bmp.c:87-95 | decoding the written rows gives back the grid written |
| BmpRoundTrip.WrittenLengthAccepted | bmp.c:73 | a written file passes the length check iff `size - 54` (mod 2^32) equals `H * stride` |
| BmpRoundTrip.BmpRoundTrip | bmp.c:73-95 | a header with the signature and size `54 + H * stride` is written and read back with the same size and dimensions, passes the length check, and the grid is recovered |
| BmpRoundTrip.WriteThenRead | bmp.c:100-166 | `write_bmp` to an empty stream followed by `read_bmp` returns an image with the same dimensions and pixels |
| Draft.ParseHeader | main.c:20-49 | a header is returned iff the first 2 bytes are 0x42 0x4D; it is canonical, with the resolutions left 0 |
| Draft.ParseHeaderAgrees | main.c:36-49 | the draft accepts exactly what bmp.c accepts and returns the same header with both resolutions 0 |
| Draft.ReadBmpHeader | main.c:6-52 | the cursor-based reads return None for a NULL stream and otherwise exactly the draft `ParseHeader` |
| Draft.PixelAt | main.c:73-75 | a pixel read wholly past the end of the stream is black, since the draft's reads leave missing bytes 0 |
| Draft.DecodePixels | main.c:71-76 | pixel i is the triple at `54 + 3i`, taken as blue, red, green, with no padding |
| Draft.PixelCount | main.c:67 | the draft's `width * height` pixel count is the exact product whenever it fits in 32 bits |
| Draft.FreadPixel | main.c:73-75 | the three reads fill blue, red, green from offset o (0 past the end) |
| Draft.ReadData | main.c:54-79 | Some iff header and stream exist (no length check), holding the `width*height` (mod 2^32) decoded pixels |
| Draft.ReadBmp | main.c:81-101 | Some iff the header parses, with that header and the decoded pixels |
| Draft.PixelBytes | main.c:132-134 | a pixel is written as 3 bytes that the draft's own reader takes back as the same pixel |
| Draft.EncodePixels | main.c:131-135 | a run of n pixels encodes to 3n bytes |
| Draft.WriteBmp | main.c:103-137 | false iff stream or image is NULL; otherwise the stream gains the 54-byte header and `width*height` unpadded blue/red/green triples |
| DraftRoundTrip.EncodedAt | main.c:131-135 | byte k of pixel i of the run is at 3i + k |
| DraftRoundTrip.PixelRoundTrip | main.c:71-76 | after any 54-byte header, pixel i of a written run is read back |
| DraftRoundTrip.PixelsRoundTrip | main.c:71-76 | decoding a written run gives back its pixels |
| DraftRoundTrip.RoundTrip | main.c:103-137 | a file the draft writes from a header with the signature is read back to the canonical header with the same size and dimensions, and to the same pixels, for any width |
| DraftRoundTrip.ReadsGreenRedSwapped | main.c:73-75 | on the same unpadded bytes the draft reads every pixel as bmp.c does with green and red exchanged |
| DraftRoundTrip.DraftMisreadsBmp | main.c:73-75 | a 1x1 image written by bmp.c with pixel (1, 2, 3) is read by the draft as (1, 3, 2) |
| Transformations.FlippedH | transformations.c:27-33 | pixel (h, w) of the result is pixel (h, W-1-w) of the input |
| Transformations.FlippedV | transformations.c:61-67 | pixel (h, w) of the result is pixel (H-1-h, w) of the input |
| Transformations.FlipHorizontally | transformations.c:3-35 | a fresh buffer holding the horizontally mirrored grid under `FreshHeader(size, width, height)` |
| Transformations.FlipRowH | transformations.c:28-32 | the inner loop fills row h mirrored and leaves other rows unchanged |
| Transformations.FlipVertically | transformations.c:37-70 | a fresh buffer holding the vertically mirrored grid under the rebuilt header |
| Transformations.FlipRowV | transformations.c:62-66 | the inner loop fills row h from row H-1-h and leaves other rows unchanged |
| Transformations.RotateRight | transformations.c:72-104 | the result is exactly the vertically mirrored grid with width and height unchanged |
| Transformations.RotateColumnRight | transformations.c:97-101 | the inner loop fills column w from row H-1-h and leaves other columns unchanged |
| Transformations.RotateLeft | transformations.c:106-138 | the result is exactly the horizontally mirrored grid with width and height unchanged |
| Transformations.RotateColumnLeft | transformations.c:131-135 | the inner loop fills column w from column W-1-w and leaves other columns unchanged |
| Transformations.FlipHTwice | transformations.c:27-33 | mirroring left to right twice gives back the grid |
| Transformations.FlipVTwice | transformations.c:61-67 | mirroring top to bottom twice gives back the grid |
| Transformations.FlipsCommute | transformations.c:27-67 | the two mirrorings commute |
| Transformations.HalfTurnAt | transformations.c:27-67 | both mirrorings together send pixel (h, w) to (H-1-h, W-1-w) |
| Transformations.CropInBounds | transformations.c:146-156 | the bounds checks; when they pass, the region holds at least one pixel and no more than the source |
| Transformations.Cropped | transformations.c:178-185 | pixel (h, w) of the region is source pixel (H - startY - height + h, startX + w) |
| Transformations.CropWhole | transformations.c:140-189 | cropping the whole image from (0, 0) gives back its grid |
| Transformations.FlipOfBottomUpRows | transformations.c:178-185 | the rows copied bottom-up, flipped vertically, are the region |
| Transformations.Crop | transformations.c:140-189 | None iff a bounds check fails; otherwise a fresh buffer holding the region, header size `54 + 3*width*height` and image size `3*width*height` (mod 2^32) |
| Transformations.CropRow | transformations.c:179-183 | the inner loop's index `(sh-startY-h)*sw - (sw-startX-w)` is source pixel (sh-startY-h-1, startX+w); other rows unchanged |
| Transformations.And | transformations.c:305-307 | `x & m` is at most x and at most m |
| Transformations.AndOnes | transformations.c:305-307 | anding a value below 2^k with k one-bits keeps it |
| Transformations.AndFF | transformations.c:305-307 | `& 0xFF` keeps every byte |
| Transformations.AndIdempotent | transformations.c:305-307 | anding twice with the same mask is anding once |
| Transformations.ChannelMask | transformations.c:252-280 | the masks are None iff some character is not R, G or B; otherwise 0xFF for each channel whose letter occurs, else 0 |
| Transformations.ReadMasks | transformations.c:261-280 | the letter loop yields None iff some letter is not R, G or B, and otherwise mask 0xFF exactly for the channels whose letter occurs |
| Transformations.Masked | transformations.c:305-307 | masking never raises a channel above its input value or above its mask |
| Transformations.Extracted | transformations.c:303-309 | each output pixel is the input pixel with each channel anded with its mask |
| Transformations.ExtractKeepsListedChannels | transformations.c:303-309 | an output channel is the input channel when its letter is given, and 0 otherwise |
| Transformations.ExtractAllIsIdentity | transformations.c:252-309 | the letters R, G, B give back the grid |
| Transformations.ExtractNoneIsBlack | transformations.c:252-309 | the empty string gives an all-black grid |
| Transformations.MaskIgnoresOrder | transformations.c:262-280 | two strings with the same letters give the same masks, whatever the order or repetition |
| Transformations.UnknownLetterRejected | transformations.c:276-277 | any letter other than R, G, B makes the masks fail |
| Transformations.ExtractIdempotent | transformations.c:303-309 | extracting twice with the same letters is extracting once |
| Transformations.Extract | transformations.c:250-312 | None iff image or string is NULL or a letter is rejected (before allocating); otherwise a fresh masked grid under the rebuilt header |
| Transformations.ExtractColumn | transformations.c:304-308 | the inner loop masks column w and leaves other columns unchanged |
| CropSize.CropSizeAcceptedIff | transformations.c:168 | a crop written by `write_bmp` passes `read_data`'s length check iff its width needs no row padding |
| CropSize.OnePixelCropRejected | transformations.c:168 | a 1x1 crop records size 57, and its 58-byte written file fails the length check |
| CropSize.PaddedCropHeader | transformations.c:167-176 | the corrected header is canonical with the crop's dimensions and `size - 54 == height * stride` |
| CropSize.PaddedCropReadsBack | transformations.c:167-176 | a region of any width written under the padded header passes the length check and decodes back to the region |
| CropSize.CropPadded | transformations.c:140-189 | the corrected crop returns the same region, and its written file passes the length check and decodes back to the region for every width |

## Findings

| source | as written | input that shows it | evidently intended | confidence | as-written member | corrected member |
|---|---|---|---|---|---|---|
| transformations.c:168 | `size = OFFSET + pxcount * 3` counts unpadded rows, while `write_bmp` pads every row and `read_data` requires `len - 54 == size - 54` | crop of width 1, height 1: header size 57, written file 58 bytes, so `read_bmp` of the written crop returns NULL | the file size of the padded file, `54 + height * stride`, so that a written crop reads back | not executed | CropSize.CropSizeAcceptedIff | CropSize.CropPadded |

## Left out

**Not modelled at all**
- `scale` (transformations.c:191-248): it takes a `float` factor and uses `round()`. Its inner loop also indexes past the buffers for non-square images, so it has no defined behaviour to state.
- `main()` (main.c:140-153): it opens and closes files at fixed paths.
- `free_bmp_image` and memory management:
  - every `malloc`/`calloc`/`free`;
  - the leak in `crop` and the leaked header in the draft's `read_bmp`;
  - allocation failure, which the source never checks.
- Bmp.ReadBmp: returns None when the header step fails, which is the intended result but not what bmp.c:103-110 does. There the image comes from `malloc`, and `free_bmp_image` frees its uninitialised `data` pointer, which is undefined behaviour. The draft's `read_bmp` (main.c:84) uses `calloc` and does not have this problem.
- All `printf`/`fprintf` diagnostics.

**Simplified**
- Integer fields are read and written as little-endian, i.e. a little-endian host is assumed.
- `bmp.h` and `transformations.h` are not part of this model.
  - `TYPE`, `OFFSET`, `DIB_SIZE`, `PLANES` and `BPP` take the values 0x4d42, 54, 40, 1 and 24 that bmp.c writes.
  - `R`, `G` and `B` are taken as 'r', 'g' and 'b'.
  - `PADDING_CHAR` is taken as zero bytes.
- `extract`'s C string is the sequence of characters before its terminating NUL. A NULL string is `None`.
- The flips, rotations and `crop` dereference the image without a check, so they take an image rather than an `Option`.

**Contracts weaker than the source**
- Bmp.ReadData: when the length check passes, requires the header to satisfy `Fits`: `width * 24 + 31` and `width * height` below 2^32. This excludes the 32-bit wrap of the pixel count and the out-of-bounds writes that would follow. It also excludes the widths from 178956970 up, where the padding expression wraps in 32 bits before it is stored in a `short`; the model does not capture that wrap.
- Bmp.ReadBmp: carries the same `Fits` requirement on the parsed header, again only when the length check passes.
- Bmp.WriteBmp: requires `width * 24 + 31 < 2^32` (the same padding wrap) and a buffer of at least `width * height` pixels; otherwise the source reads out of bounds.
- Draft.WriteBmp: requires a buffer of at least the 32-bit pixel count.
- Transformations.Crop: requires `start_y + height` and `start_x + width` below 2^32 and a source pixel count below 2^32. The source's 32-bit sums can wrap and pass the bounds check.
- Transformations.Extract: requires the string to be at most 32767 characters, so that the `short` index cannot overflow.
- Transformations.FlipHorizontally, Transformations.FlipVertically, Transformations.RotateRight, Transformations.RotateLeft, Transformations.Crop and Transformations.Extract:
  - They require the buffer to hold exactly `width * height` pixels (`Types.Valid`), as every producer allocates it.
  - Otherwise the source reads out of bounds.

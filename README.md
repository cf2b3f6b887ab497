# color_tool_no1 in Dafny

This is a model of the data path of color_tool_no1, a Win32 dialog that paints a canvas from a normal distribution and exports it as a bitmap. The path has five parts:

- **Palette** (`palette.dfy`, module `Palettes`). A grid of colours. A click selects one colour, and a colour file can overwrite the stored colours.
- **Bucket table** (`range.dfy`, module `Ranges`). The sample amplitude range is cut into `grid` buckets. Each bucket holds the id of a palette colour, and one bucket is selected.
- **Canvas** (`canvas.dfy`, module `Canvases`). `pixel.x * pixel.y` cells. Each cell gets the colour id of the bucket its normal sample `s` falls into: the first bucket `i` with `|s| < (11.5 / grid) * (i + 1)`, or the last bucket if there is none.
- **Encoder** (`bitmap.dfy`, module `Bitmap`). `CreateBitmapFile` writes a 24-bit Windows Bitmap:
  - a 54-byte header, made of BITMAPFILEHEADER and BITMAPINFOHEADER with little-endian fields;
  - then the pixel rows, bottom row first, each pixel as the bytes B, G, R;
  - each row is `3 * width + width % 4` bytes long, padded with zeros.
- **Session** (`session.dfy`, module `Session`). The dialog's configuration (a 16 x 16 palette, 20 buckets, a 64 x 64 canvas), the export command and the two mouse handlers.

`types.dfy` holds the shared value types (`RGBVecotr` as `RGB`, `Vector2n`) and the growth rule of `std::vector::resize`. `arith.dfy` holds the multiplication and division facts the offset proofs use.

The classes keep the source's form:

- `Palette`, `Range` and `Canvas` are Dafny classes with the source's fields.
- Vectors are `seq` fields that the methods reassign.
- Loops stay loops.
- Each method is proved against a specification function.

The specification functions and their properties:

- The encoder is specified by `Header`, `Body` and `BitmapFile`.
- The canvas is specified by `Bucket` and `Sampled`.
- `Bucket` is tied to an independent closed form, `floor(|s| * n / 11.5)` capped at the last bucket.
- `Bucket` is shown to be the least qualifying bucket.
- `Bucket` is monotone in `|s|`, symmetric in the sign of `s`, and at 11.5 or beyond it is always the last bucket.

The hit tests keep the source's accepted edge `x == width`. The lemmas show that this edge selects one past the last bucket, and can select one past the last palette colour.

Inputs replace everything the program gets from outside:

- Samples: `seq<real>`, one per cell, in place of the random engine.
- Colour file: the parsed triples.
- File name: a string.
- Failure to open a file: a boolean.
- Clicks: a position relative to each control.
- Control sizes: given to `Create`.

## Model

| member | source | states |
|---|---|---|
| Types.TruncDiv | range.cc:127 | the `static_cast<int>` of the quotient rounds toward zero: for a >= 0 the result q has q*b <= a < q*b + b, for a < 0 it has q*b - b < a <= q*b <= 0 |
| Types.Resize | palette.cc:27 | the result has n entries, entries below the old length keep their values, and the new ones equal the fill value |
| Bitmap.Low8 | utility.cc:125-127 | the byte is a value in 0..255 congruent to the channel modulo 256 (the cast to BYTE) |
| Bitmap.LE32 | utility.cc:88 | four bytes that decode little-endian to the value modulo 2^32 (memcpy of a 32-bit integer) |
| Bitmap.Decode32 | utility.cc:88 | the little-endian reading of four bytes is below 2^32 |
| Bitmap.LE16 | utility.cc:103-108 | two bytes whose little-endian value is the argument |
| Bitmap.Zeros | utility.cc:79 | n bytes, all 0, as the header array starts |
| Bitmap.Stride | utility.cc:86 | the row length 3w + w%4 is a multiple of 4, at least 3w and below 3w + 4, so it is the least multiple of 4 that holds a row |
| Bitmap.Header | utility.cc:79-112 | the header is exactly 54 bytes |
| Bitmap.HeaderFields | utility.cc:79-112 | bytes 0-1 are 'B','M'; fields at 2, 10, 14, 18, 22 and 34 decode to stride*height+54, 54, 40, width, height and width*height*3 (each mod 2^32); bytes 26-31 are 01 00 18 00 00 00; every other byte is 0 |
| Bitmap.FileHeaderFields | utility.cc:82-92 | 'B','M', the file-size field and the pixel-data offset 54 |
| Bitmap.HeaderSizeFields | utility.cc:91-96 | the offset field is 54 and the info-header size field is 40 |
| Bitmap.InfoHeaderDimensions | utility.cc:99-100 | the width and height fields hold width and height |
| Bitmap.InfoHeaderFormat | utility.cc:103-112 | the overlapping plane and bit-count writes leave 01 00 18 00 00 00 at 26-31, and the image-size field is width*height*3 |
| Bitmap.ReservedBytesZero | utility.cc:79-112 | bytes 6-9, 32-33 and 38-53 are never written, and the copy at 28 writes zeros to bytes 30-31; all of them end 0 |
| Bitmap.ImageSizeIgnoresPadding | utility.cc:86-111 | when width is not a multiple of 4, for a positive height, the image-size field is smaller than the actual pixel data |
| Bitmap.Body | utility.cc:115 | the pixel data is stride*height bytes |
| Bitmap.PixelPlacement | utility.cc:118-127 | input pixel i*width+j lands at offset (height-1-i)*stride+3j as its b, g, r bytes, so rows are stored bottom-up |
| Bitmap.BodyChannel | utility.cc:120-127 | channel ch of input pixel (i, j) is byte (height-1-i)*stride+3j+ch of the pixel data |
| Bitmap.PaddingIsZero | utility.cc:115-127 | every row byte at or after 3*width is 0 |
| Bitmap.BitmapFile | utility.cc:79-136 | the corrected file is the header followed by the whole pixel data, and its length is stride*height+54 |
| Bitmap.AsWrittenFile | utility.cc:135-136 | the file as written: header plus the first stride*width bytes of pixel data |
| Bitmap.FileSizeFieldIsLength | utility.cc:87-88 | the corrected file's length equals its file-size field, when that fits in 32 bits |
| Bitmap.AsWrittenSquareIsExact | utility.cc:115-136 | for width == height the file as written is the corrected file |
| Bitmap.AsWrittenTruncates | utility.cc:87-136 | a 1 x 2 image declares 62 bytes but the written file is 58 bytes |
| Bitmap.CreateBitmapFile | utility.cc:69-140 | the result exists exactly when the file opens and the array holds width*height pixels; it is then the corrected file |
| Bitmap.FillImage | utility.cc:115-129 | the pixel loop succeeds exactly when no pixel index reaches array_size, and then yields Body |
| Bitmap.FillRows | utility.cc:118-129 | the outer loop fills all rows or stops at the first pixel index that reaches array_size |
| Bitmap.FillRow | utility.cc:119-128 | one row is filled, or the row stops because a pixel index reaches array_size |
| Bitmap.BuildHeader | utility.cc:79-112 | the header array after its writes equals Header |
| Bitmap.WriteFileHeader | utility.cc:86-92 | the array after the copies at 2 and 10 is FileHeaderWrites of the array before |
| Bitmap.WriteInfoHeader | utility.cc:94-112 | the array after the copies at 14 to 34 is InfoHeaderWrites of the array before |
| Bitmap.FileHeaderWrites | utility.cc:86-92 | the copies keep the 54-byte length |
| Bitmap.InfoHeaderWrites | utility.cc:94-112 | the copies keep the 54-byte length |
| Bitmap.FileHeaderWritesAt | utility.cc:86-92 | the copies set bytes 2-5 and 10-13 to the file-size and offset fields and leave every other byte alone |
| Bitmap.InfoHeaderWritesAt | utility.cc:94-112 | the copies set bytes 14-31 and 34-37 to their fields, with the bit count at 28 overwriting the top of the plane count at 26, and leave every other byte alone |
| Bitmap.Put32 | utility.cc:88 | a memcpy of a 32-bit value replaces exactly four bytes at the offset |
| Bitmap.Poke32 | utility.cc:88 | replacing four bytes keeps the length |
| Bitmap.PokeAt | utility.cc:88 | after the replacement, bytes in the window hold the LE32 bytes and all others are unchanged |
| Bitmap.HeaderWrites | utility.cc:79-112 | the sequence of writes yields 54 bytes |
| Bitmap.HeaderWritesAreTable | utility.cc:79-112 | the write sequence, including the overlapping writes at 26 and 28, produces the byte table Header |
| Bitmap.Slot | utility.cc:120-127 | the write of channel ch of pixel (i, j) lands inside the buffer, in stored row height-1-i at row position 3j+ch |
| Bitmap.FilledStep | utility.cc:120-127 | writing pixel (i, j) moves exactly its three bytes from unfilled to filled |
| Bitmap.PixelStep | utility.cc:120-127 | writing pixel (i, j)'s three bytes into a buffer holding every earlier pixel yields one holding pixel (i, j) too |
| Bitmap.Padded | utility.cc:121-124 | the pixels extended to at least width*height entries agree with the input where it has entries |
| Bitmap.NoneFilled | utility.cc:115 | the zeroed buffer is the state before any pixel is written |
| Bitmap.FilledRow | utility.cc:119-128 | finishing row i is starting row i+1 |
| Bitmap.AllFilled | utility.cc:115-129 | a buffer with every pixel written is Body |
| Palettes.PickupIndex | palette.cc:148-150 | the id is the truncated row grid.y*y/height times grid.x plus the truncated column grid.x*x/width |
| Palettes.PickupIndexDecodes | palette.cc:148-150 | the row-major id ny*grid.x + nx decodes back to row ny and column nx whenever the column lies inside a row |
| Palettes.PickupInRange | palette.cc:148-150 | a click strictly inside the control selects an id in [0, grid.x*grid.y) |
| Palettes.PickupEdgesEscape | palette.cc:142-150 | for every grid and control size, the accepted edge x == width selects grid.x more than x == 0 on the same row (the first colour of the next row), and y == height selects an id of at least grid.x*grid.y (past the last colour) |
| Palettes.Loaded | palette.cc:174-184 | loading keeps the colour count |
| Palettes.LoadedSplits | palette.cc:174-184 | loading writes the first min(\|t\|, color_num) triples in order and keeps the rest |
| Palettes.LoadedIgnoresOverflow | palette.cc:176 | triples past the capacity make no difference |
| Palettes.LoadedPrefix | palette.cc:176 | stopping at the capacity has the effect of the whole load |
| Palettes.Palette.constructor | palette.cc:17 | a new palette has no colours and a 0 x 0 grid |
| Palettes.Palette.Create | palette.cc:19-64 | color_num = grid.x*grid.y; colours resized (kept entries keep values, new ones black); loaded only when read_file is set and the file opens; selection 0 |
| Palettes.Palette.LoadColor | palette.cc:165-187 | an unopenable file returns false and changes nothing; otherwise returns true and the colours become Loaded |
| Palettes.Palette.PickupColor | palette.cc:130-152 | outside [0, size.x] x [0, size.y] it returns false and keeps the selection; otherwise it returns true and selects floor(gy*y/h)*gx + floor(gx*x/w) |
| Palettes.Palette.GetSelectedColor | palette.cc:153-155 | the selected colour is GetColor(GetSelectedColorId()) |
| Palettes.Palette.GetSelectedColorId | palette.cc:156-158 | the id PickupColor last stored |
| Palettes.Palette.GetColor | palette.cc:159-161 | the colour under a valid id is one of the palette's colours |
| Palettes.Palette.GetGrid | palette.cc:162-164 | on a valid palette, grid.x*grid.y is the number of colours |
| Ranges.SelectedBucket | range.cc:127 | for grid, x >= 0 the selection b is the truncated quotient: b*width <= grid*x < b*width + width |
| Ranges.SelectedBucketRange | range.cc:123-133 | an accepted click selects a bucket >= 0; it is < grid exactly when x < width; at x == width it is grid, so a later SetColor would index past the end |
| Ranges.Range.constructor | range.cc:18 | a new table has no buckets |
| Ranges.Range.Create | range.cc:20-52 | grid and the bucket count become grid, entries kept or 0, the selection is 0 |
| Ranges.Range.GetColorId | range.cc:147-149 | the id of a valid bucket is one of the table's ids |
| Ranges.Range.GetGrid | range.cc:150-152 | on a valid table, grid is the number of buckets |
| Ranges.Range.SelectGrid | range.cc:109-130 | outside [0, size.x] x [0, size.y] it returns false and keeps the selection; otherwise it returns true and selects floor(grid*x/width); only the width must be positive, so a zero-height control still accepts clicks at y == 0 |
| Ranges.Range.SetColor | range.cc:131-137 | only the selected bucket changes, to the palette's selected id; the table stays valid; count, grid and selection are unchanged |
| Ranges.Range.SetAllColor | range.cc:138-146 | every bucket holds the palette's selected id, whatever it held before, so a second call changes nothing; count, grid and selection are unchanged |
| Canvases.Fabs | canvas.cc:120 | \|x\| is non-negative and is x or -x |
| Canvases.Delta | canvas.cc:106-107 | the bucket width is positive and n buckets of it span 11.5 |
| Canvases.Exceeds | canvas.cc:120 | the bound test a < delta*(k+1) holds exactly when a/delta < k+1 |
| Canvases.FirstBucket | canvas.cc:118-124 | the scan from bucket g yields a bucket in [g, n) |
| Canvases.Bucket | canvas.cc:114-125 | a sample's bucket is in [0, n) |
| Canvases.FirstBucketIsLeast | canvas.cc:118-124 | the scan yields b exactly when b is the last bucket or its bound exceeds a, and no earlier bound from g on does |
| Canvases.BucketIsLeast | canvas.cc:118-124 | the chosen bucket is the least bucket with \|s\| < delta*(b+1), or grid-1 if none, in both directions |
| Canvases.BoundExceeds | canvas.cc:120 | delta*(k+1) exceeds a >= 0 exactly when floor(a/delta) <= k |
| Canvases.FirstBucketClosedForm | canvas.cc:118-124 | the scan from g equals floor(a/delta) clamped to [g, n-1] |
| Canvases.BucketClosedForm | canvas.cc:106-124 | the bucket is min(floor(\|s\| * grid / 11.5), grid - 1) |
| Canvases.OverflowIsLastBucket | canvas.cc:106-124 | \|s\| >= 11.5 always gives the last bucket, for every bucket count |
| Canvases.BucketMonotone | canvas.cc:119-120 | the bucket does not decrease as \|s\| grows |
| Canvases.BucketSymmetric | canvas.cc:120 | s and -s get the same bucket |
| Canvases.Sampled | canvas.cc:114-125 | one id per sample |
| Canvases.SampledFromTable | canvas.cc:118-121 | every assigned id is one of the table's first grid ids |
| Canvases.SampledIgnoresSign | canvas.cc:120 | negating every sample changes no assigned id |
| Canvases.SampledEdges | canvas.cc:118-124 | samples below 11.5/grid in magnitude get bucket 0's id; those at or beyond 11.5 get the last bucket's id |
| Canvases.Canvas.constructor | canvas.cc:25 | a new canvas has no cells |
| Canvases.Canvas.Create | canvas.cc:27-53 | pixel_num = pixel.x*pixel.y cells, then every cell is drawn by Update |
| Canvases.Canvas.Update | canvas.cc:99-126 | every cell k holds the range id of Bucket(samples[k]), independent of the old cells; the length is unchanged |
| Canvases.Canvas.ScanBuckets | canvas.cc:115-124 | one cell starts at the last bucket's id and ends at its sample's bucket id; no other cell changes |
| Canvases.Canvas.GetPixels | canvas.cc:127-129 | on a valid canvas, pixel.x*pixel.y is the number of cells |
| Canvases.Canvas.GetColorId | canvas.cc:130-132 | the id of a valid cell is one of the canvas ids |
| Session.HasBmpSuffix | main.cc:96-97 | the name passes exactly when its last three characters are 'b', 'm', 'p' |
| Session.ExportArray | main.cc:99-104 | the export array has one palette colour per canvas cell |
| Session.OnCreate | main.cc:26-49 | a 16 x 16 black palette, 20 buckets all holding id 0 with selection 0, and a 64 x 64 canvas whose cells all hold id 0 |
| Session.OnExport | main.cc:90-119 | nothing happens unless the name ends in exactly "bmp"; otherwise the array[k] = GetColor(GetColorId(k)) bitmap is written, failing only when the file cannot be opened, since array_size is width*height; the bytes are those of the corrected encoder, and on a square canvas (every session canvas) they equal the file as written |
| Session.SessionExportIsWhole | main.cc:38-40 | on the session's square 64 x 64 canvas, the file as written equals the corrected file of 192*64+54 bytes, so the write-length fault stays latent |
| Session.OnLButtonDown | main.cc:130-145 | a click on the palette selects a colour and stores it in the selected bucket; any other click goes to SelectGrid; the bucket table stays valid |
| Session.OnRButtonDown | main.cc:147-159 | a click on the palette selects a colour and stores it in every bucket; any other click changes nothing |

## Findings

| source | as written | input that shows it | evidently intended | confidence | as-written member | corrected member |
|---|---|---|---|---|---|---|
| utility.cc:136 | the pixel data is written with length `byte_width * width` | width 1, height 2: the header declares 62 bytes, 58 are written (the top row is lost); with width > height the write reads past the buffer | write the whole buffer, `byte_width * height` bytes (utility.cc:115) | high, not executed | Bitmap.AsWrittenFile, Bitmap.AsWrittenTruncates | Bitmap.CreateBitmapFile, Bitmap.BitmapFile, Bitmap.FileSizeFieldIsLength |

## Left out

- Drawing: `Paint`, `Destroy`, off-screen DCs, pens, brushes and the GDI+ graph image. They are display code with no stated behaviour.
- Window-size queries: the control sizes are `Create` parameters.
- Screen-to-client conversion in `PickupColor` and `SelectGrid`: both take the click relative to the control.
- The file dialogs (`GetPaletteFileName`, `GetExportFileName`), `DialogProc`, `wWinMain`, `OnPaint`, `OnClose` and `OnDestroy`: UI message plumbing.
- The `IDC_LOADCOLOR` and `IDC_GENERATE` branches of `OnCommand`. They are covered as the `Palette.Create` (read_file set) and `Canvas.Update` calls they make.
- Real file I/O: the encoder returns the bytes, and a failed open is a boolean input.
- `fwscanf_s` parsing and malformed colour files: LoadColor takes the parsed triples. Partial matches, which rewrite stale r, g, b values, are therefore not modelled.
- The random engine and `std::normal_distribution`: the samples are an input, and no statistical claim is made.
- IEEE-754 rounding:
  - The bucket bounds `delta * (i + 1)` are exact reals.
  - The hit tests' double divisions are exact integer division truncated toward zero. This requires a positive divisor: both palette control dimensions, and only the width of the range control. A zero divisor is a division by zero in the source.
- 32-bit overflow of `width * 3`, `grid * x`, `pixel.x * pixel.y` and the like: integers are unbounded. The header fields are still reduced modulo 2^32.
- Negative dimensions:
  - Negative bitmap widths and heights are excluded (`nat`).
  - Negative grid and canvas sizes are excluded by `requires`, because `std::vector::resize` would throw on them.
- Canvas.Update: requires `1 <= grid <= |colorId|` whenever there is a cell, because with 0 buckets the source reads bucket -1. The unused palette argument is dropped.
- Range.SetColor: requires the selected bucket to exist, because the source indexes without a check; OnLButtonDown passes this requirement on.
- Session.OnExport: requires the name to have at least 3 characters, and every canvas id to be a valid palette index, because the source indexes both without a check.
- The default constructors leave the int fields uninitialised in C++. The model starts them at 0.
- Session.OnExport: its bytes are those of the corrected encoder `CreateBitmapFile`. It also states that they equal the file as written (`AsWrittenFile`) on a square canvas, but not what the program writes for a canvas wider or taller than it is high; the session's canvas is always 64 x 64.
- The message boxes shown on failure: OnExport reports the failure as `Failed`.
- `CreateBitmapWin8`, `CreateBitmapWin24` and `FILTERINDEX` (utility.h) are declared without bodies and are not part of this model.

/** The 24-bit Windows Bitmap encoder of utility.cc (CreateBitmapFile): a
    54-byte header (the 14-byte BITMAPFILEHEADER and the 40-byte
    BITMAPINFOHEADER) followed by the pixel rows, bottom row first, each
    pixel as the bytes B, G, R and each row padded to a multiple of 4 bytes.
    The file is modelled as the byte sequence that would be written. */
module Bitmap {
  import opened Types
  import opened Arith

  type byte = x: int | 0 <= x < 256

  const FileHeaderSize: nat := 14
  const InfoHeaderSize: nat := 40
  const HeaderSize: nat := FileHeaderSize + InfoHeaderSize
  const TwoTo32: int := 0x1_0000_0000

  /** static_cast<BYTE>: the low 8 bits of a two's complement int. */
  function Low8(v: int): (b: byte)
    ensures (v - b) % 256 == 0
  {
    v % 256
  }

  /** The four bytes memcpy copies out of a 32-bit int or uint32_t on a
      little-endian machine: the value taken modulo 2^32, low byte first. */
  function LE32(v: int): (bs: seq<byte>)
    ensures |bs| == 4
    ensures Decode32(bs) == v % TwoTo32
  {
    var u := v % TwoTo32;
    var q1 := u / 256;
    var q2 := q1 / 256;
    assert u == u % 256 + 256 * q1 && q1 < 16777216;
    assert q1 == q1 % 256 + 256 * q2 && q2 < 65536;
    assert q2 == q2 % 256 + 256 * (q2 / 256) && q2 / 256 < 256;
    [u % 256, q1 % 256, q2 % 256, q2 / 256]
  }

  /** Reads back an unsigned little-endian 32-bit field. */
  function Decode32(bs: seq<byte>): (v: int)
    requires |bs| == 4
    ensures 0 <= v < TwoTo32
  {
    bs[0] as int + 256 * (bs[1] as int) + 65536 * (bs[2] as int) + 16777216 * (bs[3] as int)
  }

  /** Two little-endian bytes of a 16-bit field. */
  function LE16(v: int): (bs: seq<byte>)
    requires 0 <= v < 65536
    ensures |bs| == 2 && bs[0] as int + 256 * (bs[1] as int) == v
  {
    [v % 256, v / 256]
  }

  function Zeros(n: nat): (bs: seq<byte>)
    ensures |bs| == n && forall k :: 0 <= k < n ==> bs[k] == 0
  {
    seq(n, _ => 0)
  }

  /** Bytes per stored row, as utility.cc computes it: 3 bytes per pixel
      plus width % 4 bytes of padding. This is exactly the least multiple
      of 4 that holds 3 * width bytes. */
  function Stride(width: nat): (s: nat)
    ensures s % 4 == 0
    ensures 3 * width <= s < 3 * width + 4
  {
    assert width == 4 * (width / 4) + width % 4;
    3 * width + width % 4
  }

  /** The header as a table from offset to field, following the Windows
      Bitmap format: each byte is the byte of the field that covers it. */
  function HeaderByte(width: nat, height: nat, k: int): (b: byte)
    requires 0 <= k < HeaderSize
  {
    if k < 2 then [66, 77][k]                                 // 'B' 'M'
    else if k < 6 then LE32(Stride(width) * height + HeaderSize)[k - 2]  // file size
    else if k < 10 then 0                                     // reserved
    else if k < 14 then LE32(HeaderSize)[k - 10]              // offset to pixels
    else if k < 18 then LE32(InfoHeaderSize)[k - 14]          // info header size
    else if k < 22 then LE32(width)[k - 18]
    else if k < 26 then LE32(height)[k - 22]
    else if k < 28 then LE16(1)[k - 26]                       // planes
    else if k < 30 then LE16(24)[k - 28]                      // bits per pixel
    else if k < 34 then 0                                     // compression
    else if k < 38 then LE32(width * height * 3)[k - 34]      // image size
    else 0                                                    // resolution, colours
  }

  function Header(width: nat, height: nat): (h: seq<byte>)
    ensures |h| == HeaderSize
  {
    seq(HeaderSize, k requires 0 <= k < HeaderSize => HeaderByte(width, height, k))
  }

  /** The header fields read back at their offsets; every byte that is not
      part of a written field is zero. */
  lemma HeaderFields(width: nat, height: nat)
    ensures var h := Header(width, height);
      && h[0] == 'B' as int && h[1] == 'M' as int
      && Decode32(h[2..6]) == (Stride(width) * height + HeaderSize) % TwoTo32
      && Decode32(h[10..14]) == HeaderSize
      && Decode32(h[14..18]) == InfoHeaderSize
      && Decode32(h[18..22]) == width % TwoTo32
      && Decode32(h[22..26]) == height % TwoTo32
      && h[26..32] == [1, 0, 24, 0, 0, 0]
      && Decode32(h[34..38]) == width * height * 3 % TwoTo32
      && (forall k :: 6 <= k < 10 || 30 <= k < 34 || 38 <= k < HeaderSize ==> h[k] == 0)
  {
    var h := Header(width, height);
    FileHeaderFields(width, height);
    HeaderSizeFields(width, height);
    InfoHeaderDimensions(width, height);
    InfoHeaderFormat(width, height);
    ReservedBytesZero(width, height);
  }

  lemma FileHeaderFields(width: nat, height: nat)
    ensures var h := Header(width, height);
      && h[0] == 'B' as int && h[1] == 'M' as int
      && Decode32(h[2..6]) == (Stride(width) * height + HeaderSize) % TwoTo32
  {
    var h := Header(width, height);
    assert h[2..6] == LE32(Stride(width) * height + HeaderSize);
  }

  lemma HeaderSizeFields(width: nat, height: nat)
    ensures var h := Header(width, height);
      Decode32(h[10..14]) == HeaderSize && Decode32(h[14..18]) == InfoHeaderSize
  {
    var h := Header(width, height);
    assert h[10..14] == LE32(HeaderSize);
    assert h[14..18] == LE32(InfoHeaderSize);
  }

  lemma InfoHeaderDimensions(width: nat, height: nat)
    ensures var h := Header(width, height);
      Decode32(h[18..22]) == width % TwoTo32 && Decode32(h[22..26]) == height % TwoTo32
  {
    var h := Header(width, height);
    assert h[18..22] == LE32(width);
    assert h[22..26] == LE32(height);
  }

  lemma InfoHeaderFormat(width: nat, height: nat)
    ensures var h := Header(width, height);
      h[26..32] == [1, 0, 24, 0, 0, 0] && Decode32(h[34..38]) == width * height * 3 % TwoTo32
  {
    var h := Header(width, height);
    assert h[34..38] == LE32(width * height * 3);
  }

  lemma ReservedBytesZero(width: nat, height: nat)
    ensures var h := Header(width, height);
      forall k :: 6 <= k < 10 || 30 <= k < 34 || 38 <= k < HeaderSize ==> h[k] == 0
  {
  }

  /** The image-size field counts 3 bytes per pixel and no padding, so it
      disagrees with the pixel data actually laid out whenever a row needs
      padding (kept as the source writes it). */
  lemma ImageSizeIgnoresPadding(width: nat, height: nat)
    requires width % 4 != 0 && height > 0
    ensures width * height * 3 < Stride(width) * height
  {
    assert width * 3 < Stride(width);
    MulLtIff(height, width * 3, Stride(width));
    assert width * height * 3 == height * (width * 3);
  }

  // ---------------------------------------------------------------------
  // Pixel data

  /** Byte k of a pixel in B, G, R order. */
  function Channel(c: RGB, k: int): (b: byte)
  {
    if k == 0 then Low8(c.b) else if k == 1 then Low8(c.g) else Low8(c.r)
  }

  /** Byte p of the pixel data: stored row p / stride is input row
      height - 1 - p / stride (rows are bottom-up); within the row the first
      3 * width bytes are pixels and the rest is zero padding. */
  function BodyByte(width: nat, height: nat, pixels: seq<RGB>, p: int): (b: byte)
    requires |pixels| >= width * height
    requires 0 <= p < Stride(width) * height
  {
    var s := Stride(width);
    RowInBlock(p, s, height);
    var col := p % s;
    if col < 3 * width then
      var row := height - 1 - p / s;
      CellIndex(row, col / 3, width, height);
      Channel(pixels[row * width + col / 3], col % 3)
    else
      0
  }

  /** The whole pixel data, stride * height bytes. */
  function Body(width: nat, height: nat, pixels: seq<RGB>): (body: seq<byte>)
    requires |pixels| >= width * height
    ensures |body| == Stride(width) * height
  {
    seq(Stride(width) * height,
        p requires 0 <= p < Stride(width) * height => BodyByte(width, height, pixels, p))
  }

  /** Input pixel k = i * width + j lands, truncated to bytes, as B, G, R at
      offset (height - 1 - i) * stride + 3 * j of the pixel data. */
  lemma PixelPlacement(width: nat, height: nat, pixels: seq<RGB>, i: int, j: int)
    requires |pixels| >= width * height
    requires 0 <= i < height && 0 <= j < width
    ensures var at := (height - 1 - i) * Stride(width) + 3 * j;
      && 0 <= at && at + 3 <= Stride(width) * height
      && 0 <= i * width + j < width * height
      && Body(width, height, pixels)[at..at + 3]
         == [Low8(pixels[i * width + j].b), Low8(pixels[i * width + j].g), Low8(pixels[i * width + j].r)]
  {
    var at := (height - 1 - i) * Stride(width) + 3 * j;
    var body := Body(width, height, pixels);
    BodyChannel(width, height, pixels, i, j, 0);
    BodyChannel(width, height, pixels, i, j, 1);
    BodyChannel(width, height, pixels, i, j, 2);
    assert body[at..at + 3] == [body[at], body[at + 1], body[at + 2]];
  }

  /** Channel ch of input pixel (i, j) is byte (height - 1 - i) * stride +
      3 * j + ch of the pixel data. */
  lemma BodyChannel(width: nat, height: nat, pixels: seq<RGB>, i: int, j: int, ch: int)
    requires |pixels| >= width * height
    requires 0 <= i < height && 0 <= j < width && 0 <= ch < 3
    ensures 0 <= i * width + j < width * height
    ensures var p := (height - 1 - i) * Stride(width) + 3 * j + ch;
      && 0 <= p < Stride(width) * height
      && BodyByte(width, height, pixels, p) == Channel(pixels[i * width + j], ch)
  {
    Slot(width, height, i, j, ch);
    CellIndex(i, j, width, height);
    DivModOf(j, ch, 3);
  }

  /** Padding bytes, those at row positions 3 * width and beyond, are zero. */
  lemma PaddingIsZero(width: nat, height: nat, pixels: seq<RGB>, row: int, col: int)
    requires |pixels| >= width * height
    requires 0 <= row < height && 3 * width <= col < Stride(width)
    ensures 0 <= row * Stride(width) + col < Stride(width) * height
    ensures Body(width, height, pixels)[row * Stride(width) + col] == 0
  {
    DivModOf(row, col, Stride(width));
    CellIndex(row, col, Stride(width), height);
  }

  // ---------------------------------------------------------------------
  // The encoder

  /** The file the encoder should produce: header followed by the whole
      pixel data, so that its length is the file-size field. */
  function BitmapFile(width: nat, height: nat, pixels: seq<RGB>): (f: seq<byte>)
    requires |pixels| >= width * height
    ensures |f| == Stride(width) * height + HeaderSize
    ensures f[..HeaderSize] == Header(width, height)
    ensures f[HeaderSize..] == Body(width, height, pixels)
  {
    Header(width, height) + Body(width, height, pixels)
  }

  /** The file utility.cc writes: the pixel data is written with length
      stride * width instead of stride * height. It reads out of its buffer
      when width > height, which is why it is only defined up to there. */
  function AsWrittenFile(width: nat, height: nat, pixels: seq<RGB>): (f: seq<byte>)
    requires |pixels| >= width * height
    requires width <= height
    ensures |f| == Stride(width) * width + HeaderSize
  {
    MulMonoRight(width, height, Stride(width));
    Header(width, height) + Body(width, height, pixels)[..Stride(width) * width]
  }

  /** The corrected file has exactly the length declared in its header. */
  lemma FileSizeFieldIsLength(width: nat, height: nat, pixels: seq<RGB>)
    requires |pixels| >= width * height
    requires Stride(width) * height + HeaderSize < TwoTo32
    ensures Decode32(BitmapFile(width, height, pixels)[2..6]) == |BitmapFile(width, height, pixels)|
  {
    var f := BitmapFile(width, height, pixels);
    var n := Stride(width) * height + HeaderSize;
    FileHeaderFields(width, height);
    assert f[2..6] == f[..HeaderSize][2..6];
    assert Decode32(f[2..6]) == n % TwoTo32;
    assert n % TwoTo32 == n;
    assert |f| == n;
  }

  /** For a square image the source's write length is right. */
  lemma AsWrittenSquareIsExact(width: nat, height: nat, pixels: seq<RGB>)
    requires |pixels| >= width * height
    requires width == height
    ensures AsWrittenFile(width, height, pixels) == BitmapFile(width, height, pixels)
  {
    assert Body(width, height, pixels)[..Stride(width) * width] == Body(width, height, pixels);
  }

  /** A 1 x 2 image: the header declares 62 bytes, the source writes 58. */
  lemma AsWrittenTruncates()
    ensures Decode32(Header(1, 2)[2..6]) == 62
    ensures |AsWrittenFile(1, 2, [Black, Black])| == 58
  {
    assert Stride(1) == 4;
    FileHeaderFields(1, 2);
  }

  /** CreateBitmapFile (utility.cc), with the pixel data written at its full
      length (see AsWrittenFile). The header is built first, then the pixel
      data; a pixel index reaching arraySize stops the encoder before the
      file is opened, and so does a failure to open the file. None stands
      for "returns false, nothing written". */
  method CreateBitmapFile(openFails: bool, width: nat, height: nat, pixels: seq<RGB>, arraySize: int)
    returns (file: Option<seq<byte>>)
    requires arraySize <= |pixels|
    ensures file.Some? <==> !openFails && (width * height == 0 || width * height <= arraySize)
    ensures file.Some? ==> |pixels| >= width * height && file.value == BitmapFile(width, height, pixels)
  {
    var header := BuildHeader(width, height);
    var image := FillImage(width, height, pixels, arraySize);
    if image.None? {
      return None;
    }
    if openFails {
      return None;
    }
    file := Some(header + image.value);
  }

  /** The pixel loop of CreateBitmapFile: input row i, column j goes to
      stored row height - i - 1 at column 3 * j as B, G, R. Reaching a pixel
      index of arraySize or more abandons the encoding (None). */
  method FillImage(width: nat, height: nat, pixels: seq<RGB>, arraySize: int)
    returns (image: Option<seq<byte>>)
    requires arraySize <= |pixels|
    ensures image.Some? <==> width * height == 0 || width * height <= arraySize
    ensures image.Some? ==> |pixels| >= width * height && image.value == Body(width, height, pixels)
  {
    var s := 3 * width + width % 4;
    assert s == Stride(width);
    MulNonneg(s, height);
    MulNonneg(width, height);
    var a := new byte[s * height](_ => 0);
    // The pixels to compare against; the loop only reads those below
    // arraySize, where the two agree.
    ghost var px := Padded(pixels, width * height);
    NoneFilled(width, height, px, a[..]);
    var ok := FillRows(a, width, height, pixels, arraySize, px);
    if !ok {
      return None;
    }
    AllFilled(width, height, pixels, a[..]);
    image := Some(a[..]);
  }

  /** The pixels extended with black to at least n entries, so that the
      loop invariant can speak of pixel k before the bounds check on k has
      run. */
  ghost function Padded(pixels: seq<RGB>, n: nat): (px: seq<RGB>)
    ensures |px| >= n && |px| >= |pixels|
    ensures forall k :: 0 <= k < |pixels| ==> px[k] == pixels[k]
    ensures |pixels| >= n ==> px == pixels
  {
    if |pixels| >= n then pixels else pixels + seq(n - |pixels|, _ => Black)
  }

  /** The outer loop of the pixel fill, over input rows 0 .. height - 1. */
  method FillRows(a: array<byte>, width: nat, height: nat, pixels: seq<RGB>, arraySize: int,
                  ghost px: seq<RGB>)
    returns (ok: bool)
    requires a.Length == Stride(width) * height
    requires |px| >= width * height && arraySize <= |pixels|
    requires forall k :: 0 <= k < arraySize && k < width * height ==> px[k] == pixels[k]
    requires forall p :: 0 <= p < a.Length ==> a[p] == Expected(width, height, px, 0, 0, p)
    modifies a
    ensures ok <==> width * height == 0 || width * height <= arraySize
    ensures ok ==> forall p :: 0 <= p < a.Length ==> a[p] == Expected(width, height, px, height, 0, p)
  {
    var i := 0;
    while i < height
      invariant 0 <= i <= height
      invariant i * width == 0 || i * width <= arraySize
      invariant forall p :: 0 <= p < a.Length ==> a[p] == Expected(width, height, px, i, 0, p)
    {
      ok := FillRow(a, width, height, pixels, arraySize, i, px);
      if !ok {
        return;
      }
      MulAddRight(i, 1, width);
      i := i + 1;
    }
    ok := true;
  }

  /** One pass of the inner loop: writes the pixels of input row i, or
      stops at the first pixel index that reaches arraySize. */
  method FillRow(a: array<byte>, width: nat, height: nat, pixels: seq<RGB>, arraySize: int,
                 i: nat, ghost px: seq<RGB>)
    returns (ok: bool)
    requires i < height && a.Length == Stride(width) * height
    requires |px| >= width * height && arraySize <= |pixels|
    requires forall k :: 0 <= k < arraySize && k < width * height ==> px[k] == pixels[k]
    requires i * width == 0 || i * width <= arraySize
    requires forall p :: 0 <= p < a.Length ==> a[p] == Expected(width, height, px, i, 0, p)
    modifies a
    ensures ok ==> i * width + width == 0 || i * width + width <= arraySize
    ensures ok ==> forall p :: 0 <= p < a.Length ==> a[p] == Expected(width, height, px, i + 1, 0, p)
    ensures !ok ==> 0 < width * height && arraySize < width * height
  {
    var s := 3 * width + width % 4;
    var j := 0;
    while j < width
      invariant 0 <= j <= width
      invariant i * width + j == 0 || i * width + j <= arraySize
      invariant forall p :: 0 <= p < a.Length ==> a[p] == Expected(width, height, px, i, j, p)
    {
      var index := (height - i - 1) * s + j * 3;
      var pixelId := i * width + j;
      CellIndex(i, j, width, height);
      if pixelId >= arraySize {
        return false;
      }
      Slot(width, height, i, j, 0);
      Slot(width, height, i, j, 2);
      assert px[pixelId] == pixels[pixelId];
      ghost var before: seq<byte> := a[..];
      a[index] := Low8(pixels[pixelId].b);
      a[index + 1] := Low8(pixels[pixelId].g);
      a[index + 2] := Low8(pixels[pixelId].r);
      ghost var next: seq<byte> := before[index := Channel(px[pixelId], 0)];
      next := next[index + 1 := Channel(px[pixelId], 1)];
      next := next[index + 2 := Channel(px[pixelId], 2)];
      assert a[..] == next;
      PixelStep(width, height, px, i, j, before, next);
      j := j + 1;
    }
    forall p | 0 <= p < a.Length
      ensures a[p] == Expected(width, height, px, i + 1, 0, p)
    {
      FilledRow(width, height, i, p);
    }
    return true;
  }

  /** The header bytes as utility.cc fills them: a zeroed 54-byte array, the
      magic, then 4-byte little-endian copies at offsets 2, 10, 14, 18, 22,
      26, 28 and 34. */
  method BuildHeader(width: nat, height: nat) returns (header: seq<byte>)
    ensures header == Header(width, height)
  {
    var a := new byte[HeaderSize](_ => 0);
    a[0], a[1] := 'B' as int, 'M' as int;
    assert a[..] == Zeros(HeaderSize)[0 := 'B' as int][1 := 'M' as int];
    WriteFileHeader(a, width, height);
    WriteInfoHeader(a, width, height);
    header := a[..];
    HeaderWritesAreTable(width, height);
  }

  /** The copies into the file header: the file size and the offset. */
  method WriteFileHeader(a: array<byte>, width: nat, height: nat)
    requires a.Length == HeaderSize
    modifies a
    ensures a[..] == FileHeaderWrites(old(a[..]), width, height)
  {
    var byteWidth := 3 * width + width % 4;
    Put32(a, 2, byteWidth * height + HeaderSize);
    Put32(a, 10, 54);
  }

  /** The copies into the info header: its size, the dimensions, the plane
      and bit counts and the image size. */
  method WriteInfoHeader(a: array<byte>, width: nat, height: nat)
    requires a.Length == HeaderSize
    modifies a
    ensures a[..] == InfoHeaderWrites(old(a[..]), width, height)
  {
    Put32(a, 14, 40);
    Put32(a, 18, width);
    Put32(a, 22, height);
    Put32(a, 26, 1);
    Put32(a, 28, 24);
    Put32(a, 34, width * height * 3);
  }

  /** memcpy_s(&a[offset], 4, &v, 4). */
  method Put32(a: array<byte>, offset: nat, v: int)
    requires offset + 4 <= a.Length
    modifies a
    ensures a[..] == Poke32(old(a[..]), offset, v)
  {
    var bs := LE32(v);
    a[offset], a[offset + 1], a[offset + 2], a[offset + 3] := bs[0], bs[1], bs[2], bs[3];
  }

  /** A byte sequence after a 4-byte little-endian copy at offset. */
  function Poke32(h: seq<byte>, offset: nat, v: int): (r: seq<byte>)
    requires offset + 4 <= |h|
    ensures |r| == |h|
  {
    h[..offset] + LE32(v) + h[offset + 4..]
  }

  lemma PokeAt(h: seq<byte>, offset: nat, v: int)
    requires offset + 4 <= |h|
    ensures forall k :: 0 <= k < |h| ==>
      Poke32(h, offset, v)[k] == if offset <= k < offset + 4 then LE32(v)[k - offset] else h[k]
  {
  }

  function FileHeaderWrites(h: seq<byte>, width: nat, height: nat): (r: seq<byte>)
    requires |h| == HeaderSize
    ensures |r| == HeaderSize
  {
    var h1 := Poke32(h, 2, (3 * width + width % 4) * height + HeaderSize);
    Poke32(h1, 10, 54)
  }

  function InfoHeaderWrites(h: seq<byte>, width: nat, height: nat): (r: seq<byte>)
    requires |h| == HeaderSize
    ensures |r| == HeaderSize
  {
    var h3 := Poke32(h, 14, 40);
    var h4 := Poke32(h3, 18, width);
    var h5 := Poke32(h4, 22, height);
    var h6 := Poke32(h5, 26, 1);
    var h7 := Poke32(h6, 28, 24);
    Poke32(h7, 34, width * height * 3)
  }

  /** The sequence of copies BuildHeader performs. */
  function HeaderWrites(width: nat, height: nat): (h: seq<byte>)
    ensures |h| == HeaderSize
  {
    InfoHeaderWrites(FileHeaderWrites(Zeros(HeaderSize)[0 := 'B' as int][1 := 'M' as int], width, height), width, height)
  }

  /** The file-header copies set bytes 2-5 and 10-13 to their fields and
      leave every other byte alone. */
  lemma FileHeaderWritesAt(x: seq<byte>, width: nat, height: nat)
    requires |x| == HeaderSize
    ensures var r := FileHeaderWrites(x, width, height);
      forall k :: 0 <= k < HeaderSize ==>
        r[k] == if 2 <= k < 6 || 10 <= k < 14 then HeaderByte(width, height, k) else x[k]
  {
    var h1 := Poke32(x, 2, (3 * width + width % 4) * height + HeaderSize);
    PokeAt(x, 2, (3 * width + width % 4) * height + HeaderSize);
    PokeAt(h1, 10, 54);
  }

  /** The info-header copies set bytes 14-31 and 34-37 to their fields and
      leave every other byte alone: the bit count copied at 28 overwrites
      the upper half of the plane count copied at 26, so bytes 26-31 end as
      01 00 18 00 00 00. */
  lemma InfoHeaderWritesAt(x: seq<byte>, width: nat, height: nat)
    requires |x| == HeaderSize
    ensures var r := InfoHeaderWrites(x, width, height);
      forall k :: 0 <= k < HeaderSize ==>
        r[k] == if 14 <= k < 32 || 34 <= k < 38 then HeaderByte(width, height, k) else x[k]
  {
    var h3 := Poke32(x, 14, 40);
    var h4 := Poke32(h3, 18, width);
    var h5 := Poke32(h4, 22, height);
    var h6 := Poke32(h5, 26, 1);
    var h7 := Poke32(h6, 28, 24);
    PokeAt(x, 14, 40);
    PokeAt(h3, 18, width);
    PokeAt(h4, 22, height);
    PokeAt(h5, 26, 1);
    PokeAt(h6, 28, 24);
    PokeAt(h7, 34, width * height * 3);
    assert LE32(1) == [1, 0, 0, 0] && LE32(24) == [24, 0, 0, 0];
  }

  /** The whole sequence of copies produces the field table. */
  lemma HeaderWritesAreTable(width: nat, height: nat)
    ensures HeaderWrites(width, height) == Header(width, height)
  {
    var x0 := Zeros(HeaderSize)[0 := 'B' as int][1 := 'M' as int];
    var x1 := FileHeaderWrites(x0, width, height);
    FileHeaderWritesAt(x0, width, height);
    InfoHeaderWritesAt(x1, width, height);
    var w, t := HeaderWrites(width, height), Header(width, height);
    forall k | 0 <= k < HeaderSize
      ensures w[k] == t[k]
    {
    }
  }

  // ---------------------------------------------------------------------
  // Helpers for the pixel loop

  /** Has the loop that finished input rows below i and pixels below j of
      row i already written byte p? */
  ghost predicate Filled(width: nat, height: nat, i: int, j: int, p: int)
    requires 0 <= p < Stride(width) * height
  {
    var s := Stride(width);
    RowInBlock(p, s, height);
    var row := height - 1 - p / s;
    p % s < 3 * width && (row < i || (row == i && p % s / 3 < j))
  }

  ghost function Expected(width: nat, height: nat, px: seq<RGB>, i: int, j: int, p: int): (b: byte)
    requires |px| >= width * height
    requires 0 <= p < Stride(width) * height
  {
    if Filled(width, height, i, j, p) then BodyByte(width, height, px, p) else 0
  }

  /** Channel ch of pixel (i, j) is at stored row height - 1 - i, column
      3 * j + ch. */
  lemma Slot(width: nat, height: nat, i: int, j: int, ch: int)
    requires 0 <= i < height && 0 <= j < width && 0 <= ch < 3
    ensures var p := (height - i - 1) * Stride(width) + j * 3 + ch;
      && 0 <= p < Stride(width) * height
      && p / Stride(width) == height - 1 - i
      && p % Stride(width) == 3 * j + ch
  {
    var s := Stride(width);
    DivModOf(height - 1 - i, 3 * j + ch, s);
    CellIndex(height - 1 - i, 3 * j + ch, s, height);
  }

  /** Writing pixel (i, j) fills exactly its three bytes. */
  lemma FilledStep(width: nat, height: nat, i: int, j: int, p: int)
    requires 0 <= i < height && 0 <= j < width
    requires 0 <= p < Stride(width) * height
    ensures var at := (height - i - 1) * Stride(width) + j * 3;
      Filled(width, height, i, j + 1, p) <==> Filled(width, height, i, j, p) || at <= p < at + 3
  {
    var s := Stride(width);
    var at := (height - i - 1) * s + j * 3;
    var row, col := p / s, p % s;
    assert p == row * s + col;
    if at <= p < at + 3 {
      Slot(width, height, i, j, p - at);
    }
    if Filled(width, height, i, j + 1, p) && !Filled(width, height, i, j, p) {
      assert row == height - 1 - i && col / 3 == j;
      assert p == at + (col - 3 * j);
    }
  }

  /** Writing the three bytes of pixel (i, j) into a buffer that holds
      everything before it yields a buffer that holds it too. */
  lemma PixelStep(width: nat, height: nat, px: seq<RGB>, i: int, j: int, img: seq<byte>, next: seq<byte>)
    requires |px| >= width * height && 0 <= i < height && 0 <= j < width
    requires |img| == Stride(width) * height
    requires forall p :: 0 <= p < |img| ==> img[p] == Expected(width, height, px, i, j, p)
    requires var at := (height - i - 1) * Stride(width) + j * 3; 0 <= at && at + 3 <= |img|
    requires var at := (height - i - 1) * Stride(width) + j * 3;
      0 <= i * width + j < |px| &&
      next == img[at := Channel(px[i * width + j], 0)][at + 1 := Channel(px[i * width + j], 1)]
                 [at + 2 := Channel(px[i * width + j], 2)]
    ensures forall p :: 0 <= p < |next| ==> next[p] == Expected(width, height, px, i, j + 1, p)
  {
    var at := (height - i - 1) * Stride(width) + j * 3;
    forall p | 0 <= p < |next|
      ensures next[p] == Expected(width, height, px, i, j + 1, p)
    {
      FilledStep(width, height, i, j, p);
      if at <= p < at + 3 {
        BodyChannel(width, height, px, i, j, p - at);
      }
    }
  }

  /** Before the loop nothing is filled: the zeroed buffer is expected. */
  lemma NoneFilled(width: nat, height: nat, px: seq<RGB>, img: seq<byte>)
    requires |px| >= width * height && |img| == Stride(width) * height
    requires forall p :: 0 <= p < |img| ==> img[p] == 0
    ensures forall p :: 0 <= p < |img| ==> img[p] == Expected(width, height, px, 0, 0, p)
  {
    forall p | 0 <= p < |img|
      ensures img[p] == Expected(width, height, px, 0, 0, p)
    {
      RowInBlock(p, Stride(width), height);
    }
  }

  /** Finishing a row is the same as starting the next one. */
  lemma FilledRow(width: nat, height: nat, i: int, p: int)
    requires 0 <= p < Stride(width) * height
    ensures Filled(width, height, i, width, p) == Filled(width, height, i + 1, 0, p)
  {
  }

  /** Once all rows are done, the buffer is the pixel data. */
  lemma AllFilled(width: nat, height: nat, px: seq<RGB>, img: seq<byte>)
    requires |px| >= width * height && |img| == Stride(width) * height
    requires forall p :: 0 <= p < |img| ==> img[p] == Expected(width, height, px, height, 0, p)
    ensures img == Body(width, height, px)
  {
    forall p | 0 <= p < |img|
      ensures img[p] == Body(width, height, px)[p]
    {
      RowInBlock(p, Stride(width), height);
    }
  }
}

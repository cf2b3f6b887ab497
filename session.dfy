/** The dialog handlers of main.cc that carry behaviour: the configuration
    OnCreate sets up, the export command and the two mouse handlers. Each
    handler takes the objects it works on instead of reaching them through
    file-scope globals, the mouse position relative to each control instead of the
    screen position, and the outcome of the file dialog and of opening the
    file as inputs. */
module Session {
  import opened Types
  import opened Bitmap
  import opened Palettes
  import opened Ranges
  import opened Canvases

  /** The session's fixed configuration. */
  const PaletteGrids: Vector2n := Vector2n(16, 16)
  const RangeGrids: int := 20
  const CanvasPixels: Vector2n := Vector2n(64, 64)

  /** What the export command does: nothing for a name without the "bmp"
      suffix, an error message when the encoder fails, or the bytes of the
      written file. */
  datatype ExportOutcome = Skipped | Failed | Written(file: seq<byte>)

  /** Every canvas cell holds the id of an existing palette colour. */
  predicate IdsInPalette(colors: seq<RGB>, ids: seq<int>)
  {
    forall k :: 0 <= k < |ids| ==> 0 <= ids[k] < |colors|
  }

  /** The pixel array the export command hands to the encoder: the palette
      colour of each canvas cell, in cell order. */
  function ExportArray(colors: seq<RGB>, ids: seq<int>): (pixels: seq<RGB>)
    requires IdsInPalette(colors, ids)
    ensures |pixels| == |ids|
    ensures forall k :: 0 <= k < |ids| ==> pixels[k] in colors
  {
    seq(|ids|, k requires 0 <= k < |ids| => colors[ids[k]])
  }

  /** The session's file-name test: the last three characters are exactly
      "bmp", in lower case. */
  predicate HasBmpSuffix(fileName: string)
    requires |fileName| >= 3
    ensures HasBmpSuffix(fileName) <==>
      var n := |fileName|; fileName[n - 3] == 'b' && fileName[n - 2] == 'm' && fileName[n - 1] == 'p'
  {
    fileName[|fileName| - 3..] == "bmp"
  }

  /** OnCreate: a 16 x 16 palette of black colours, read from no file; a
      table of 20 buckets all holding colour id 0; a 64 x 64 canvas drawn
      from that table, so every cell holds id 0. */
  method OnCreate(paletteSize: Vector2n, rangeSize: Vector2n, canvasSize: Vector2n, samples: seq<real>)
    returns (palette: Palette, range: Range, canvas: Canvas)
    requires |samples| == CanvasPixels.x * CanvasPixels.y
    ensures fresh(palette) && fresh(range) && fresh(canvas)
    ensures palette.Valid() && palette.grid == PaletteGrids && palette.size == paletteSize
    ensures palette.colors == seq(256, _ => Black) && palette.selectedColorId == 0
    ensures range.Valid() && range.grid == RangeGrids && range.size == rangeSize
    ensures range.colorId == seq(RangeGrids, _ => 0) && range.selectedGridId == 0
    ensures canvas.Valid() && canvas.pixel == CanvasPixels && canvas.size == canvasSize
    ensures canvas.colorId == seq(CanvasPixels.x * CanvasPixels.y, _ => 0)
  {
    palette := new Palette();
    palette.Create(PaletteGrids, paletteSize, false, false, []);
    range := new Range();
    range.Create(RangeGrids, rangeSize);
    canvas := new Canvas();
    canvas.Create(CanvasPixels, canvasSize, range, samples);
    assert range.colorId == seq(RangeGrids, _ => 0);
    forall k | 0 <= k < |samples|
      ensures canvas.colorId[k] == 0
    {
      var b := Bucket(samples[k], RangeGrids);
      assert canvas.colorId[k] == range.colorId[b];
    }
  }

  /** The IDC_EXPORT branch after the file dialog returned fileName: a name
      ending in "bmp" gets the canvas encoded as a 24-bit bitmap of
      pixel.x by pixel.y pixels, each the palette colour of its cell; the
      bitmap is written unless the file cannot be opened. */
  method OnExport(palette: Palette, canvas: Canvas, fileName: string, openFails: bool)
    returns (outcome: ExportOutcome)
    requires |fileName| >= 3
    requires canvas.Valid() && canvas.pixel.x >= 0 && canvas.pixel.y >= 0
    requires IdsInPalette(palette.colors, canvas.colorId)
    ensures outcome.Skipped? <==> !HasBmpSuffix(fileName)
    ensures outcome.Failed? <==> HasBmpSuffix(fileName) && openFails
    ensures outcome.Written? ==>
      outcome.file == BitmapFile(canvas.pixel.x, canvas.pixel.y, ExportArray(palette.colors, canvas.colorId))
    ensures outcome.Written? && canvas.pixel.x == canvas.pixel.y ==>
      outcome.file == AsWrittenFile(canvas.pixel.x, canvas.pixel.y, ExportArray(palette.colors, canvas.colorId))
  {
    var fileNameLength := |fileName|;
    if fileName[fileNameLength - 3..] != "bmp" {
      return Skipped;
    }
    var pixel := canvas.GetPixels();
    var arraySize := pixel.x * pixel.y;
    var buffer := seq(arraySize, _ => Black);
    var pixelId := 0;
    while pixelId < arraySize
      invariant 0 <= pixelId <= arraySize && |buffer| == arraySize
      invariant forall k :: 0 <= k < pixelId ==> buffer[k] == palette.colors[canvas.colorId[k]]
    {
      buffer := buffer[pixelId := palette.GetColor(canvas.GetColorId(pixelId))];
      pixelId := pixelId + 1;
    }
    assert buffer == ExportArray(palette.colors, canvas.colorId);
    var result := CreateBitmapFile(openFails, pixel.x, pixel.y, buffer, arraySize);
    if result.None? {
      return Failed;
    }
    if pixel.x == pixel.y {
      AsWrittenSquareIsExact(pixel.x, pixel.y, buffer);
    }
    return Written(result.value);
  }

  /** The session's canvas is square, so the encoder's written length,
      stride * width, is the whole body there. */
  lemma SessionExportIsWhole(pixels: seq<RGB>)
    requires |pixels| == CanvasPixels.x * CanvasPixels.y
    ensures AsWrittenFile(CanvasPixels.x, CanvasPixels.y, pixels) == BitmapFile(CanvasPixels.x, CanvasPixels.y, pixels)
    ensures |BitmapFile(CanvasPixels.x, CanvasPixels.y, pixels)| == 192 * 64 + 54
  {
    AsWrittenSquareIsExact(CanvasPixels.x, CanvasPixels.y, pixels);
  }

  /** OnLButtonDown: a click that hits the palette selects its colour and
      stores it in the selected bucket; any other click goes to the bucket
      table as a selection. */
  method OnLButtonDown(palette: Palette, range: Range, paletteX: int, paletteY: int, rangeX: int, rangeY: int)
    requires palette.size.x > 0 && palette.size.y > 0 && range.size.x > 0 && range.Valid()
    requires 0 <= paletteX <= palette.size.x && 0 <= paletteY <= palette.size.y ==>
      0 <= range.selectedGridId < |range.colorId|
    modifies palette`selectedColorId, range`colorId, range`selectedGridId
    ensures range.Valid()
    ensures var hit := 0 <= paletteX <= palette.size.x && 0 <= paletteY <= palette.size.y;
      if hit then
        && palette.selectedColorId == PickupIndex(palette.grid, paletteX, paletteY, palette.size.x, palette.size.y)
        && range.selectedGridId == old(range.selectedGridId)
        && range.colorId == old(range.colorId)[old(range.selectedGridId) := palette.selectedColorId]
      else
        && palette.selectedColorId == old(palette.selectedColorId)
        && range.colorId == old(range.colorId)
        && range.selectedGridId ==
           if 0 <= rangeX <= range.size.x && 0 <= rangeY <= range.size.y
           then SelectedBucket(range.grid, rangeX, range.size.x)
           else old(range.selectedGridId)
  {
    var picked := palette.PickupColor(paletteX, paletteY);
    if picked {
      range.SetColor(palette);
    } else {
      var selected := range.SelectGrid(rangeX, rangeY);
    }
  }

  /** OnRButtonDown: a click that hits the palette selects its colour and
      stores it in every bucket; any other click changes nothing. */
  method OnRButtonDown(palette: Palette, range: Range, paletteX: int, paletteY: int)
    requires palette.size.x > 0 && palette.size.y > 0 && range.Valid()
    modifies palette`selectedColorId, range`colorId
    ensures range.Valid()
    ensures var hit := 0 <= paletteX <= palette.size.x && 0 <= paletteY <= palette.size.y;
      if hit then
        && palette.selectedColorId == PickupIndex(palette.grid, paletteX, paletteY, palette.size.x, palette.size.y)
        && forall k :: 0 <= k < range.grid ==> range.colorId[k] == palette.selectedColorId
      else
        && palette.selectedColorId == old(palette.selectedColorId)
        && range.colorId == old(range.colorId)
  {
    var picked := palette.PickupColor(paletteX, paletteY);
    if picked {
      range.SetAllColor(palette);
    }
  }
}

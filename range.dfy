/** The bucket table of range.cc: the amplitude range is cut into `grid`
    buckets, each holding the id of a palette colour. Drawing (the graph
    image, pens and the off-screen buffer) is not modelled; Create receives
    the size of the range control and SelectGrid the click relative to it. */
module Ranges {
  import opened Types
  import opened Arith
  import opened Palettes

  /** The bucket SelectGrid selects for a click at column x of a control
      `width` wide: grid * x / width, truncated. */
  function SelectedBucket(grid: int, x: int, width: int): (b: int)
    requires width > 0
    ensures grid >= 0 && x >= 0 ==> 0 <= b * width <= grid * x < b * width + width
  {
    TruncDiv(grid * x, width)
  }

  /** Every accepted click selects a bucket at or above 0, and the selection
      is an existing bucket exactly when the click is left of the right edge;
      on the right edge itself it is `grid`, one past the last bucket. */
  lemma SelectedBucketRange(grid: int, x: int, width: int)
    requires grid >= 1 && 0 <= x <= width && width > 0
    ensures 0 <= SelectedBucket(grid, x, width)
    ensures SelectedBucket(grid, x, width) < grid <==> x < width
    ensures x == width ==> SelectedBucket(grid, x, width) == grid
  {
    MulNonneg(grid, x);
    MulLtIff(grid, x, width);
    DivLtIff(grid * x, width, grid);
    if x == width {
      DivModOf(grid, 0, width);
    }
  }

  class Range {
    var grid: int
    var colorNum: int
    var selectedGridId: int
    var size: Vector2n
    var colorId: seq<int>

    ghost predicate Valid()
      reads this
    {
      grid >= 0 && colorNum == grid && |colorId| == grid
    }

    /** A default-constructed table has no buckets. */
    constructor ()
      ensures Valid() && grid == 0 && colorId == [] && selectedGridId == 0
    {
      grid := 0;
      colorNum := 0;
      selectedGridId := 0;
      size := Vector2n(0, 0);
      colorId := [];
    }

    /** Range::Create without its drawing resources: `grid` buckets, kept
        entries keep their colour ids and new ones hold id 0, the control
        size is recorded and the selection is bucket 0. */
    method Create(grid: int, size: Vector2n)
      requires grid >= 0
      modifies this
      ensures Valid() && this.grid == grid && this.size == size && selectedGridId == 0
      ensures colorId == Resize(old(colorId), grid, 0)
    {
      selectedGridId := 0;
      this.grid := grid;
      colorNum := grid;
      colorId := Resize(colorId, grid, 0);
      this.size := size;
      selectedGridId := 0;
    }

    /** Range::SelectGrid on the click (x, y) relative to the control:
        outside [0, size.x] x [0, size.y] it returns false and changes
        nothing; otherwise it selects SelectedBucket. */
    method SelectGrid(x: int, y: int) returns (ok: bool)
      requires size.x > 0
      modifies this`selectedGridId
      ensures ok == (0 <= x <= size.x && 0 <= y <= size.y)
      ensures selectedGridId == if ok then SelectedBucket(grid, x, size.x) else old(selectedGridId)
    {
      if x < 0 || x > size.x || y < 0 || y > size.y {
        return false;
      }
      var nx := TruncDiv(grid * x, size.x);
      selectedGridId := nx;
      return true;
    }

    /** Range::SetColor: the selected bucket takes the palette's selected
        colour id; no other bucket changes. */
    method SetColor(palette: Palette)
      requires Valid() && 0 <= selectedGridId < |colorId|
      modifies this`colorId
      ensures Valid()
      ensures colorId == old(colorId)[selectedGridId := palette.GetSelectedColorId()]
    {
      colorId := colorId[selectedGridId := palette.GetSelectedColorId()];
    }

    /** Range::SetAllColor: every bucket takes the palette's selected colour
        id. */
    method SetAllColor(palette: Palette)
      requires Valid()
      modifies this`colorId
      ensures Valid()
      ensures |colorId| == grid
      ensures forall k :: 0 <= k < grid ==> colorId[k] == palette.GetSelectedColorId()
    {
      var gridId := 0;
      while gridId < grid
        invariant 0 <= gridId <= grid
        invariant Valid()
        invariant forall k :: 0 <= k < gridId ==> colorId[k] == palette.GetSelectedColorId()
      {
        colorId := colorId[gridId := palette.GetSelectedColorId()];
        gridId := gridId + 1;
      }
    }

    /** The colour id held by bucket gridId. */
    function GetColorId(gridId: int): (id: int)
      reads this
      requires 0 <= gridId < |colorId|
      ensures id in colorId
    {
      colorId[gridId]
    }

    /** The bucket count, which is the length of the table. */
    function GetGrid(): (g: int)
      reads this
      ensures Valid() ==> g == |colorId|
    {
      grid
    }
  }
}

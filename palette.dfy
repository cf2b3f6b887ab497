/** The palette store of palette.cc: a grid of grid.x * grid.y colours and
    the id of the selected one. Drawing (pens, brushes, off-screen buffers)
    and the conversion of screen to control coordinates are not modelled:
    Create receives the size of the palette control and PickupColor the click
    relative to the control. */
module Palettes {
  import opened Types
  import opened Arith

  /** The colour id PickupColor selects for a click at (x, y) of a
      width-by-height control showing a grid.x-by-grid.y palette: row
      grid.y * y / height, column grid.x * x / width, each truncated. */
  function PickupIndex(grid: Vector2n, x: int, y: int, width: int, height: int): (id: int)
    requires width > 0 && height > 0
  {
    TruncDiv(grid.y * y, height) * grid.x + TruncDiv(grid.x * x, width)
  }

  /** The row-major id decodes back to its row and column whenever the
      column lies inside a row. */
  lemma PickupIndexDecodes(grid: Vector2n, x: int, y: int, width: int, height: int)
    requires width > 0 && height > 0
    requires 0 <= TruncDiv(grid.x * x, width) < grid.x
    ensures PickupIndex(grid, x, y, width, height) / grid.x == TruncDiv(grid.y * y, height)
    ensures PickupIndex(grid, x, y, width, height) % grid.x == TruncDiv(grid.x * x, width)
  {
    DivModOf(TruncDiv(grid.y * y, height), TruncDiv(grid.x * x, width), grid.x);
  }

  /** A click strictly inside the control selects an existing colour. */
  lemma PickupInRange(grid: Vector2n, x: int, y: int, width: int, height: int)
    requires grid.x >= 1 && grid.y >= 1
    requires 0 <= x < width && 0 <= y < height
    ensures 0 <= PickupIndex(grid, x, y, width, height) < grid.x * grid.y
  {
    MulNonneg(grid.x, x);
    MulNonneg(grid.y, y);
    var nx, ny := grid.x * x / width, grid.y * y / height;
    MulLtIff(grid.x, x, width);
    DivLtIff(grid.x * x, width, grid.x);
    MulLtIff(grid.y, y, height);
    DivLtIff(grid.y * y, height, grid.y);
    CellIndex(ny, nx, grid.x, grid.y);
  }

  /** The accepted right and bottom edges escape: a click on the right edge
      x == width selects column grid.x, which is the first colour of the
      next row, and a click on the bottom edge y == height selects an id past
      the last colour. */
  lemma PickupEdgesEscape(grid: Vector2n, x: int, y: int, width: int, height: int)
    requires grid.x >= 1 && grid.y >= 1 && width > 0 && height > 0
    requires 0 <= x <= width && 0 <= y <= height
    ensures x == width ==>
      PickupIndex(grid, x, y, width, height) == PickupIndex(grid, 0, y, width, height) + grid.x
    ensures y == height ==> PickupIndex(grid, x, y, width, height) >= grid.x * grid.y
  {
    MulNonneg(grid.x, x);
    if x == width {
      DivModOf(grid.x, 0, width);
      assert TruncDiv(grid.x * x, width) == grid.x;
    }
    if y == height {
      DivModOf(grid.y, 0, height);
      assert TruncDiv(grid.y * y, height) == grid.y;
    }
  }

  /** LoadColor's effect on the colours: the parsed triples overwrite the
      first entries in order, as many as fit; the other entries keep their
      values. */
  function Loaded(colors: seq<RGB>, triples: seq<RGB>): (r: seq<RGB>)
    ensures |r| == |colors|
  {
    seq(|colors|, k requires 0 <= k < |colors| => if k < |triples| then triples[k] else colors[k])
  }

  /** Loaded in terms of slices: a prefix of the triples, then the rest of
      the old colours. */
  lemma LoadedSplits(colors: seq<RGB>, triples: seq<RGB>)
    ensures var n := if |triples| < |colors| then |triples| else |colors|;
      Loaded(colors, triples) == triples[..n] + colors[n..]
  {
    var n := if |triples| < |colors| then |triples| else |colors|;
    assert Loaded(colors, triples) == triples[..n] + colors[n..];
  }

  /** Triples past the capacity make no difference. */
  lemma LoadedIgnoresOverflow(colors: seq<RGB>, triples: seq<RGB>, extra: seq<RGB>)
    requires |triples| >= |colors|
    ensures Loaded(colors, triples + extra) == Loaded(colors, triples)
  {
    assert forall k :: 0 <= k < |colors| ==> (triples + extra)[k] == triples[k];
  }

  class Palette {
    var selectedColorId: int
    var colorNum: int
    var grid: Vector2n
    var size: Vector2n
    var colors: seq<RGB>

    ghost predicate Valid()
      reads this
    {
      colorNum == grid.x * grid.y && |colors| == colorNum
    }

    /** A default-constructed palette holds no colours. */
    constructor ()
      ensures Valid() && grid == Vector2n(0, 0) && colors == [] && selectedColorId == 0
    {
      selectedColorId := 0;
      colorNum := 0;
      grid := Vector2n(0, 0);
      size := Vector2n(0, 0);
      colors := [];
    }

    /** Palette::Create without its drawing resources: the colour vector is
        resized to grid.x * grid.y (kept entries keep their values, new ones
        are black), the control size is recorded, the file is loaded when
        readFile is set, and the selection returns to 0. A failed load leaves
        the resized colours; the message box it shows is not modelled. */
    method Create(grid: Vector2n, size: Vector2n, readFile: bool, openFails: bool, triples: seq<RGB>)
      requires grid.x * grid.y >= 0
      modifies this
      ensures Valid() && this.grid == grid && this.size == size
      ensures colorNum == grid.x * grid.y && selectedColorId == 0
      ensures colors == if readFile && !openFails
                        then Loaded(Resize(old(colors), grid.x * grid.y, Black), triples)
                        else Resize(old(colors), grid.x * grid.y, Black)
    {
      this.grid := grid;
      colorNum := grid.x * grid.y;
      colors := Resize(colors, colorNum, Black);
      this.size := size;
      if readFile {
        var loaded := LoadColor(openFails, triples);
      }
      selectedColorId := 0;
    }

    /** Palette::LoadColor on the triples the file parses to: nothing
        changes if the file cannot be opened; otherwise the copy loop writes
        colors[k] := triples[k] until the triples or the capacity run out,
        and returns true in both cases. */
    method LoadColor(openFails: bool, triples: seq<RGB>) returns (ok: bool)
      requires Valid()
      modifies this`colors
      ensures Valid()
      ensures ok == !openFails
      ensures colors == if ok then Loaded(old(colors), triples) else old(colors)
    {
      if openFails {
        return false;
      }
      var colorId := 0;
      while colorId < |triples|
        invariant 0 <= colorId <= |triples|
        invariant colorId <= colorNum
        invariant Valid()
        invariant colors == Loaded(old(colors), triples[..colorId])
      {
        if colorId >= colorNum {
          assert triples[..colorId] == triples[..colorNum];
          LoadedPrefix(old(colors), triples);
          return true;
        }
        colors := colors[colorId := triples[colorId]];
        colorId := colorId + 1;
      }
      assert triples[..colorId] == triples;
      return true;
    }

    /** Palette::PickupColor on the click (x, y) relative to the control:
        outside [0, size.x] x [0, size.y] it returns false and changes
        nothing; otherwise it selects PickupIndex. */
    method PickupColor(x: int, y: int) returns (ok: bool)
      requires size.x > 0 && size.y > 0
      modifies this`selectedColorId
      ensures ok == (0 <= x <= size.x && 0 <= y <= size.y)
      ensures selectedColorId == if ok then PickupIndex(grid, x, y, size.x, size.y) else old(selectedColorId)
    {
      if x < 0 || x > size.x || y < 0 || y > size.y {
        return false;
      }
      var nx := TruncDiv(grid.x * x, size.x);
      var ny := TruncDiv(grid.y * y, size.y);
      selectedColorId := ny * grid.x + nx;
      return true;
    }

    /** The colour stored under colorId. */
    function GetColor(colorId: int): (c: RGB)
      reads this
      requires 0 <= colorId < |colors|
      ensures c in colors
    {
      colors[colorId]
    }

    /** The id PickupColor last selected (0 after Create). */
    function GetSelectedColorId(): (id: int)
      reads this
      ensures id == selectedColorId
    {
      selectedColorId
    }

    /** The selected colour is the colour of the selected id. */
    function GetSelectedColor(): (c: RGB)
      reads this
      requires 0 <= selectedColorId < |colors|
      ensures c == GetColor(GetSelectedColorId())
    {
      colors[selectedColorId]
    }

    /** The palette grid, which gives the number of colours. */
    function GetGrid(): (g: Vector2n)
      reads this
      ensures Valid() ==> g.x * g.y == |colors|
    {
      grid
    }
  }

  /** A load that stops at the capacity has the effect of the whole load. */
  lemma LoadedPrefix(colors: seq<RGB>, triples: seq<RGB>)
    requires |colors| <= |triples|
    ensures Loaded(colors, triples[..|colors|]) == Loaded(colors, triples)
  {
  }
}

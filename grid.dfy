/**
 * The fixed 8 x 6 grid the detector lays over a frame: cell rectangles by
 * integer division, the row-major order in which cells are visited, and
 * the number of changed pixels in a cell.
 */
module Grid {
  import opened Frames

  const GridCellsX: int := 8
  const GridCellsY: int := 6
  const CellTotal: int := GridCellsX * GridCellsY

  /** A grid coordinate (gridX, gridY). */
  type Cell = (int, int)

  predicate IsGridCell(c: Cell)
  {
    0 <= c.0 < GridCellsX && 0 <= c.1 < GridCellsY
  }

  /** android.graphics.Rect: left and top inclusive, right and bottom exclusive. */
  datatype Rect = Rect(left: int, top: int, right: int, bottom: int) {
    predicate Contains(x: int, y: int)
    {
      left <= x < right && top <= y < bottom
    }
  }

  function Min(a: int, b: int): int { if a < b then a else b }

  function CellWidth(width: int): int { width / GridCellsX }
  function CellHeight(height: int): int { height / GridCellsY }

  /** The bounds the detector computes for a cell:
      start = g * cell size, end = min((g + 1) * cell size, frame size). */
  function CellRect(c: Cell, width: int, height: int): Rect
  {
    var cw, ch := CellWidth(width), CellHeight(height);
    Rect(c.0 * cw, c.1 * ch, Min((c.0 + 1) * cw, width), Min((c.1 + 1) * ch, height))
  }

  /** The row-major visiting order: the i-th cell visited. */
  function CellAt(i: int): (c: Cell)
    requires 0 <= i < CellTotal
    ensures IsGridCell(c) && CellIndex(c) == i
  {
    (i % GridCellsX, i / GridCellsX)
  }

  /** Position of a cell in the row-major visiting order. */
  function CellIndex(c: Cell): int
  {
    c.1 * GridCellsX + c.0
  }

  lemma CellIndexInjective(c: Cell)
    requires IsGridCell(c)
    ensures 0 <= CellIndex(c) < CellTotal && CellAt(CellIndex(c)) == c
  {
  }

  lemma MulMonotone(a: int, b: int, k: int)
    requires a <= b && k >= 0
    ensures a * k <= b * k
  {
  }

  /** The min clamp never takes effect: for every grid cell
      (g + 1) * cell size <= grid count * cell size <= frame size. */
  lemma ClampNeverBinds(c: Cell, width: int, height: int)
    requires IsGridCell(c) && width >= 0 && height >= 0
    ensures CellRect(c, width, height)
         == Rect(c.0 * CellWidth(width), c.1 * CellHeight(height),
                 (c.0 + 1) * CellWidth(width), (c.1 + 1) * CellHeight(height))
  {
    MulMonotone(c.0 + 1, GridCellsX, CellWidth(width));
    MulMonotone(c.1 + 1, GridCellsY, CellHeight(height));
  }

  /** Every pixel of a cell lies in the frame, and its flat index
      y * width + x is below width * height. */
  lemma CellInsideFrame(c: Cell, width: int, height: int, x: int, y: int)
    requires IsGridCell(c) && width >= 1 && height >= 1
    requires CellRect(c, width, height).Contains(x, y)
    ensures 0 <= x < width && 0 <= y < height
    ensures 0 <= y * width + x < width * height
  {
    ClampNeverBinds(c, width, height);
    MulMonotone(0, c.0, CellWidth(width));
    MulMonotone(0, c.1, CellHeight(height));
    assert 0 <= x < width && 0 <= y < height;
    FlatIndexInRange(width, height, x, y);
  }

  lemma FlatIndexInRange(width: int, height: int, x: int, y: int)
    requires 0 <= x < width && 0 <= y < height
    ensures 0 <= y * width + x < width * height
  {
    MulMonotone(0, y, width);
    MulMonotone(y + 1, height, width);
    assert (y + 1) * width == y * width + width;
    assert width * height == height * width;
  }

  lemma SameBand(g1: int, g2: int, size: int, v: int)
    requires g1 * size <= v < (g1 + 1) * size
    requires g2 * size <= v < (g2 + 1) * size
    ensures g1 == g2
  {
    if g1 < g2 {
      MulMonotone(g1 + 1, g2, size);
    } else if g2 < g1 {
      MulMonotone(g2 + 1, g1, size);
    }
  }

  /** No pixel lies in two different cells. */
  lemma CellsDisjoint(c1: Cell, c2: Cell, width: int, height: int, x: int, y: int)
    requires IsGridCell(c1) && IsGridCell(c2) && width >= 0 && height >= 0
    requires CellRect(c1, width, height).Contains(x, y)
    requires CellRect(c2, width, height).Contains(x, y)
    ensures c1 == c2
  {
    ClampNeverBinds(c1, width, height);
    ClampNeverBinds(c2, width, height);
    SameBand(c1.0, c2.0, CellWidth(width), x);
    SameBand(c1.1, c2.1, CellHeight(height), y);
  }

  lemma BandOf(v: int, size: int, count: int) returns (g: int)
    requires size > 0 && 0 <= v < count * size
    ensures 0 <= g < count && g * size <= v < (g + 1) * size
  {
    g := v / size;
    if g >= count {
      MulMonotone(count, g, size);
    }
  }

  /** The cells cover exactly [0, 8 * cw) x [0, 6 * ch): a pixel lies in some
      cell iff it is left of column 8 * cw and above row 6 * ch, so the
      remainder columns and rows belong to no cell. */
  lemma CellsCover(width: int, height: int, x: int, y: int)
    requires width >= 0 && height >= 0
    ensures (exists c :: IsGridCell(c) && CellRect(c, width, height).Contains(x, y))
        <==> (0 <= x < GridCellsX * CellWidth(width) && 0 <= y < GridCellsY * CellHeight(height))
  {
    var cw, ch := CellWidth(width), CellHeight(height);
    if 0 <= x < GridCellsX * cw && 0 <= y < GridCellsY * ch {
      var gx := BandOf(x, cw, GridCellsX);
      var gy := BandOf(y, ch, GridCellsY);
      ClampNeverBinds((gx, gy), width, height);
      assert CellRect((gx, gy), width, height).Contains(x, y);
    }
    if c :| IsGridCell(c) && CellRect(c, width, height).Contains(x, y) {
      ClampNeverBinds(c, width, height);
      MulMonotone(0, c.0, cw);
      MulMonotone(0, c.1, ch);
      MulMonotone(c.0 + 1, GridCellsX, cw);
      MulMonotone(c.1 + 1, GridCellsY, ch);
    }
  }

  /** mask[i] for a flat index the detector checks against diffPixels.size. */
  predicate Marked(mask: seq<bool>, i: int)
  {
    0 <= i < |mask| && mask[i]
  }

  /** Changed pixels of row y between columns x0 (inclusive) and x1. */
  function RowCount(mask: seq<bool>, width: int, y: int, x0: int, x1: int): nat
    decreases x1 - x0
  {
    if x1 <= x0 then 0
    else RowCount(mask, width, y, x0, x1 - 1) + (if Marked(mask, y * width + x1 - 1) then 1 else 0)
  }

  /** Changed pixels of the rectangle [x0, x1) x [y0, y1). */
  function RectCount(mask: seq<bool>, width: int, x0: int, x1: int, y0: int, y1: int): nat
    decreases y1 - y0
  {
    if y1 <= y0 then 0
    else RectCount(mask, width, x0, x1, y0, y1 - 1) + RowCount(mask, width, y1 - 1, x0, x1)
  }

  /** cellMotionPixels */
  function CellMotionPixels(mask: seq<bool>, width: int, height: int, c: Cell): nat
  {
    var r := CellRect(c, width, height);
    RectCount(mask, width, r.left, r.right, r.top, r.bottom)
  }

  /** cellTotalPixels */
  function CellTotalPixels(width: int, height: int, c: Cell): int
  {
    var r := CellRect(c, width, height);
    (r.right - r.left) * (r.bottom - r.top)
  }

  /** A cell shows enough motion when at least twice the frame threshold of
      its pixels changed (0.8 percent); an empty cell never does. */
  predicate CellQualifies(mask: seq<bool>, width: int, height: int, c: Cell)
  {
    AtLeastPermille(CellMotionPixels(mask, width, height, c), CellTotalPixels(width, height, c),
                    2 * MotionAreaThresholdPermille)
  }

  lemma {:induction false} RowCountBounded(mask: seq<bool>, width: int, y: int, x0: int, x1: int)
    requires x0 <= x1
    ensures RowCount(mask, width, y, x0, x1) <= x1 - x0
    decreases x1 - x0
  {
    if x1 > x0 {
      RowCountBounded(mask, width, y, x0, x1 - 1);
    }
  }

  lemma {:induction false} RectCountBounded(mask: seq<bool>, width: int, x0: int, x1: int, y0: int, y1: int)
    requires x0 <= x1 && y0 <= y1
    ensures RectCount(mask, width, x0, x1, y0, y1) <= (x1 - x0) * (y1 - y0)
    decreases y1 - y0
  {
    if y1 > y0 {
      RectCountBounded(mask, width, x0, x1, y0, y1 - 1);
      RowCountBounded(mask, width, y1 - 1, x0, x1);
      assert (x1 - x0) * (y1 - y0) == (x1 - x0) * (y1 - 1 - y0) + (x1 - x0);
    }
  }

  /** The marked pixels of row y between columns x0 (inclusive) and x1. */
  function RowCells(mask: seq<bool>, width: int, y: int, x0: int, x1: int): set<(int, int)>
  {
    set x | x0 <= x < x1 && Marked(mask, y * width + x) :: (x, y)
  }

  /** The marked pixels of the rectangle [x0, x1) x [y0, y1). */
  function RectCells(mask: seq<bool>, width: int, x0: int, x1: int, y0: int, y1: int): set<(int, int)>
  {
    set x, y | x0 <= x < x1 && y0 <= y < y1 && Marked(mask, y * width + x) :: (x, y)
  }

  /** The row count is the number of marked pixels of the row. */
  lemma {:induction false} RowCountIsCardinality(mask: seq<bool>, width: int, y: int, x0: int, x1: int)
    requires x0 <= x1
    ensures RowCount(mask, width, y, x0, x1) == |RowCells(mask, width, y, x0, x1)|
    decreases x1 - x0
  {
    if x1 > x0 {
      RowCountIsCardinality(mask, width, y, x0, x1 - 1);
      var before := RowCells(mask, width, y, x0, x1 - 1);
      assert (x1 - 1, y) !in before;
      if Marked(mask, y * width + x1 - 1) {
        assert RowCells(mask, width, y, x0, x1) == before + {(x1 - 1, y)};
      } else {
        assert RowCells(mask, width, y, x0, x1) == before;
      }
    }
  }

  /** The rectangle count is the number of marked pixels of the rectangle,
      each pixel (x, y) marked at flat index y * width + x. */
  lemma {:induction false} RectCountIsCardinality(mask: seq<bool>, width: int, x0: int, x1: int, y0: int, y1: int)
    requires x0 <= x1 && y0 <= y1
    ensures RectCount(mask, width, x0, x1, y0, y1) == |RectCells(mask, width, x0, x1, y0, y1)|
    decreases y1 - y0
  {
    if y1 > y0 {
      RectCountIsCardinality(mask, width, x0, x1, y0, y1 - 1);
      RowCountIsCardinality(mask, width, y1 - 1, x0, x1);
      var above := RectCells(mask, width, x0, x1, y0, y1 - 1);
      var row := RowCells(mask, width, y1 - 1, x0, x1);
      assert RectCells(mask, width, x0, x1, y0, y1) == above + row;
      assert above * row == {};
    }
  }

  /** A cell's motion pixel count is the number of its marked pixels. */
  lemma CellMotionIsCardinality(mask: seq<bool>, width: int, height: int, c: Cell)
    requires IsGridCell(c) && width >= 0 && height >= 0
    ensures
      var r := CellRect(c, width, height);
      CellMotionPixels(mask, width, height, c) == |RectCells(mask, width, r.left, r.right, r.top, r.bottom)|
  {
    ClampNeverBinds(c, width, height);
    var r := CellRect(c, width, height);
    RectCountIsCardinality(mask, width, r.left, r.right, r.top, r.bottom);
  }

  /** Every cell has cw * ch pixels and at most that many of them changed. */
  lemma CellCountBounded(mask: seq<bool>, width: int, height: int, c: Cell)
    requires IsGridCell(c) && width >= 0 && height >= 0
    ensures CellTotalPixels(width, height, c) == CellWidth(width) * CellHeight(height)
    ensures CellMotionPixels(mask, width, height, c) <= CellTotalPixels(width, height, c)
  {
    ClampNeverBinds(c, width, height);
    var r := CellRect(c, width, height);
    assert r.right - r.left == CellWidth(width);
    assert r.bottom - r.top == CellHeight(height);
    RectCountBounded(mask, width, r.left, r.right, r.top, r.bottom);
  }

  /** A frame narrower than 8 or lower than 6 pixels has empty cells, and an
      empty cell (NaN percentage in the source) never qualifies. */
  lemma SmallFrameNoCellQualifies(mask: seq<bool>, width: int, height: int, c: Cell)
    requires IsGridCell(c) && 0 <= width && 0 <= height
    requires width < GridCellsX || height < GridCellsY
    ensures !CellQualifies(mask, width, height, c)
  {
    CellCountBounded(mask, width, height, c);
  }

  /** motionRegions after a grid pass over the first n cells: the rectangles
      of the qualifying cells, in visiting order. */
  function QualifyingRects(mask: seq<bool>, width: int, height: int, n: int): seq<Rect>
    requires 0 <= n <= CellTotal
  {
    if n == 0 then []
    else
      var c := CellAt(n - 1);
      QualifyingRects(mask, width, height, n - 1)
        + (if CellQualifies(mask, width, height, c) then [CellRect(c, width, height)] else [])
  }

  /** The rectangles of a list of cells, in the same order. */
  function RectsOf(cells: seq<Cell>, width: int, height: int): (rects: seq<Rect>)
    ensures |rects| == |cells|
    ensures forall i :: 0 <= i < |cells| ==> rects[i] == CellRect(cells[i], width, height)
  {
    if cells == [] then [] else [CellRect(cells[0], width, height)] + RectsOf(cells[1..], width, height)
  }
}

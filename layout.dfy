/**
 * Grid geometry of rendercsv (src/main.rs, lines 17-21, 116-134, 200-201,
 * 219-220). All sizes are pixels. The source computes them in `u32`; here
 * they are unbounded naturals, with the source's subtractions guarded by
 * preconditions that keep them from going below zero.
 */
module Layout {

  const MarginRight: nat := 5
  const MarginLeft: nat := 5
  const MarginTop: nat := 5

  /** The largest `u32` plus one. */
  const U32Limit: nat := 0x1_0000_0000

  /** The band sizes of a grid: the first (header) row and the other rows,
      the first column and the other columns. */
  datatype Grid = Grid(firstRowHeight: nat, rowHeight: nat, firstColumnWidth: nat, columnWidth: nat)

  /** The first row and column are at least as large as the others, so that
      the `u32` subtractions of the source do not wrap around. */
  predicate Ordered(g: Grid)
  {
    g.firstColumnWidth >= g.columnWidth && g.firstRowHeight >= g.rowHeight
  }

  /** The size of band `k` along one axis: `first` for band 0, `size` after. */
  function Band(first: nat, size: nat, k: nat): nat
  {
    if k == 0 then first else size
  }

  /** The total size of the first `k` bands: the reference for the offsets. */
  function Span(first: nat, size: nat, k: nat): nat
  {
    if k == 0 then 0 else Span(first, size, k - 1) + Band(first, size, k - 1)
  }

  /** The offset of grid line `k` along one axis, computed as the closures
      `getx` and `gety` do: start at the margin, add `size * k`, and for
      `k >= 1` add `first - size`. Line `k` lies after `k` whole bands. */
  function Line(margin: nat, first: nat, size: nat, k: nat): (r: nat)
    requires k >= 1 ==> first >= size
    ensures r == margin + Span(first, size, k)
  {
    SpanClosedForm(first, size, k);
    var x := margin + size * k;
    if k >= 1 then x + (first - size) else x
  }

  lemma {:induction false} SpanClosedForm(first: nat, size: nat, k: nat)
    ensures k >= 1 ==> Span(first, size, k) == first + (k - 1) * size
  {
    if k >= 2 {
      SpanClosedForm(first, size, k - 1);
      assert (k - 1) * size == (k - 2) * size + size;
    }
  }

  /** `getx(j)`, the x offset of vertical grid line `j`: the left margin
      plus the widths of the `j` columns before it. */
  function GetX(g: Grid, j: nat): (r: nat)
    requires j >= 1 ==> g.firstColumnWidth >= g.columnWidth
    ensures r == MarginLeft + Span(g.firstColumnWidth, g.columnWidth, j)
  {
    Line(MarginLeft, g.firstColumnWidth, g.columnWidth, j)
  }

  /** `gety(i)`, the y offset of horizontal grid line `i`: the top margin
      plus the heights of the `i` rows above it. */
  function GetY(g: Grid, i: nat): (r: nat)
    requires i >= 1 ==> g.firstRowHeight >= g.rowHeight
    ensures r == MarginTop + Span(g.firstRowHeight, g.rowHeight, i)
  {
    Line(MarginTop, g.firstRowHeight, g.rowHeight, i)
  }

  /** Consecutive grid lines are one band apart: the first band is `first`
      wide, every later one `size`. */
  lemma LineStep(margin: nat, first: nat, size: nat, k: nat)
    requires first >= size
    ensures Line(margin, first, size, 0) == margin
    ensures Line(margin, first, size, k + 1) == Line(margin, first, size, k) + Band(first, size, k)
  {
  }

  /** Grid lines are in increasing order of their index. */
  lemma {:induction false} LineMonotone(margin: nat, first: nat, size: nat, j: nat, k: nat)
    requires first >= size && j <= k
    ensures Line(margin, first, size, j) <= Line(margin, first, size, k)
    decreases k - j
  {
    if j < k {
      LineMonotone(margin, first, size, j, k - 1);
    }
  }

  /** `table_width` (and, with rows, `table_height`): `n * size + first - size`,
      the total size of `n` bands. Needs only `n >= 1` to stay non-negative. */
  function Extent(first: nat, size: nat, n: nat): (r: nat)
    requires n >= 1
    ensures r == Span(first, size, n)
  {
    SpanClosedForm(first, size, n);
    assert n * size == (n - 1) * size + size;
    n * size + first - size
  }

  /** `table_width`: the widths of all `ncols` columns added up. */
  function TableWidth(g: Grid, ncols: nat): (r: nat)
    requires ncols >= 1
    ensures r == Span(g.firstColumnWidth, g.columnWidth, ncols)
  {
    Extent(g.firstColumnWidth, g.columnWidth, ncols)
  }

  /** `table_height`: the heights of all `nrows` rows added up. */
  function TableHeight(g: Grid, nrows: nat): (r: nat)
    requires nrows >= 1
    ensures r == Span(g.firstRowHeight, g.rowHeight, nrows)
  {
    Extent(g.firstRowHeight, g.rowHeight, nrows)
  }

  /** The outermost grid lines bound the table: the last vertical line is at
      `MARGIN_LEFT + table_width`, the last horizontal one at
      `MARGIN_TOP + table_height`, and every line lies between the margin and
      those. */
  lemma OuterLinesBoundTable(g: Grid, ncols: nat, nrows: nat, j: nat, i: nat)
    requires Ordered(g) && ncols >= 1 && nrows >= 1 && j <= ncols && i <= nrows
    ensures GetX(g, ncols) == MarginLeft + TableWidth(g, ncols)
    ensures GetY(g, nrows) == MarginTop + TableHeight(g, nrows)
    ensures MarginLeft <= GetX(g, j) <= GetX(g, ncols)
    ensures MarginTop <= GetY(g, i) <= GetY(g, nrows)
  {
    LineMonotone(MarginLeft, g.firstColumnWidth, g.columnWidth, 0, j);
    LineMonotone(MarginLeft, g.firstColumnWidth, g.columnWidth, j, ncols);
    LineMonotone(MarginTop, g.firstRowHeight, g.rowHeight, 0, i);
    LineMonotone(MarginTop, g.firstRowHeight, g.rowHeight, i, nrows);
  }

  /** When the outer grid lines fit in a `u32`, every grid line does: none of
      the offsets wraps around. */
  lemma LinesFitWhenTableFits(g: Grid, ncols: nat, nrows: nat, j: nat, i: nat)
    requires Ordered(g) && ncols >= 1 && nrows >= 1 && j <= ncols && i <= nrows
    requires MarginLeft + TableWidth(g, ncols) < U32Limit
    requires MarginTop + TableHeight(g, nrows) < U32Limit
    ensures GetX(g, j) < U32Limit && GetY(g, i) < U32Limit
  {
    OuterLinesBoundTable(g, ncols, nrows, j, i);
  }

  /** A rectangle given by its top-left corner and its size. */
  datatype Rect = Rect(left: nat, top: nat, width: nat, height: nat)

  /** Cell (i, j) can be drawn: its column and row are at least one pixel wide,
      so `getx(j + 1) - getx(j) - 1` and `gety(i + 1) - gety(i) - 1` do not go
      below zero. */
  predicate Drawable(g: Grid, i: nat, j: nat)
  {
    Ordered(g) &&
    Band(g.firstColumnWidth, g.columnWidth, j) >= 1 &&
    Band(g.firstRowHeight, g.rowHeight, i) >= 1
  }

  /** The background rectangle of a cell that is not rotated (src/main.rs:200-201):
      inset by one pixel, it fills exactly the space strictly between the
      cell's two vertical and its two horizontal grid lines. */
  function CellRect(g: Grid, i: nat, j: nat): (r: Rect)
    requires Drawable(g, i, j)
    ensures r.left == GetX(g, j) + 1 && r.left + r.width == GetX(g, j + 1)
    ensures r.top == GetY(g, i) + 1 && r.top + r.height == GetY(g, i + 1)
    ensures r.width == Band(g.firstColumnWidth, g.columnWidth, j) - 1
    ensures r.height == Band(g.firstRowHeight, g.rowHeight, i) - 1
  {
    LineStep(MarginLeft, g.firstColumnWidth, g.columnWidth, j);
    LineStep(MarginTop, g.firstRowHeight, g.rowHeight, i);
    Rect(GetX(g, j) + 1, GetY(g, i) + 1,
         GetX(g, j + 1) - GetX(g, j) - 1, GetY(g, i + 1) - GetY(g, i) - 1)
  }

  /** The size (width, height) of the scratch image of a rotated cell
      (src/main.rs:219-220): the row's height by the column's width. */
  function SubimageSize(g: Grid, i: nat, j: nat): (r: (nat, nat))
    requires Drawable(g, i, j)
    ensures r.0 == Band(g.firstRowHeight, g.rowHeight, i) - 1
    ensures r.1 == Band(g.firstColumnWidth, g.columnWidth, j) - 1
  {
    LineStep(MarginLeft, g.firstColumnWidth, g.columnWidth, j);
    LineStep(MarginTop, g.firstRowHeight, g.rowHeight, i);
    (GetY(g, i + 1) - GetY(g, i) - 1, GetX(g, j + 1) - GetX(g, j) - 1)
  }

  /** A rotation by 270 degrees turns a `w` by `h` image into an `h` by `w` one. */
  function Rotate270Size(size: (nat, nat)): (nat, nat)
  {
    (size.1, size.0)
  }

  /** Where a rotated cell lands: its scratch image, rotated, pasted at
      `(getx(j) + 1, gety(i) + 1)` (src/main.rs:238-243). */
  function RotatedArea(g: Grid, i: nat, j: nat): (r: Rect)
    requires Drawable(g, i, j)
    ensures r == CellRect(g, i, j)
  {
    var size := Rotate270Size(SubimageSize(g, i, j));
    Rect(GetX(g, j) + 1, GetY(g, i) + 1, size.0, size.1)
  }

  /** The scratch image of a rotated cell is the cell rectangle with width and
      height swapped, so after the rotation it covers exactly the rectangle
      an unrotated cell would fill. */
  lemma RotatedCellFillsCell(g: Grid, i: nat, j: nat)
    requires Drawable(g, i, j)
    ensures SubimageSize(g, i, j) == (CellRect(g, i, j).height, CellRect(g, i, j).width)
    ensures RotatedArea(g, i, j) == CellRect(g, i, j)
  {
  }
}

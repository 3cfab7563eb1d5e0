/**
 * The main pipeline of rendercsv (src/main.rs, `main`): the checks that
 * reject a configuration or an input, the table's dimensions, the grid
 * lines it draws, and what it paints in each cell.
 *
 * Reading files, decoding the font, parsing CSV, converting colours and
 * rasterising are library calls and not part of this model: the loaded
 * table arrives as a value, and drawing is described by the geometry and
 * colours handed to the drawing calls.
 */
module Render {
  import opened Wrappers
  import opened Directives
  import opened Layout

  /** The ways `main` gives up. */
  datatype Error =
    | WidthTooSmall
    | HeightTooSmall
    | InputError(message: string)  // font or CSV could not be read
    | EmptyCsv

  function Message(e: Error): string
  {
    match e
    case WidthTooSmall => "Image width too small"
    case HeightTooSmall => "Image height too small"
    case InputError(m) => m
    case EmptyCsv => "Empty csv"
  }

  /** The sizing options (the command line's `-W -H -Y -y -X -x`). */
  datatype Options = Options(
    width: nat, height: nat,
    firstRowHeight: nat, rowHeight: nat,
    firstColumnWidth: nat, columnWidth: nat)

  const DefaultOptions := Options(1280, 720, 60, 16, 80, 60)

  function GridOf(o: Options): Grid
  {
    Grid(o.firstRowHeight, o.rowHeight, o.firstColumnWidth, o.columnWidth)
  }

  /** The check on the canvas size (src/main.rs:78-83), made before any file
      is opened: the width must hold both side margins, the height the top one. */
  function CheckCanvas(width: nat, height: nat): (r: Option<Error>)
    ensures r == Some(WidthTooSmall) <==> width < 10
    ensures r == Some(HeightTooSmall) <==> 10 <= width && height < 5
    ensures r == None <==> 10 <= width && 5 <= height
    ensures r.Some? ==>
              Message(r.value) == (if width < 10 then "Image width too small" else "Image height too small")
  {
    if width < MarginLeft + MarginRight then Some(WidthTooSmall)
    else if height < MarginTop then Some(HeightTooSmall)
    else None
  }

  /** A loaded CSV file: its header record and its data records. */
  datatype Table = Table(header: seq<string>, rows: seq<seq<string>>)

  /** Every record has as many fields as the header. The CSV reader refuses
      any other file, so every loaded table is rectangular. */
  predicate Rectangular(t: Table)
  {
    forall k | 0 <= k < |t.rows| :: |t.rows[k]| == |t.header|
  }

  /** The number of grid columns and of grid rows (the header row included). */
  datatype Shape = Shape(ncols: nat, nrows: nat)

  /** Everything `main` has decided before drawing. */
  datatype Plan = Plan(grid: Grid, table: Table, shape: Shape)

  /** `main` up to the first drawing call (src/main.rs:78-109): check the
      canvas, then take the loaded input, then reject an empty table; else
      `ncols` is the length of the first data record and `nrows` counts the
      data records plus the header. */
  function Prepare(o: Options, input: Result<Table, string>): (r: Result<Plan, Error>)
    ensures r.Ok? <==> CheckCanvas(o.width, o.height).None? && input.Ok?
                       && |input.value.rows| > 0 && |input.value.rows[0]| > 0
    ensures r.Ok? ==> r.value.grid == GridOf(o) && r.value.table == input.value
                       && r.value.shape.ncols == |input.value.rows[0]| >= 1
                       && r.value.shape.nrows == |input.value.rows| + 1 >= 2
    ensures CheckCanvas(o.width, o.height).Some? ==> r == Err(CheckCanvas(o.width, o.height).value)
    ensures CheckCanvas(o.width, o.height).None? && input.Err? ==> r == Err(InputError(input.error))
    ensures CheckCanvas(o.width, o.height).None? && input.Ok? && r.Err? ==> r.error == EmptyCsv
  {
    match CheckCanvas(o.width, o.height)
    case Some(e) => Err(e)
    case None =>
      match input
      case Err(m) => Err(InputError(m))
      case Ok(t) =>
        if |t.rows| == 0 || |t.rows[0]| == 0 then Err(EmptyCsv)
        else Ok(Plan(GridOf(o), t, Shape(|t.rows[0]|, |t.rows| + 1)))
  }

  /** A canvas that is too small is reported whatever the input holds: the
      input is not looked at before the canvas check passes. */
  lemma CanvasCheckedFirst(o: Options, a: Result<Table, string>, b: Result<Table, string>)
    requires o.width < 10 || o.height < 5
    ensures Prepare(o, a) == Prepare(o, b)
    ensures Prepare(o, a).Err? && Prepare(o, a).error in {WidthTooSmall, HeightTooSmall}
  {
  }

  /** A grid of a rectangular table has one column per header field. */
  lemma ColumnsMatchHeader(o: Options, t: Table)
    requires Rectangular(t) && Prepare(o, Ok(t)).Ok?
    ensures Prepare(o, Ok(t)).value.shape.ncols == |t.header|
  {
  }

  /** The default options pass the canvas check and make a grid whose first
      row and column are the largest and whose bands are all drawable. */
  lemma DefaultsAreUsable(i: nat, j: nat)
    ensures CheckCanvas(DefaultOptions.width, DefaultOptions.height).None?
    ensures Drawable(GridOf(DefaultOptions), i, j)
  {
  }

  /** A straight line from (x0, y0) to (x1, y1). */
  datatype Segment = Segment(x0: nat, y0: nat, x1: nat, y1: nat)

  /** The grid lines, in the order the two loops of src/main.rs:136-153 draw
      them: `nrows + 1` horizontal lines across the table's width, then
      `ncols + 1` vertical lines down its height. */
  method GridLines(p: Plan) returns (lines: seq<Segment>)
    requires Ordered(p.grid) && p.shape.ncols >= 1 && p.shape.nrows >= 1
    ensures |lines| == p.shape.nrows + 1 + p.shape.ncols + 1
    ensures forall i | 0 <= i <= p.shape.nrows ::
              lines[i] == Segment(GetX(p.grid, 0), GetY(p.grid, i), GetX(p.grid, p.shape.ncols), GetY(p.grid, i))
    ensures forall j | 0 <= j <= p.shape.ncols ::
              lines[p.shape.nrows + 1 + j] ==
                Segment(GetX(p.grid, j), GetY(p.grid, 0), GetX(p.grid, j), GetY(p.grid, p.shape.nrows))
  {
    var g, ncols, nrows := p.grid, p.shape.ncols, p.shape.nrows;
    var tableWidth := TableWidth(g, ncols);
    var tableHeight := TableHeight(g, nrows);
    OuterLinesBoundTable(g, ncols, nrows, 0, 0);
    lines := [];
    for i := 0 to nrows + 1
      invariant |lines| == i
      invariant forall k | 0 <= k < i ::
                  lines[k] == Segment(GetX(g, 0), GetY(g, k), GetX(g, ncols), GetY(g, k))
    {
      var y := GetY(g, i);
      lines := lines + [Segment(MarginLeft, y, MarginLeft + tableWidth, y)];
    }
    for j := 0 to ncols + 1
      invariant |lines| == nrows + 1 + j
      invariant forall k | 0 <= k <= nrows ::
                  lines[k] == Segment(GetX(g, 0), GetY(g, k), GetX(g, ncols), GetY(g, k))
      invariant forall k | 0 <= k < j ::
                  lines[nrows + 1 + k] == Segment(GetX(g, k), GetY(g, 0), GetX(g, k), GetY(g, nrows))
    {
      var x := GetX(g, j);
      lines := lines + [Segment(x, MarginTop, x, MarginTop + tableHeight)];
    }
  }

  /** The lightness of a cell's text (src/main.rs:194): white on a dark
      background (below 65), black otherwise. Text and background lightness
      always differ by more than 35. */
  function TextLightness(bgLightness: real): (r: real)
    ensures r == 100.0 <==> bgLightness < 65.0
    ensures r == 0.0 <==> bgLightness >= 65.0
    ensures r - bgLightness > 35.0 || bgLightness - r >= 65.0
  {
    if bgLightness < 65.0 then 100.0 else 0.0
  }

  /** Cells without a lightness directive have dark text: both default
      lightnesses (93 for the header row, 100 for data) are light. */
  lemma DefaultCellsHaveDarkText(isHeader: bool)
    ensures TextLightness(DefaultStyle(isHeader).lightness) == 0.0
  {
  }

  /** The records of the file in order: the header, then the data records. */
  function Records(t: Table): seq<seq<string>>
  {
    [t.header] + t.rows
  }

  /** The raw text of cell (i, j) (src/main.rs:157): grid row `i` shows the
      file's record `i` (row 0 the header, row i the data record i - 1). */
  function CellText(p: Plan, i: nat, j: nat): (r: string)
    requires Rectangular(p.table) && i < p.shape.nrows && j < |p.table.header|
    requires p.shape.nrows == |p.table.rows| + 1
    ensures |Records(p.table)| == p.shape.nrows && j < |Records(p.table)[i]|
    ensures r == Records(p.table)[i][j]
  {
    if i == 0 then p.table.header[j] else p.table.rows[i - 1][j]
  }

  /** What is painted in one cell: the background style (lightness,
      saturation, hue), the text's lightness, the text, whether it is turned
      by 270 degrees, and the rectangle that ends up covered. */
  datatype Paint = Paint(background: Style, textLightness: real, text: string, rotated: bool, area: Rect)

  /** The body of the cell loop (src/main.rs:157-244) for cell (i, j). */
  function PaintCell(p: Plan, i: nat, j: nat, num: NumParser): (r: Paint)
    requires Drawable(p.grid, i, j) && Rectangular(p.table)
    requires p.shape.nrows == |p.table.rows| + 1 && p.shape.ncols == |p.table.header|
    requires i < p.shape.nrows && j < p.shape.ncols
    ensures Parsed(r.background, r.text) == Parse(CellText(p, i, j), i == 0, num)
    ensures r.rotated == r.background.rotate
    ensures r.area == CellRect(p.grid, i, j)
    ensures r.textLightness == TextLightness(r.background.lightness)
    ensures r.textLightness - r.background.lightness > 35.0
         || r.background.lightness - r.textLightness >= 65.0
  {
    var d := Parse(CellText(p, i, j), i == 0, num);
    var area := if d.style.rotate then RotatedArea(p.grid, i, j) else CellRect(p.grid, i, j);
    Paint(d.style, TextLightness(d.style.lightness), d.text, d.style.rotate, area)
  }

  /** Every cell, rotated or not, ends exactly at its right and bottom grid
      lines and shows a suffix of its raw text. A cell without any directive
      is painted unrotated, with dark text, showing its raw text unchanged. */
  lemma PaintCellCoversItsCell(p: Plan, i: nat, j: nat, num: NumParser)
    requires Drawable(p.grid, i, j) && Rectangular(p.table)
    requires p.shape.nrows == |p.table.rows| + 1 && p.shape.ncols == |p.table.header|
    requires i < p.shape.nrows && j < p.shape.ncols
    ensures PaintCell(p, i, j, num).area.left + PaintCell(p, i, j, num).area.width == GetX(p.grid, j + 1)
    ensures PaintCell(p, i, j, num).area.top + PaintCell(p, i, j, num).area.height == GetY(p.grid, i + 1)
    ensures IsSuffix(PaintCell(p, i, j, num).text, CellText(p, i, j))
    ensures (forall q :: !(Spelling(q) <= CellText(p, i, j))) ==>
              && !PaintCell(p, i, j, num).rotated
              && PaintCell(p, i, j, num).textLightness == 0.0
              && PaintCell(p, i, j, num).text == CellText(p, i, j)
  {
    if forall q :: !(Spelling(q) <= CellText(p, i, j)) {
      NoDirectiveKeepsDefaults(CellText(p, i, j), i == 0, num);
    }
  }
}

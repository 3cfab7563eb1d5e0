# rendercsv, modelled in Dafny

rendercsv reads a CSV file and draws it as a gridded table into a PNG image.
The header row and every data cell get a filled background and their text.
A cell's text may begin with directives that change how that one cell is drawn:
`rot:` turns its text by 270 degrees, and `h=N:`, `s=N:` and `l=N:` set the
hue, saturation and lightness of its background.

This project models the parts of `src/main.rs` that are plain logic:

- `directives.dfy` (module `Directives`): the per-cell directive parser.
  `ParseCell` is the source's loop, written as a `while` loop over the five
  variables it updates. It is proved equal to `Parse`/`Run`, a recursive
  function that strips one directive per call. The lemmas describe what
  that function does:
  - how it handles a chain of well-formed directives;
  - how a malformed payload stops it;
  - how it can end;
  - the worked cases (`rot:rot:Vertical`, `h=1:h=2:x`, `h=notanumber:L`, ...).
- `layout.dfy` (module `Layout`): the grid geometry.
  - `getx`/`gety` are one function, `Line`, proved against a sum of band sizes.
  - `table_width`/`table_height` are `Extent`.
  - The cell rectangle and the rotated cell's scratch image are `CellRect` and `SubimageSize`.
- `render.dfy` (module `Render`): the rest of `main`:
  - the canvas-size check and the empty-CSV check, in the source's order;
  - `ncols`/`nrows`;
  - the grid lines the two drawing loops draw;
  - the text-lightness rule;
  - what each cell paints.
- `wrappers.dfy` (module `Wrappers`): `Option` and `Result`.

Rust's `str::parse::<f32>` reads the number in an `h=`/`s=`/`l=` payload.
It is not modelled. Every parser operation takes the number reader as a
parameter `num: string -> Option<real>`. The worked cases state the facts
they need about it, such as "the empty string does not parse".

Parsing is not idempotent. `h=h=5:x` displays `h=5:x`, and that text
parses again to hue 5 and text `x` (`NotIdempotentExample`). Parsing the
display text again changes nothing only when the parser stopped on text that
starts with no directive (`ReparseCleanEnd`).

`ncols` comes from the first data record, not from the header.
`ColumnsMatchHeader` shows that the two agree on the rectangular tables the
CSV reader produces.

## Model

| member | source | states |
|---|---|---|
| Directives.ParseCell | src/main.rs:157-191 | the loop's final rotate flag, hue, saturation, lightness and display text are exactly the result of `Parse` on the raw text with the row's defaults; the display text is a suffix of the raw text |
| Directives.Run | src/main.rs:164-191 | the display text is always a suffix of the text being parsed (every pass that goes on strips a prefix) |
| Directives.Parse | src/main.rs:157-191 | a cell's display text, parsed from its row's defaults, is a suffix of its raw text |
| Directives.StripPrefix | src/main.rs:179-186 | succeeds exactly when the text starts with the prefix, and then returns what follows it |
| Directives.SplitOnce | src/main.rs:167 | fails exactly when there is no `:`; otherwise the text is left part, `:`, right part, with no `:` in the left part |
| Directives.SplitOnceUnique | src/main.rs:167 | the split is at the first `:`: any decomposition whose left part has no `:` is the one returned |
| Directives.Recognize | src/main.rs:179-190 | no prefix is recognised exactly when the text starts with none of `rot:`, `h=`, `s=`, `l=`; otherwise the text is the recognised prefix followed by the returned rest |
| Directives.AtMostOnePrefix | src/main.rs:179-187 | a text starts with at most one of the four prefixes, so the order in which they are tried never changes the outcome |
| Directives.RecognizeSpelling | src/main.rs:179-187 | a prefix followed by any text is recognised as that prefix, with that text as the rest |
| Directives.Payload | src/main.rs:165-177 | a well-formed payload leaves a rest that is a strictly shorter suffix of it |
| Directives.PayloadWithoutColon | src/main.rs:167-170 | a payload with no `:` is malformed |
| Directives.PayloadOf | src/main.rs:167-176 | `n:rest` with no `:` in `n` yields what the number reader makes of `n`, and `rest` |
| Directives.NoDirectiveKeepsDefaults | src/main.rs:157-162 | with no recognised prefix: no rotation, hue 0, saturation 0, lightness 93 for the header and 100 for data rows, and the raw text displayed unchanged |
| Directives.MalformedPayloadStops | src/main.rs:167-174 | `h=`, `s=` or `l=` followed by a malformed payload stops the parser, keeps the style, and displays the payload |
| Directives.RunPass | src/main.rs:179-187 | one pass over a text that starts with a prefix: `rot:` sets rotation and goes on; a numeric prefix either stops on a malformed payload, displaying it, or sets the field and goes on after the payload |
| Directives.RunRotate | src/main.rs:179-181 | a leading `rot:` sets rotation and parsing goes on with the rest |
| Directives.RunSet | src/main.rs:175-176 | a leading well-formed `h=N:`/`s=N:`/`l=N:` sets that field to N and parsing goes on with the rest |
| Directives.RunApply | src/main.rs:179-187 | one pass over any well-formed directive applies it and goes on with the rest |
| Directives.RunSpelled | src/main.rs:164-191 | a chain of well-formed directives followed by any text is parsed by applying the directives in order, then parsing that text |
| Directives.ParseSpelled | src/main.rs:157-191 | a cell made of well-formed directives and then text with no prefix gets those directives' style over its row's defaults and displays that text |
| Directives.ApplyAllAppend | src/main.rs:164-191 | applying a chain with one more directive at the end is applying the chain, then that directive |
| Directives.ApplyAllConcat | src/main.rs:164-191 | applying two chains one after the other is applying their concatenation |
| Directives.OtherFieldsKeep | src/main.rs:179-187 | directives for other fields, and `rot:`, leave a field's value unchanged |
| Directives.LastSetWins | src/main.rs:182-187 | the last directive for a field decides its value, whatever directives for other fields (or `rot:`) follow it |
| Directives.RotationSticks | src/main.rs:179-181 | once rotation is set, nothing later in the text unsets it |
| Directives.HowParsingEnds | src/main.rs:164-191 | the parser ends either on text that starts with none of the four prefixes, or on a malformed payload that followed `h=`, `s=` or `l=` in the input |
| Directives.ReparseCleanEnd | src/main.rs:188-189 | when the parser ended on text with no prefix, parsing that text again changes nothing |
| Directives.RotateTwiceExample | src/main.rs:179-181 | `rot:rot:Vertical` is rotated and displays `Vertical` |
| Directives.HeaderHueExample | src/main.rs:182-183 | in a header cell, `h=30:Label` gives hue 30, saturation 0, lightness 93 and displays `Label` |
| Directives.HueOverwriteExample | src/main.rs:182-183 | `h=1:h=2:x` gives hue 2 and displays `x` |
| Directives.HueThenRotateExample | src/main.rs:179-183 | `h=10:rot:text` sets hue 10, then rotation, and displays `text` |
| Directives.MissingColonExample | src/main.rs:167-170 | `h=10` leaves the hue at its default and displays `10` |
| Directives.EmptyNumberExample | src/main.rs:171-174 | `h=:x` leaves the hue at its default and displays `:x` |
| Directives.BadNumberExample | src/main.rs:171-174 | `h=notanumber:L` leaves the hue at its default and displays `notanumber:L` |
| Directives.NestedDirectiveExample | src/main.rs:171-174 | `h=h=5:x` leaves the hue at its default and displays `h=5:x` |
| Directives.HueFiveExample | src/main.rs:175-176 | `h=5:x` gives hue 5 and displays `x` |
| Directives.NotIdempotentExample | src/main.rs:164-191 | parsing the display text of `h=h=5:x` again gives hue 5 and `x`, so parsing is not idempotent |
| Layout.Line | src/main.rs:119-134 | grid line `k` lies at the margin plus the sizes of the first `k` bands (a first band of the first size, then bands of the regular size) |
| Layout.GetX | src/main.rs:119-126 | vertical grid line `j` lies at the left margin plus the widths of the `j` columns before it |
| Layout.GetY | src/main.rs:127-134 | horizontal grid line `i` lies at the top margin plus the heights of the `i` rows above it |
| Layout.SpanClosedForm | src/main.rs:116-134 | the sizes of `k >= 1` bands add up to the first band plus `k - 1` regular bands, the form the source computes |
| Layout.LineStep | src/main.rs:119-134 | line 0 is at the margin; line 1 is the first band's size further, and each later line one regular band further |
| Layout.LineMonotone | src/main.rs:119-134 | grid lines are in increasing order |
| Layout.Extent | src/main.rs:116-117 | `n * size + first - size` is the total size of `n` bands |
| Layout.TableWidth | src/main.rs:116 | `table_width` is the sum of the widths of all `ncols` columns |
| Layout.TableHeight | src/main.rs:117 | `table_height` is the sum of the heights of all `nrows` rows |
| Layout.OuterLinesBoundTable | src/main.rs:116-134 | the last vertical line is at `MARGIN_LEFT + table_width`, the last horizontal one at `MARGIN_TOP + table_height`, and every line lies between the margin and these |
| Layout.LinesFitWhenTableFits | src/main.rs:116-134 | if the outer lines fit in a `u32`, so does every grid line |
| Layout.CellRect | src/main.rs:200-201 | the unrotated cell's rectangle starts one pixel past its left and top grid lines and ends at its right and bottom ones: its size is the band's size minus one |
| Layout.SubimageSize | src/main.rs:219-220 | the rotated cell's scratch image is the row's height minus one wide and the column's width minus one high |
| Layout.RotatedArea | src/main.rs:238-243 | the rotated scratch image, pasted at `(getx(j) + 1, gety(i) + 1)`, covers exactly the unrotated cell's rectangle |
| Layout.RotatedCellFillsCell | src/main.rs:219-243 | the scratch image is the cell rectangle with width and height swapped; rotated and pasted at the cell's corner, it covers exactly that rectangle |
| Render.CheckCanvas | src/main.rs:78-83 | "Image width too small" exactly when the width is below 10; otherwise "Image height too small" exactly when the height is below 5; each error carries its message |
| Render.Prepare | src/main.rs:78-109 | canvas errors come first, then input errors, then "Empty csv" for no data record or an empty first record; otherwise `ncols` is the first record's length and `nrows` the number of records plus one |
| Render.CanvasCheckedFirst | src/main.rs:78-102 | a canvas that is too small fails with the same error whatever the input holds |
| Render.ColumnsMatchHeader | src/main.rs:108 | for a rectangular table, `ncols` equals the header's length |
| Render.DefaultsAreUsable | src/main.rs:28-52 | the default options pass the canvas check and give a grid every cell of which can be drawn |
| Render.GridLines | src/main.rs:136-153 | `nrows + 1` horizontal lines from the first to the last vertical line at each `gety(i)`, then `ncols + 1` vertical lines from the first to the last horizontal line at each `getx(j)` |
| Render.TextLightness | src/main.rs:194 | text lightness is 100 exactly when the background lightness is below 65 and 0 otherwise; they always differ by more than 35 |
| Render.DefaultCellsHaveDarkText | src/main.rs:162-194 | with the default lightnesses (93 and 100) the text is dark |
| Render.CellText | src/main.rs:157 | grid row `i` shows field `j` of the file's record `i`: the header for row 0, data record `i - 1` after it |
| Render.PaintCell | src/main.rs:155-244 | a cell's background style and display text are what the directive parser makes of its raw text with its row's defaults; it is rotated exactly when a `rot:` was parsed; rotated or not, it covers its cell rectangle; its text lightness is the rule's 100 or 0 for its background lightness, and differs from it by more than 35 |
| Render.PaintCellCoversItsCell | src/main.rs:155-244 | every cell, rotated or not, ends exactly at its right and bottom grid lines and displays a suffix of its raw text; a cell with no directive is unrotated, has dark text and displays its raw text unchanged |

## Left out

- Command-line parsing (`clap`): the options are a value; their defaults are `Render.DefaultOptions`.
- File reading and font decoding are I/O and foreign code. Reading the CSV is also I/O: the loaded table, or the message of the error that stopped loading, is a parameter of `Prepare`. That the CSV reader refuses records of unequal length is stated as `Rectangular`, not modelled.
- `getcolour` is not modelled. It converts LCh to sRGB in floating point inside the `palette` crate. Cells carry the LCh values that would be converted.
- The pixel drawing is not modelled: filling the canvas, drawing segments, rectangles and text, rotating, overlaying and saving the PNG. All of it happens in library calls on a raster buffer. The model stops at the segments, rectangles and sizes handed to those calls.
- The text's origin (the intracell margins, lines 205-206 and 231-232) is not modelled. Only the text rasteriser uses it.
- The number reader of directive payloads (`str::parse::<f32>`) is a parameter. Hue, saturation and lightness are `real`, so NaN, infinities and `f32` rounding are not modelled. The same holds for the comparison `bg_lightness < 65.0`.
- Layout.Line: stated for `first >= size` (and `Layout.Ordered` for grids). With a first band smaller than the others, the `u32` subtraction in `getx`/`gety` underflows; that configuration is left out.
- Layout.CellRect: stated for a cell whose own column and row are at least one pixel wide (`Layout.Drawable`). For a cell in a zero-pixel band, `getx(j + 1) - getx(j) - 1` underflows; that cell is left out. Zero-pixel bands that no cell is drawn in are allowed.
- Render.PaintCell: the same restriction as `Layout.CellRect`, for the cell being painted only.
- Layout.SubimageSize: the same restriction as `Layout.CellRect`.
- Layout.Extent: `u32` arithmetic is unbounded here. Overflow of `ncols as u32 * column_width` and the like is not modelled, and neither are the `as i32`/`as i64` casts of offsets. `LinesFitWhenTableFits` gives the bound under which no grid-line offset overflows.

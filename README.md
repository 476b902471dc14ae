# FPDF writer of the endroid QR-code library, modelled in Dafny

The FPDF writer renders a QR code that has already been encoded (a 0/1
module matrix plus integer geometry, colours and an optional logo) into a PDF
document. Before it draws anything, it rejects styling a PDF page cannot
express. The checks run in a fixed order:

1. built-in result validation is requested;
2. the foreground colour has alpha;
3. the background colour has alpha;
4. a label is set.

It then drives the FPDF engine:

- a page of the outer size, in the configured unit (`mm` by default);
- a background rectangle over the whole page;
- the foreground colour, then one filled square per module equal to 1, row by row;
- optionally the logo image, centred on the page.

The document is the engine's serialisation of what was drawn.

The model has two modules:

- `Fpdf` (`fpdf.dfy`) stands in for the engine. It is a recording `Canvas` whose only field, `log`, is the sequence of drawing commands (`Op`) it has received.
- `FpdfWriter` (`fpdf_writer.dfy`) is the writer itself:
  - `Trace` is the pure specification of the log one write leaves on the canvas.
  - `Render` is the specification of what the write returns.
  - `WriteString`, `DrawMatrix` and `AddLogo` are the step-by-step writer, proved against those two.
  - The lemmas state the writer's promises about `Trace`: the order of the checks, no drawing when a check fails, a one-to-one row-major correspondence between 1-modules and squares, the logo's sizing and its centring.

Points where the code is followed literally:

- Both the x and the y offset of a square use `margin_left` (`RectAt`). The data has no separate top margin; whether the encoder always makes the two margins equal is outside this model.
- A missing logo height is `sourceHeight * width / sourceWidth` cast to int, which truncates toward zero (`TruncDiv`). It is not rounded.
- The centring offset is `imageWidth / 2 - logoWidth / 2` computed exactly. An odd logo width gives a half-unit offset, so the left and top positions are `real`. They are not floored.
- The height is always derived from the resolved width. A caller who gives only a height still gets the image's own width.

## Model

| member | source | states |
|---|---|---|
| `Fpdf.Canvas.AddPage` | vendor/endroid/qr-code/src/Writer/FpdfWriter.php:64-69 | creating the engine with a unit and page size and adding the page appends exactly one `NewPage(unit, width, height)` to the log |
| `Fpdf.Canvas.SetFillColor` | vendor/endroid/qr-code/src/Writer/FpdfWriter.php:71 | appends exactly one `SetFill(r, g, b)` |
| `Fpdf.Canvas.FillRect` | vendor/endroid/qr-code/src/Writer/FpdfWriter.php:72 | a rectangle in fill mode appends exactly one `Rect(x, y, w, h)` |
| `Fpdf.Canvas.DrawImage` | vendor/endroid/qr-code/src/Writer/FpdfWriter.php:128 | appends exactly one `Image(path, left, top, w, h)` |
| `FpdfWriter.ContentType` | vendor/endroid/qr-code/src/Writer/FpdfWriter.php:131-134 | the content type is `application/pdf` |
| `FpdfWriter.SupportedExtensions` | vendor/endroid/qr-code/src/Writer/FpdfWriter.php:136-139 | the only supported extension is `pdf` |
| `FpdfWriter.Name` | vendor/endroid/qr-code/src/Writer/FpdfWriter.php:141-144 | the writer's name is `fpdf` |
| `FpdfWriter.Precheck` | vendor/endroid/qr-code/src/Writer/FpdfWriter.php:38-59 | the error is the first entry of the ordered list of violated requests (validation, foreground alpha, background alpha, label); the write may proceed iff validation is off, both alphas are 0 and there is no label |
| `FpdfWriter.Violations` | vendor/endroid/qr-code/src/Writer/FpdfWriter.php:38-59 | the ordered list of violated requests (validation, foreground alpha, background alpha, label); empty iff validation is off, both alphas are 0 and there is no label; a validation request is first and a label last |
| `FpdfWriter.PrecheckAsWritten` | vendor/endroid/qr-code/src/Writer/FpdfWriter.php:38-59 | the guard chain exactly as written: the same result as `Precheck` in every case except a background alpha alone, which is reported with the foreground colour's message |
| `FpdfWriter.AsWrittenAlphaErrorsCoincide` | vendor/endroid/qr-code/src/Writer/FpdfWriter.php:43-54 | as written, a foreground-alpha failure and a background-alpha failure raise identical errors |
| `FpdfWriter.AlphaErrorsDistinguished` | vendor/endroid/qr-code/src/Writer/FpdfWriter.php:43-54 | with the corrected message, both are invalid-argument errors and they differ |
| `FpdfWriter.Unit` | vendor/endroid/qr-code/src/Writer/FpdfWriter.php:66 | the configured measurement unit, or `mm` when none is configured |
| `FpdfWriter.SetupOps` | vendor/endroid/qr-code/src/Writer/FpdfWriter.php:64-74 | four commands: the page, a fill colour, a rectangle at (0, 0) covering exactly the page size, then a fill colour |
| `FpdfWriter.RectAt` | vendor/endroid/qr-code/src/Writer/FpdfWriter.php:78-84 | a square of side block_size whose x and y offsets from margin_left are column*block_size and row*block_size |
| `FpdfWriter.RowOps` | vendor/endroid/qr-code/src/Writer/FpdfWriter.php:76-86 | one row's squares: at most one per cell, each a block_size square |
| `FpdfWriter.MatrixOps` | vendor/endroid/qr-code/src/Writer/FpdfWriter.php:75-87 | the matrix's squares, every command a block_size square |
| `FpdfWriter.RowOpsCount` | vendor/endroid/qr-code/src/Writer/FpdfWriter.php:76-86 | one row yields as many squares as it has cells equal to 1 |
| `FpdfWriter.RowOpsAt` | vendor/endroid/qr-code/src/Writer/FpdfWriter.php:76-86 | a 1-cell in column c is drawn as the square at (margin_left + c*block_size, margin_left + row*block_size) with side block_size, at position = number of 1-cells left of it |
| `FpdfWriter.RowOpsOnlyOnes` | vendor/endroid/qr-code/src/Writer/FpdfWriter.php:76-86 | every square of a row belongs to a cell equal to 1 of matching rank |
| `FpdfWriter.MatrixOpsCount` | vendor/endroid/qr-code/src/Writer/FpdfWriter.php:75-87 | the matrix yields exactly as many squares as it has cells equal to 1 |
| `FpdfWriter.MatrixOpsAt` | vendor/endroid/qr-code/src/Writer/FpdfWriter.php:75-87 | every 1-cell (row, col) is drawn, with both offsets from margin_left, at its row-major rank among the 1-cells |
| `FpdfWriter.MatrixOpsOnlyOnes` | vendor/endroid/qr-code/src/Writer/FpdfWriter.php:75-87 | every square drawn is the square of some 1-cell whose row-major rank is the square's position; cells of any other value draw nothing |
| `FpdfWriter.OnesBeforeOrdered` | vendor/endroid/qr-code/src/Writer/FpdfWriter.php:75-76 | ranks strictly increase in row-major order, so the cell-to-square correspondence is one-to-one and ordered rows first, then columns |
| `FpdfWriter.TruncDiv` | vendor/endroid/qr-code/src/Writer/FpdfWriter.php:120-121 | the quotient is rounded toward zero: it has the dividend's sign and its magnitude times the divisor is within one divisor below the dividend's magnitude |
| `FpdfWriter.ResolveLogoSize` | vendor/endroid/qr-code/src/Writer/FpdfWriter.php:112-123 | both dimensions given: used unchanged, lookup not needed; otherwise a failed lookup is an error, a missing width is the source width, a missing height is the truncated source-aspect height of the resolved width, and a zero source width is a division-by-zero error; with a successful lookup it succeeds whenever the height is given or the source width is positive |
| `FpdfWriter.DerivedHeightBounds` | vendor/endroid/qr-code/src/Writer/FpdfWriter.php:119-122 | a derived height is within one unit of the exact aspect-ratio height, never larger in magnitude |
| `FpdfWriter.CentreOffset` | vendor/endroid/qr-code/src/Writer/FpdfWriter.php:125-126 | the offset at which an extent of `size` is centred on an extent of `outer`: offset + size/2 = outer/2, with the half width exact |
| `FpdfWriter.PlaceLogo` | vendor/endroid/qr-code/src/Writer/FpdfWriter.php:112-128 | succeeds iff the size resolves; the image has the resolved size and is centred: left + width/2 = page width/2, top + height/2 = page height/2, equal gaps on opposite sides |
| `FpdfWriter.ExplicitLogoPlacement` | vendor/endroid/qr-code/src/Writer/FpdfWriter.php:125-128 | a 50 x 50 logo on a 200 x 200 page is placed at (75, 75) whatever the image lookup says |
| `FpdfWriter.DerivedLogoPlacement` | vendor/endroid/qr-code/src/Writer/FpdfWriter.php:112-128 | width 40 over an 80 x 160 image on a 200 x 200 page gives height 80 at (80, 60) |
| `FpdfWriter.OddLogoWidthPlacement` | vendor/endroid/qr-code/src/Writer/FpdfWriter.php:125-126 | a 41-wide logo on a 200-wide page sits at 79.5: the half width is exact, not floored |
| `FpdfWriter.LogoPlacement` | vendor/endroid/qr-code/src/Writer/FpdfWriter.php:89-98 | the placement for the configured logo path on the page of the outer size: an image of that path centred on the page |
| `FpdfWriter.LogoOps` | vendor/endroid/qr-code/src/Writer/FpdfWriter.php:89-99 | at most one command; one exactly when a logo path is set and its placement succeeds, and it is that placement |
| `FpdfWriter.Trace` | vendor/endroid/qr-code/src/Writer/FpdfWriter.php:38-99 | a failed check leaves the log empty; otherwise the log starts with the four set-up commands |
| `FpdfWriter.Render` | vendor/endroid/qr-code/src/Writer/FpdfWriter.php:36-101 | a failed check is returned as that error; a logo sizing failure is returned as its error; otherwise the result is the document, i.e. the whole log |
| `FpdfWriter.TraceParts` | vendor/endroid/qr-code/src/Writer/FpdfWriter.php:64-99 | a successful write's log is set-up, then the matrix's squares, then the optional logo |
| `FpdfWriter.TraceLayout` | vendor/endroid/qr-code/src/Writer/FpdfWriter.php:64-87 | the log has 4 + (number of 1-cells) + (0 or 1) commands, starting NewPage(unit or mm, outer size), SetFill(background), Rect(0, 0, outer size), SetFill(foreground) |
| `FpdfWriter.TraceSquareForEveryOne` | vendor/endroid/qr-code/src/Writer/FpdfWriter.php:75-87 | each 1-cell's square is in the log, right after the set-up, at the cell's row-major rank |
| `FpdfWriter.TraceSquaresOnlyForOnes` | vendor/endroid/qr-code/src/Writer/FpdfWriter.php:75-87 | each command between the set-up and the logo is the square of a 1-cell of that rank |
| `FpdfWriter.ImageOnlyLast` | vendor/endroid/qr-code/src/Writer/FpdfWriter.php:89-99 | an image command appears only as the last command, and the last command is an image iff the checks pass, a logo path is set and its placement succeeds |
| `FpdfWriter.NoOnesNoSquares` | vendor/endroid/qr-code/src/Writer/FpdfWriter.php:64-99 | a matrix with no 1-cells, including an empty one, draws only the set-up and the optional logo |
| `FpdfWriter.DrawMatrix` | vendor/endroid/qr-code/src/Writer/FpdfWriter.php:75-87 | the nested row/column loop appends exactly the squares of the 1-cells, in row-major order |
| `FpdfWriter.AddLogo` | vendor/endroid/qr-code/src/Writer/FpdfWriter.php:104-129 | appends the centred image command and reports no error when the placement succeeds; otherwise reports the sizing error and draws nothing |
| `FpdfWriter.WriteString` | vendor/endroid/qr-code/src/Writer/FpdfWriter.php:36-102 | starting from an empty canvas, the final log is `Trace` and the result is `Render`: every check comes before any drawing |

## Findings

| source | as written | input that shows it | evidently intended | confidence | as-written member | corrected member |
|---|---|---|---|---|---|---|
| vendor/endroid/qr-code/src/Writer/FpdfWriter.php:50-54 | a background colour with an alpha channel raises the message "The foreground color has an alpha channel, ..." | validation off, foreground alpha 0, background alpha 127, no label | the message names the background colour | high (copy of the foreground branch); not executed | `FpdfWriter.PrecheckAsWritten`, `FpdfWriter.AsWrittenAlphaErrorsCoincide` | `FpdfWriter.Precheck`, `FpdfWriter.AlphaErrorsDistinguished` |

## Left out

- The constructor's check that the FPDF class is installed. It probes the environment and has no behaviour to model.
- WriteString: reports a background colour with an alpha channel with the corrected message naming the background colour, where the code raises the foreground colour's message; the as-written chain is `PrecheckAsWritten` (see Findings). Exception class and failing inputs are the same.
- Render: reports the same corrected background-alpha message as `WriteString`, for the same reason.
- The FPDF engine itself and its `Output('S')` serialisation. The canvas only records commands. The returned document is the final command log; the bytes it serialises to are not modelled. Failures raised by the engine (an unreadable logo file when embedding it, for one) are not modelled either.
- The canvas is created by the writer after the checks. In the model it is passed in, and `WriteString` requires its log to be empty. A failed check leaves it empty, which stands for "no canvas was created".
- `getimagesize` is a parameter `imageSize: string -> Option<ImageSize>`. `None` means the lookup failed, and the model then reports `ImageSizeUnavailable`. In plain PHP a failed lookup yields nulls instead. A missing height then ends in a division-by-zero error, and a missing width alone becomes 0. The model reports the lookup failure in every case where the lookup was needed.
- A reported source width of 0 with a missing height is a `DivisionByZero` error, as in PHP 8 (PHP 7 only warns and the cast gives 0).
- PHP float arithmetic in the aspect ratio and the halving is replaced by exact integer and real arithmetic. Float rounding just before the `(int)` cast is not captured.
- The meaning of the measurement unit. The unit string is passed through unchanged to `NewPage`, defaulting to `mm`.
- QR encoding, the production of the data array and the abstract writer base class. The data array is an input record whose geometry fields are integers. A non-integer block size or margin, which the encoder can produce when block sizes are not rounded, is not modelled.
- Matrix cells are integers. Under the strict comparison `1 === $value` any cell value other than the integer 1 draws nothing, and the model behaves the same.
- Repeating a write with the same inputs gives the same result. This holds by construction, because `Trace` and `Render` are functions of the inputs and the lookup.

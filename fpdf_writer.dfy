/**
 The PDF writer of the QR-code library: it turns a precomputed QR bitmap
 (a 0/1 matrix plus integer geometry) into drawing commands on a canvas,
 after checking that the requested styling can be expressed in a PDF.

 `Trace` is the specification of the canvas log one call leaves behind and
 `Render` the specification of what the call returns; `WriteString` and
 `AddLogo` are the step-by-step writer, proved against them.
 */
module FpdfWriter {
  import opened Fpdf

  datatype Option<T> = None | Some(value: T)

  /** The exceptions the writer raises. */
  datatype WriteError =
    | ValidationFailure(message: string)  // ValidationException
    | InvalidArgument(message: string)    // \InvalidArgumentException
    | ImageSizeUnavailable(path: string)  // the image-size lookup failed
    | DivisionByZero                      // the logo's source width is 0

  datatype Result<T> = Ok(value: T) | Err(error: WriteError)

  /** An RGBA colour; an alpha of 0 means fully opaque. */
  datatype Color = Color(r: int, g: int, b: int, a: int)

  /** The geometry the encoder computed for the symbol. */
  datatype QrData = QrData(
    matrix: seq<seq<int>>,
    outerWidth: int,
    outerHeight: int,
    marginLeft: int,
    blockSize: int)

  /** What the writer reads from the QR-code object. */
  datatype QrCode = QrCode(
    validateResult: bool,
    foreground: Color,
    background: Color,
    labelText: Option<string>,
    data: QrData,
    measureUnit: Option<string>,  // the writer option 'fpdf_measure_unit'
    logoPath: Option<string>,
    logoWidth: Option<int>,
    logoHeight: Option<int>)

  /** Intrinsic size of a raster image, as an image-size lookup reports it. */
  datatype ImageSize = ImageSize(width: nat, height: nat)

  datatype LogoSize = LogoSize(width: int, height: int)

  // ---------------------------------------------------------------------
  // Writer metadata
  // ---------------------------------------------------------------------

  function ContentType(): (r: string)
    ensures r == "application/pdf"
  {
    "application/pdf"
  }

  function SupportedExtensions(): (r: seq<string>)
    ensures r == ["pdf"]
  {
    ["pdf"]
  }

  function Name(): (r: string)
    ensures r == "fpdf"
  {
    "fpdf"
  }

  // ---------------------------------------------------------------------
  // Preconditions of a write
  // ---------------------------------------------------------------------

  const ValidationMessage: string :=
    "Built-in validation reader can not check fpdf qr codes: please disable via setValidateResult(false)"
  const AlphaMessageTail: string :=
    " color has an alpha channel, but the fpdf qr writer doesn't support alpha channels."
  const ForegroundAlphaMessage: string := "The foreground" + AlphaMessageTail
  const BackgroundAlphaMessage: string := "The background" + AlphaMessageTail
  const LabelMessage: string :=
    "The fpdf qr writer doesn't support a label."

  /** Every styling request the writer cannot honour, in the order it checks them. */
  function Violations(qr: QrCode): (r: seq<WriteError>)
    ensures |r| <= 4
    ensures r == [] <==>
      !qr.validateResult && qr.foreground.a == 0 && qr.background.a == 0 && qr.labelText.None?
    ensures qr.validateResult ==> r[0] == ValidationFailure(ValidationMessage)
    ensures qr.labelText.Some? ==> r[|r| - 1] == InvalidArgument(LabelMessage)
  {
    (if qr.validateResult then [ValidationFailure(ValidationMessage)] else [])
    + (if qr.foreground.a != 0 then [InvalidArgument(ForegroundAlphaMessage)] else [])
    + (if qr.background.a != 0 then [InvalidArgument(BackgroundAlphaMessage)] else [])
    + (if qr.labelText.Some? then [InvalidArgument(LabelMessage)] else [])
  }

  /**
   The guard chain at the start of a write: the first violated request
   decides the error; a write goes ahead only when nothing is violated.
   */
  function Precheck(qr: QrCode): (r: Option<WriteError>)
    ensures r.None? <==> Violations(qr) == []
    ensures r.Some? ==> r.value == Violations(qr)[0]
  {
    if qr.validateResult then Some(ValidationFailure(ValidationMessage))
    else if qr.foreground.a != 0 then Some(InvalidArgument(ForegroundAlphaMessage))
    else if qr.background.a != 0 then Some(InvalidArgument(BackgroundAlphaMessage))
    else if qr.labelText.Some? then Some(InvalidArgument(LabelMessage))
    else None
  }

  /**
   The guard chain exactly as the writer has it: a background colour with an
   alpha channel is reported with the foreground colour's message.
   */
  function PrecheckAsWritten(qr: QrCode): (r: Option<WriteError>)
    ensures r == if !qr.validateResult && qr.foreground.a == 0 && qr.background.a != 0
                 then Some(InvalidArgument(ForegroundAlphaMessage))
                 else Precheck(qr)
  {
    if qr.validateResult then Some(ValidationFailure(ValidationMessage))
    else if qr.foreground.a != 0 then Some(InvalidArgument(ForegroundAlphaMessage))
    else if qr.background.a != 0 then Some(InvalidArgument(ForegroundAlphaMessage))
    else if qr.labelText.Some? then Some(InvalidArgument(LabelMessage))
    else None
  }

  /** As written, a failing foreground and a failing background raise the same error. */
  lemma AsWrittenAlphaErrorsCoincide(fg: QrCode, bg: QrCode)
    requires !fg.validateResult && fg.foreground.a != 0
    requires !bg.validateResult && bg.foreground.a == 0 && bg.background.a != 0
    ensures PrecheckAsWritten(fg) == PrecheckAsWritten(bg)
  {
  }

  /** With the corrected message the two alpha failures are told apart. */
  lemma AlphaErrorsDistinguished(fg: QrCode, bg: QrCode)
    requires !fg.validateResult && fg.foreground.a != 0
    requires !bg.validateResult && bg.foreground.a == 0 && bg.background.a != 0
    ensures Precheck(fg).Some? && Precheck(fg).value.InvalidArgument?
    ensures Precheck(bg).Some? && Precheck(bg).value.InvalidArgument?
    ensures Precheck(fg) != Precheck(bg)
  {
    assert ForegroundAlphaMessage[4] == 'f' && BackgroundAlphaMessage[4] == 'b';
  }

  // ---------------------------------------------------------------------
  // Page set-up
  // ---------------------------------------------------------------------

  /** The measurement unit handed to the engine; millimetres unless configured. */
  function Unit(qr: QrCode): (u: string)
    ensures qr.measureUnit.None? ==> u == "mm"
    ensures qr.measureUnit.Some? ==> u == qr.measureUnit.value
  {
    match qr.measureUnit
    case Some(u) => u
    case None => "mm"
  }

  /** Page, background fill over the whole page, then the foreground colour. */
  function SetupOps(qr: QrCode): (r: seq<Op>)
    ensures |r| == 4 && r[0].NewPage? && r[1].SetFill? && r[2].Rect? && r[3].SetFill?
    ensures r[0].width == r[2].w && r[0].height == r[2].h && r[2].x == 0 && r[2].y == 0
  {
    var d := qr.data;
    [ NewPage(Unit(qr), d.outerWidth, d.outerHeight),
      SetFill(qr.background.r, qr.background.g, qr.background.b),
      Rect(0, 0, d.outerWidth, d.outerHeight),
      SetFill(qr.foreground.r, qr.foreground.g, qr.foreground.b) ]
  }

  // ---------------------------------------------------------------------
  // Matrix to rectangles
  // ---------------------------------------------------------------------

  /** The square drawn for the cell in `row`, `col`; both axes are offset by the left margin. */
  function RectAt(marginLeft: int, blockSize: int, row: int, col: int): (r: Op)
    ensures r.Rect? && r.w == blockSize && r.h == blockSize
    ensures r.x - marginLeft == col * blockSize && r.y - marginLeft == row * blockSize
  {
    Rect(marginLeft + col * blockSize, marginLeft + row * blockSize, blockSize, blockSize)
  }

  /** Squares for one row, left to right, one per cell equal to 1. */
  function RowOps(cells: seq<int>, row: nat, marginLeft: int, blockSize: int): (r: seq<Op>)
    ensures |r| <= |cells|
    ensures forall k | 0 <= k < |r| :: r[k].Rect? && r[k].w == blockSize && r[k].h == blockSize
    decreases |cells|
  {
    if cells == [] then []
    else
      var c := |cells| - 1;
      RowOps(cells[..c], row, marginLeft, blockSize)
      + (if cells[c] == 1 then [RectAt(marginLeft, blockSize, row, c)] else [])
  }

  /** Squares for the whole matrix, row by row. */
  function MatrixOps(m: seq<seq<int>>, marginLeft: int, blockSize: int): (r: seq<Op>)
    ensures forall k | 0 <= k < |r| :: r[k].Rect? && r[k].w == blockSize && r[k].h == blockSize
    decreases |m|
  {
    if m == [] then []
    else
      var r := |m| - 1;
      MatrixOps(m[..r], marginLeft, blockSize) + RowOps(m[r], r, marginLeft, blockSize)
  }

  /** Number of cells equal to 1 in a row. */
  function CountRow(cells: seq<int>): nat
    decreases |cells|
  {
    if cells == [] then 0
    else CountRow(cells[..|cells| - 1]) + (if cells[|cells| - 1] == 1 then 1 else 0)
  }

  /** Number of cells equal to 1 in a matrix. */
  function CountOnes(m: seq<seq<int>>): nat
    decreases |m|
  {
    if m == [] then 0 else CountOnes(m[..|m| - 1]) + CountRow(m[|m| - 1])
  }

  /** Number of 1-cells that precede (`row`, `col`) in row-major order. */
  function OnesBefore(m: seq<seq<int>>, row: nat, col: nat): nat
    requires row < |m| && col <= |m[row]|
  {
    CountOnes(m[..row]) + CountRow(m[row][..col])
  }

  lemma {:induction false} RowOpsCount(cells: seq<int>, row: nat, marginLeft: int, blockSize: int)
    ensures |RowOps(cells, row, marginLeft, blockSize)| == CountRow(cells)
    decreases |cells|
  {
    if cells != [] {
      RowOpsCount(cells[..|cells| - 1], row, marginLeft, blockSize);
    }
  }

  /** The matrix yields exactly as many squares as it has cells equal to 1. */
  lemma {:induction false} MatrixOpsCount(m: seq<seq<int>>, marginLeft: int, blockSize: int)
    ensures |MatrixOps(m, marginLeft, blockSize)| == CountOnes(m)
    decreases |m|
  {
    if m != [] {
      MatrixOpsCount(m[..|m| - 1], marginLeft, blockSize);
      RowOpsCount(m[|m| - 1], |m| - 1, marginLeft, blockSize);
    }
  }

  lemma {:induction false} RowOpsAt(cells: seq<int>, row: nat, marginLeft: int, blockSize: int, col: nat)
    requires col < |cells| && cells[col] == 1
    ensures CountRow(cells[..col]) < |RowOps(cells, row, marginLeft, blockSize)|
    ensures RowOps(cells, row, marginLeft, blockSize)[CountRow(cells[..col])]
         == RectAt(marginLeft, blockSize, row, col)
    decreases |cells|
  {
    var last := |cells| - 1;
    var init := cells[..last];
    RowOpsCount(init, row, marginLeft, blockSize);
    if col < last {
      assert init[..col] == cells[..col];
      RowOpsAt(init, row, marginLeft, blockSize, col);
    } else {
      assert cells[..col] == init;
    }
  }

  /** Every cell equal to 1 is drawn, at its row-major rank among the 1-cells. */
  lemma {:induction false} MatrixOpsAt(m: seq<seq<int>>, marginLeft: int, blockSize: int, row: nat, col: nat)
    requires row < |m| && col < |m[row]| && m[row][col] == 1
    ensures OnesBefore(m, row, col) < |MatrixOps(m, marginLeft, blockSize)|
    ensures MatrixOps(m, marginLeft, blockSize)[OnesBefore(m, row, col)]
         == RectAt(marginLeft, blockSize, row, col)
    decreases |m|
  {
    var last := |m| - 1;
    var init := m[..last];
    MatrixOpsCount(init, marginLeft, blockSize);
    if row < last {
      assert init[..row] == m[..row];
      MatrixOpsAt(init, marginLeft, blockSize, row, col);
    } else {
      assert m[..row] == init;
      RowOpsAt(m[row], row, marginLeft, blockSize, col);
    }
  }

  lemma {:induction false} RowOpsOnlyOnes(cells: seq<int>, row: nat, marginLeft: int, blockSize: int, k: nat)
    requires k < |RowOps(cells, row, marginLeft, blockSize)|
    ensures exists col :: 0 <= col < |cells| && cells[col] == 1 && CountRow(cells[..col]) == k
                          && RowOps(cells, row, marginLeft, blockSize)[k] == RectAt(marginLeft, blockSize, row, col)
    decreases |cells|
  {
    var last := |cells| - 1;
    var init := cells[..last];
    RowOpsCount(init, row, marginLeft, blockSize);
    if k < |RowOps(init, row, marginLeft, blockSize)| {
      RowOpsOnlyOnes(init, row, marginLeft, blockSize, k);
      var col :| 0 <= col < |init| && init[col] == 1 && CountRow(init[..col]) == k
                 && RowOps(init, row, marginLeft, blockSize)[k] == RectAt(marginLeft, blockSize, row, col);
      assert init[..col] == cells[..col];
    } else {
      assert cells[..last] == init;
    }
  }

  /** Every square drawn belongs to a cell equal to 1, and is drawn at that cell's rank. */
  lemma {:induction false} MatrixOpsOnlyOnes(m: seq<seq<int>>, marginLeft: int, blockSize: int, k: nat)
    requires k < |MatrixOps(m, marginLeft, blockSize)|
    ensures exists row, col :: 0 <= row < |m| && 0 <= col < |m[row]| && m[row][col] == 1
                               && OnesBefore(m, row, col) == k
                               && MatrixOps(m, marginLeft, blockSize)[k] == RectAt(marginLeft, blockSize, row, col)
    decreases |m|
  {
    var last := |m| - 1;
    var init := m[..last];
    MatrixOpsCount(init, marginLeft, blockSize);
    var before := |MatrixOps(init, marginLeft, blockSize)|;
    if k < before {
      MatrixOpsOnlyOnes(init, marginLeft, blockSize, k);
      var row, col :| 0 <= row < |init| && 0 <= col < |init[row]| && init[row][col] == 1
                      && OnesBefore(init, row, col) == k
                      && MatrixOps(init, marginLeft, blockSize)[k] == RectAt(marginLeft, blockSize, row, col);
      assert init[..row] == m[..row];
      assert OnesBefore(m, row, col) == k;
    } else {
      RowOpsOnlyOnes(m[last], last, marginLeft, blockSize, k - before);
      var col :| 0 <= col < |m[last]| && m[last][col] == 1 && CountRow(m[last][..col]) == k - before
                 && RowOps(m[last], last, marginLeft, blockSize)[k - before]
                    == RectAt(marginLeft, blockSize, last, col);
      assert m[..last] == init;
      assert OnesBefore(m, last, col) == k;
    }
  }

  /** A 1-cell strictly inside a row prefix leaves the longer prefix with more 1-cells. */
  lemma {:induction false} CountRowGrows(cells: seq<int>, i: nat, j: nat)
    requires i < j <= |cells|
    ensures CountRow(cells[..i]) + (if cells[i] == 1 then 1 else 0) <= CountRow(cells[..j])
    decreases j
  {
    assert cells[..j][..j - 1] == cells[..j - 1];
    if j > i + 1 {
      CountRowGrows(cells, i, j - 1);
    }
  }

  lemma {:induction false} CountOnesGrows(m: seq<seq<int>>, i: nat, j: nat)
    requires i <= j <= |m|
    ensures CountOnes(m[..i]) <= CountOnes(m[..j])
    decreases j
  {
    if i < j {
      assert m[..j][..j - 1] == m[..j - 1];
      CountOnesGrows(m, i, j - 1);
    }
  }

  /**
   Row-major order: of two 1-cells, the one that comes first in row-major
   order has the smaller rank, so its square is drawn first.
   */
  lemma OnesBeforeOrdered(m: seq<seq<int>>, r1: nat, c1: nat, r2: nat, c2: nat)
    requires r1 < |m| && c1 < |m[r1]| && m[r1][c1] == 1
    requires r2 < |m| && c2 < |m[r2]|
    requires r1 < r2 || (r1 == r2 && c1 < c2)
    ensures OnesBefore(m, r1, c1) < OnesBefore(m, r2, c2)
  {
    if r1 == r2 {
      CountRowGrows(m[r1], c1, c2);
    } else {
      var row := m[r1];
      CountRowGrows(row, c1, |row|);
      assert row[..|row|] == row;
      assert m[..r1 + 1][..r1] == m[..r1];
      CountOnesGrows(m, r1 + 1, r2);
    }
  }

  // ---------------------------------------------------------------------
  // Logo sizing and placement
  // ---------------------------------------------------------------------

  function Abs(x: int): nat
  {
    if x < 0 then -x else x
  }

  /** Quotient of `a` by `b` rounded toward zero, as a cast to int truncates it. */
  function TruncDiv(a: int, b: int): (q: int)
    requires b > 0
    ensures q == 0 || (q < 0 <==> a < 0)
    ensures Abs(q) * b <= Abs(a) < (Abs(q) + 1) * b
  {
    if a >= 0 then a / b else -((-a) / b)
  }

  /**
   The logo's size: explicit dimensions are used as given; a missing width
   is the image's own width, and a missing height follows the image's
   aspect ratio applied to the resolved width, truncated toward zero.
   */
  function ResolveLogoSize(path: string, width: Option<int>, height: Option<int>,
                           imageSize: string -> Option<ImageSize>): (r: Result<LogoSize>)
    ensures width.Some? && height.Some? ==> r == Ok(LogoSize(width.value, height.value))
    ensures (width.None? || height.None?) && imageSize(path).None? ==>
      r == Err(ImageSizeUnavailable(path))
    ensures r.Err? ==> width.None? || height.None?
    ensures r.Ok? && width.Some? ==> r.value.width == width.value
    ensures r.Ok? && height.Some? ==> r.value.height == height.value
    ensures r.Ok? && width.None? ==>
      imageSize(path).Some? && r.value.width == imageSize(path).value.width
    ensures height.None? && imageSize(path).Some? ==>
      (r.Ok? <==> imageSize(path).value.width > 0)
    ensures r.Ok? && height.None? ==>
      var src := imageSize(path).value;
      src.width > 0 && r.value.height == TruncDiv(src.height * r.value.width, src.width)
    ensures imageSize(path).Some? && (height.Some? || imageSize(path).value.width > 0) ==> r.Ok?
    ensures height.None? && imageSize(path).Some? && imageSize(path).value.width == 0 ==>
      r == Err(DivisionByZero)
  {
    if width.Some? && height.Some? then Ok(LogoSize(width.value, height.value))
    else match imageSize(path)
      case None => Err(ImageSizeUnavailable(path))
      case Some(src) =>
        var w := if width.None? then src.width else width.value;
        if height.Some? then Ok(LogoSize(w, height.value))
        else if src.width == 0 then Err(DivisionByZero)
        else Ok(LogoSize(w, TruncDiv(src.height * w, src.width)))
  }

  /** A derived height is the aspect-ratio height to within one unit, never above it in size. */
  lemma DerivedHeightBounds(path: string, width: Option<int>, imageSize: string -> Option<ImageSize>)
    requires ResolveLogoSize(path, width, None, imageSize).Ok?
    ensures var size := ResolveLogoSize(path, width, None, imageSize).value;
            var src := imageSize(path).value;
            Abs(size.height) * src.width <= Abs(src.height * size.width)
            < (Abs(size.height) + 1) * src.width
  {
  }

  /** The offset that centres an extent of `size` on an extent of `outer`. */
  function CentreOffset(outer: int, size: int): (r: real)
    ensures r + size as real / 2.0 == outer as real / 2.0
  {
    outer as real / 2.0 - size as real / 2.0
  }

  /** The image command for the logo, centred on the page. */
  function PlaceLogo(path: string, width: Option<int>, height: Option<int>,
                     pageWidth: int, pageHeight: int,
                     imageSize: string -> Option<ImageSize>): (r: Result<Op>)
    ensures r.Ok? <==> ResolveLogoSize(path, width, height, imageSize).Ok?
    ensures r.Err? ==> r.error == ResolveLogoSize(path, width, height, imageSize).error
    ensures r.Ok? ==>
      var size := ResolveLogoSize(path, width, height, imageSize).value;
      r.value.Image? && r.value == Image(path, r.value.left, r.value.top, size.width, size.height)
    ensures r.Ok? ==> (r.value.Image? &&
      r.value.left + r.value.w as real / 2.0 == pageWidth as real / 2.0 &&
      r.value.top + r.value.h as real / 2.0 == pageHeight as real / 2.0)
    ensures r.Ok? ==> (r.value.Image? &&
      r.value.left == pageWidth as real - (r.value.left + r.value.w as real) &&
      r.value.top == pageHeight as real - (r.value.top + r.value.h as real))
  {
    match ResolveLogoSize(path, width, height, imageSize)
    case Err(e) => Err(e)
    case Ok(size) =>
      Ok(Image(path, CentreOffset(pageWidth, size.width), CentreOffset(pageHeight, size.height),
               size.width, size.height))
  }

  /** Explicit 50 x 50 logo on a 200 x 200 page, without consulting the image. */
  lemma ExplicitLogoPlacement(path: string, imageSize: string -> Option<ImageSize>)
    ensures PlaceLogo(path, Some(50), Some(50), 200, 200, imageSize)
         == Ok(Image(path, 75.0, 75.0, 50, 50))
  {
  }

  /** Width 40 over an 80 x 160 image gives height 80, placed at (80, 60) on a 200 x 200 page. */
  lemma DerivedLogoPlacement(path: string, imageSize: string -> Option<ImageSize>)
    requires imageSize(path) == Some(ImageSize(80, 160))
    ensures PlaceLogo(path, Some(40), None, 200, 200, imageSize)
         == Ok(Image(path, 80.0, 60.0, 40, 80))
  {
  }

  /** The width is halved exactly, not floored: an odd width gives a half-unit offset. */
  lemma OddLogoWidthPlacement(path: string, imageSize: string -> Option<ImageSize>)
    ensures PlaceLogo(path, Some(41), Some(41), 200, 200, imageSize)
         == Ok(Image(path, 79.5, 79.5, 41, 41))
  {
  }

  // ---------------------------------------------------------------------
  // The whole write
  // ---------------------------------------------------------------------

  /** The logo command, if a logo is configured and its size can be resolved. */
  function LogoOps(qr: QrCode, imageSize: string -> Option<ImageSize>): (r: seq<Op>)
    ensures |r| <= 1
    ensures r != [] <==> qr.logoPath.Some? && LogoPlacement(qr, imageSize).Ok?
    ensures r != [] ==> r[0] == LogoPlacement(qr, imageSize).value
  {
    match qr.logoPath
    case None => []
    case Some(_) =>
      match LogoPlacement(qr, imageSize)
      case Ok(op) => [op]
      case Err(_) => []
  }

  /** Placement of the configured logo on the page of the QR code's outer size. */
  function LogoPlacement(qr: QrCode, imageSize: string -> Option<ImageSize>): (r: Result<Op>)
    requires qr.logoPath.Some?
    ensures r.Ok? ==> r.value.Image? && r.value.path == qr.logoPath.value
    ensures r.Ok? ==> r.value.left + r.value.w as real / 2.0 == qr.data.outerWidth as real / 2.0
    ensures r.Ok? ==> r.value.top + r.value.h as real / 2.0 == qr.data.outerHeight as real / 2.0
  {
    PlaceLogo(qr.logoPath.value, qr.logoWidth, qr.logoHeight,
              qr.data.outerWidth, qr.data.outerHeight, imageSize)
  }

  /**
   The canvas log a write leaves behind: nothing when a precondition fails,
   otherwise the page set-up, the squares and the optional logo.
   */
  function Trace(qr: QrCode, imageSize: string -> Option<ImageSize>): (t: seq<Op>)
    ensures Precheck(qr).Some? ==> t == []
    ensures Precheck(qr).None? ==> |t| >= 4 && t[..4] == SetupOps(qr)
  {
    if Precheck(qr).Some? then []
    else
      var d := qr.data;
      SetupOps(qr) + MatrixOps(d.matrix, d.marginLeft, d.blockSize) + LogoOps(qr, imageSize)
  }

  /**
   What a write returns: the first failed precondition, or else the logo's
   sizing error, or else the document, i.e. the whole canvas log.
   */
  function Render(qr: QrCode, imageSize: string -> Option<ImageSize>): (r: Result<seq<Op>>)
    ensures Precheck(qr).Some? ==> r == Err(Precheck(qr).value)
    ensures r.Ok? ==> Precheck(qr).None? && r.value == Trace(qr, imageSize)
    ensures r.Ok? <==>
      Precheck(qr).None? && (qr.logoPath.None? || LogoPlacement(qr, imageSize).Ok?)
    ensures Precheck(qr).None? && qr.logoPath.Some? && LogoPlacement(qr, imageSize).Err? ==>
      r == Err(LogoPlacement(qr, imageSize).error)
  {
    match Precheck(qr)
    case Some(e) => Err(e)
    case None =>
      if qr.logoPath.Some? && LogoPlacement(qr, imageSize).Err? then
        Err(LogoPlacement(qr, imageSize).error)
      else
        Ok(Trace(qr, imageSize))
  }

  /** A successful write's log is the set-up, then the matrix's squares, then the logo. */
  lemma TraceParts(qr: QrCode, imageSize: string -> Option<ImageSize>)
    requires Precheck(qr).None?
    ensures Trace(qr, imageSize)
         == SetupOps(qr) + MatrixOps(qr.data.matrix, qr.data.marginLeft, qr.data.blockSize)
            + LogoOps(qr, imageSize)
  {
  }

  /**
   Layout of a successful write: four set-up commands, then the squares,
   one per 1-cell, then at most the logo.
   */
  lemma TraceLayout(qr: QrCode, imageSize: string -> Option<ImageSize>)
    requires Precheck(qr).None?
    ensures var t := Trace(qr, imageSize);
            var d := qr.data;
            && |t| == 4 + CountOnes(d.matrix) + |LogoOps(qr, imageSize)|
            && t[0] == NewPage(Unit(qr), d.outerWidth, d.outerHeight)
            && t[1] == SetFill(qr.background.r, qr.background.g, qr.background.b)
            && t[2] == Rect(0, 0, d.outerWidth, d.outerHeight)
            && t[3] == SetFill(qr.foreground.r, qr.foreground.g, qr.foreground.b)
  {
    TraceParts(qr, imageSize);
    MatrixOpsCount(qr.data.matrix, qr.data.marginLeft, qr.data.blockSize);
  }

  /** Each 1-cell's square sits right after the set-up, at the cell's row-major rank. */
  lemma TraceSquareForEveryOne(qr: QrCode, imageSize: string -> Option<ImageSize>, row: nat, col: nat)
    requires Precheck(qr).None?
    requires row < |qr.data.matrix| && col < |qr.data.matrix[row]| && qr.data.matrix[row][col] == 1
    ensures var t := Trace(qr, imageSize);
            var d := qr.data;
            && 4 + OnesBefore(d.matrix, row, col) < 4 + CountOnes(d.matrix) <= |t|
            && t[4 + OnesBefore(d.matrix, row, col)] == RectAt(d.marginLeft, d.blockSize, row, col)
  {
    var d := qr.data;
    TraceParts(qr, imageSize);
    MatrixOpsCount(d.matrix, d.marginLeft, d.blockSize);
    MatrixOpsAt(d.matrix, d.marginLeft, d.blockSize, row, col);
  }

  /** Every command between the set-up and the logo is the square of some 1-cell of that rank. */
  lemma TraceSquaresOnlyForOnes(qr: QrCode, imageSize: string -> Option<ImageSize>, k: nat)
    requires Precheck(qr).None?
    requires 4 <= k < 4 + CountOnes(qr.data.matrix)
    ensures var t := Trace(qr, imageSize);
            var d := qr.data;
            var m := d.matrix;
            && k < |t|
            && exists row, col :: 0 <= row < |m| && 0 <= col < |m[row]| && m[row][col] == 1
                                  && OnesBefore(m, row, col) == k - 4
                                  && t[k] == RectAt(d.marginLeft, d.blockSize, row, col)
  {
    var t := Trace(qr, imageSize);
    var d := qr.data;
    var m := d.matrix;
    var ops := MatrixOps(m, d.marginLeft, d.blockSize);
    TraceParts(qr, imageSize);
    MatrixOpsCount(m, d.marginLeft, d.blockSize);
    MatrixOpsOnlyOnes(m, d.marginLeft, d.blockSize, k - 4);
    var row, col :| 0 <= row < |m| && 0 <= col < |m[row]| && m[row][col] == 1
                    && OnesBefore(m, row, col) == k - 4
                    && ops[k - 4] == RectAt(d.marginLeft, d.blockSize, row, col);
    assert t[k] == ops[k - 4];
  }

  /**
   The log holds an image command only when a logo is configured and placed,
   and then exactly one, as the very last command.
   */
  lemma ImageOnlyLast(qr: QrCode, imageSize: string -> Option<ImageSize>)
    ensures var t := Trace(qr, imageSize);
            && (forall k | 0 <= k < |t| && t[k].Image? :: k == |t| - 1)
            && ((|t| > 0 && t[|t| - 1].Image?) <==>
                  Precheck(qr).None? && qr.logoPath.Some? && LogoPlacement(qr, imageSize).Ok?)
  {
    var t := Trace(qr, imageSize);
    if Precheck(qr).None? {
      var d := qr.data;
      var m := d.matrix;
      var ops := MatrixOps(m, d.marginLeft, d.blockSize);
      assert t == SetupOps(qr) + ops + LogoOps(qr, imageSize);
      forall k | 0 <= k < |ops|
        ensures ops[k].Rect?
      {
        MatrixOpsOnlyOnes(m, d.marginLeft, d.blockSize, k);
      }
      assert forall k | 0 <= k < 4 + |ops| :: t[k].Image? == false by {
        forall k | 0 <= k < 4 + |ops| ensures !t[k].Image? {
          if k >= 4 { assert t[k] == ops[k - 4]; }
        }
      }
    }
  }

  /** A matrix without 1-cells (for one, an empty matrix) draws only the set-up and the logo. */
  lemma NoOnesNoSquares(qr: QrCode, imageSize: string -> Option<ImageSize>)
    requires Precheck(qr).None? && CountOnes(qr.data.matrix) == 0
    ensures Trace(qr, imageSize) == SetupOps(qr) + LogoOps(qr, imageSize)
  {
    MatrixOpsCount(qr.data.matrix, qr.data.marginLeft, qr.data.blockSize);
  }

  // ---------------------------------------------------------------------
  // The writer, step by step
  // ---------------------------------------------------------------------

  /** Sizes the logo, centres it on the page and draws it; fails without drawing. */
  method AddLogo(canvas: Canvas, path: string, width: Option<int>, height: Option<int>,
                 imageWidth: int, imageHeight: int, imageSize: string -> Option<ImageSize>)
    returns (err: Option<WriteError>)
    modifies canvas
    ensures PlaceLogo(path, width, height, imageWidth, imageHeight, imageSize).Ok? ==>
      err.None? &&
      canvas.log == old(canvas.log) + [PlaceLogo(path, width, height, imageWidth, imageHeight, imageSize).value]
    ensures PlaceLogo(path, width, height, imageWidth, imageHeight, imageSize).Err? ==>
      err == Some(PlaceLogo(path, width, height, imageWidth, imageHeight, imageSize).error) &&
      canvas.log == old(canvas.log)
  {
    var placed := PlaceLogo(path, width, height, imageWidth, imageHeight, imageSize);
    match placed
    case Err(e) =>
      err := Some(e);
    case Ok(op) =>
      canvas.DrawImage(op.path, op.left, op.top, op.w, op.h);
      err := None;
  }

  /** The nested row and column loop: one filled square per cell equal to 1. */
  method DrawMatrix(canvas: Canvas, m: seq<seq<int>>, marginLeft: int, blockSize: int)
    modifies canvas
    ensures canvas.log == old(canvas.log) + MatrixOps(m, marginLeft, blockSize)
  {
    var row := 0;
    while row < |m|
      invariant 0 <= row <= |m|
      invariant canvas.log == old(canvas.log) + MatrixOps(m[..row], marginLeft, blockSize)
    {
      var values := m[row];
      var column := 0;
      while column < |values|
        invariant 0 <= column <= |values|
        invariant canvas.log == old(canvas.log) + MatrixOps(m[..row], marginLeft, blockSize)
                                + RowOps(values[..column], row, marginLeft, blockSize)
      {
        assert values[..column + 1][..column] == values[..column];
        if values[column] == 1 {
          canvas.FillRect(marginLeft + column * blockSize, marginLeft + row * blockSize,
                          blockSize, blockSize);
        }
        column := column + 1;
      }
      assert values[..column] == values;
      assert m[..row + 1][..row] == m[..row];
      row := row + 1;
    }
    assert m[..row] == m;
  }

  /**
   Writes the QR code to `canvas`, a fresh engine whose log is still empty.
   Returns the document (the final log) or the error the writer raises.
   */
  method WriteString(canvas: Canvas, qr: QrCode, imageSize: string -> Option<ImageSize>)
    returns (r: Result<seq<Op>>)
    requires canvas.log == []
    modifies canvas
    ensures canvas.log == Trace(qr, imageSize)
    ensures r == Render(qr, imageSize)
  {
    if qr.validateResult {
      return Err(ValidationFailure(ValidationMessage));
    }
    var foreground := qr.foreground;
    if foreground.a != 0 {
      return Err(InvalidArgument(ForegroundAlphaMessage));
    }
    var background := qr.background;
    if background.a != 0 {
      return Err(InvalidArgument(BackgroundAlphaMessage));
    }
    if qr.labelText.Some? {
      return Err(InvalidArgument(LabelMessage));
    }

    var d := qr.data;
    canvas.AddPage(Unit(qr), d.outerWidth, d.outerHeight);
    canvas.SetFillColor(background.r, background.g, background.b);
    canvas.FillRect(0, 0, d.outerWidth, d.outerHeight);
    canvas.SetFillColor(foreground.r, foreground.g, foreground.b);

    assert canvas.log == SetupOps(qr);

    DrawMatrix(canvas, d.matrix, d.marginLeft, d.blockSize);
    ghost var drawn := canvas.log;
    assert Trace(qr, imageSize) == drawn + LogoOps(qr, imageSize);

    if qr.logoPath.Some? {
      var err := AddLogo(canvas, qr.logoPath.value, qr.logoWidth, qr.logoHeight,
                         d.outerWidth, d.outerHeight, imageSize);
      if err.Some? {
        return Err(err.value);
      }
    }
    assert canvas.log == drawn + LogoOps(qr, imageSize);
    r := Ok(canvas.log);
  }
}

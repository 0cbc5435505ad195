/** The print sheet: copies of the passport photo in a centred grid on the
    paper, as laid out by the 300-DPI export (DownloadSection.tsx) and by the
    on-screen preview (PhotoPreview.tsx). Both run the same layout; they differ
    only in their pixel densities and in a uniform scale the preview applies
    after rounding to whole pixels. Positions are exact reals. */
module SheetLayout {
  import opened Common

  /** Pixels per centimetre, pixels per inch, and the factor applied to the
      rounded pixel sizes. */
  datatype Density = Density(pxPerCm: real, pxPerInch: real, scale: real)

  /** cmToPxHiRes / inchToPxHiRes, unscaled. */
  const Export := Density(118.11, 300.0, 1.0)
  /** cmToPx / inchToPx, then the preview's scaleFactor. */
  const Preview := Density(37.8, 96.0, 0.3)

  /** A photo or paper size from the catalogues, in its own unit. */
  datatype PhysicalSize = PhysicalSize(width: real, height: real, unit: string)

  /** The gap between photos: 0.3 cm. */
  const GapCm: real := 0.3

  /** toPx / toPxHiRes: the unit "cm" is converted per centimetre; any other
      unit string is taken to be inches. */
  function UnitToPx(d: Density, value: real, unit: string): (px: int)
    requires value >= 0.0 && d.pxPerCm >= 0.0 && d.pxPerInch >= 0.0
    ensures px >= 0
    ensures unit == "cm" ==> value * d.pxPerCm - 0.5 < px as real <= value * d.pxPerCm + 0.5
    ensures unit != "cm" ==> value * d.pxPerInch - 0.5 < px as real <= value * d.pxPerInch + 0.5
  {
    RoundClose(value * d.pxPerCm);
    RoundClose(value * d.pxPerInch);
    if unit == "cm" then Round(value * d.pxPerCm) else Round(value * d.pxPerInch)
  }

  /** Everything the drawing loop needs: grid size, how many copies to draw,
      the grid's top-left corner, cell size and gap (all scaled), and the
      paper's scaled size. */
  datatype Grid = Grid(cols: int, rows: int, maxPhotos: int,
                       startX: real, startY: real,
                       cellWidth: real, cellHeight: real, gap: real,
                       paperWidth: real, paperHeight: real)

  /** How many cells of size `cell` with `gap` between them fit in `paper`. */
  function FitCount(paper: real, cell: real, gap: real): int
    requires cell + gap > 0.0
  {
    ((paper + gap) / (cell + gap)).Floor
  }

  /** Where a run of n cells starts so that it is centred on the paper. */
  function GridStart(paper: real, cell: real, gap: real, n: int): real
  {
    (paper - (n as real * cell + (n - 1) as real * gap)) / 2.0
  }

  /** The grid formulas of both renderers, on whole-pixel sizes and a scale. */
  function PlanGrid(paperW: nat, paperH: nat, photoW: nat, photoH: nat, gap: nat, scale: real, photoCount: nat): Grid
    requires scale > 0.0 && photoW + gap > 0 && photoH + gap > 0
  {
    var paperWidth := paperW as real * scale;
    var paperHeight := paperH as real * scale;
    var photoWidth := photoW as real * scale;
    var photoHeight := photoH as real * scale;
    var g := gap as real * scale;
    PositiveScaled(photoW + gap, scale);
    PositiveScaled(photoH + gap, scale);
    var cols := FitCount(paperWidth, photoWidth, g);
    var rows := FitCount(paperHeight, photoHeight, g);
    Grid(cols, rows, Min(photoCount, cols * rows),
         GridStart(paperWidth, photoWidth, g, cols), GridStart(paperHeight, photoHeight, g, rows),
         photoWidth, photoHeight, g, paperWidth, paperHeight)
  }

  lemma PositiveScaled(n: nat, s: real)
    requires n > 0 && s > 0.0
    ensures n as real * s > 0.0
  {
  }

  /** The 0.3 cm gap between copies, in pixels at the renderer's density. */
  function GapPx(d: Density): (px: nat)
    requires d.pxPerCm >= 0.0 && d.pxPerInch >= 0.0
    ensures GapCm * d.pxPerCm - 0.5 < px as real <= GapCm * d.pxPerCm + 0.5
  {
    UnitToPx(d, GapCm, "cm")
  }

  predicate ValidDensity(d: Density)
  {
    d.pxPerCm > 0.0 && d.pxPerInch > 0.0 && d.scale > 0.0 && GapCm * d.pxPerCm >= 0.5
  }

  predicate ValidSize(s: PhysicalSize)
  {
    s.width >= 0.0 && s.height >= 0.0
  }

  /** The sheet for one renderer: sizes converted to whole pixels, then laid out. */
  function PlanSheet(d: Density, paper: PhysicalSize, photo: PhysicalSize, photoCount: nat): Grid
    requires ValidDensity(d) && ValidSize(paper) && ValidSize(photo)
  {
    PlanGrid(UnitToPx(d, paper.width, paper.unit), UnitToPx(d, paper.height, paper.unit),
             UnitToPx(d, photo.width, photo.unit), UnitToPx(d, photo.height, photo.unit),
             GapPx(d), d.scale, photoCount)
  }

  // ---- grid properties

  /** Floor of an integer quotient is integer division. */
  lemma FloorOfQuotient(a: int, b: int)
    requires b > 0
    ensures (a as real / b as real).Floor == a / b
  {
    var q, r := a / b, a % b;
    assert a == b * q + r;
    assert a as real / b as real == q as real + r as real / b as real;
    assert 0.0 <= r as real / b as real < 1.0;
  }

  /** The scale cancels: columns and rows are those of the unscaled whole-pixel
      sizes, and the number of copies drawn is the requested count capped by
      the grid's capacity. */
  lemma {:induction false} GridScaleFree(paperW: nat, paperH: nat, photoW: nat, photoH: nat, gap: nat, scale: real, photoCount: nat)
    requires scale > 0.0 && photoW + gap > 0 && photoH + gap > 0
    ensures var g := PlanGrid(paperW, paperH, photoW, photoH, gap, scale, photoCount);
      g.cols == (paperW + gap) / (photoW + gap) &&
      g.rows == (paperH + gap) / (photoH + gap) &&
      g.maxPhotos == Min(photoCount, g.cols * g.rows)
  {
    ScaledFloor(paperW, photoW, gap, scale);
    ScaledFloor(paperH, photoH, gap, scale);
  }

  /** floor((P s + G s) / (C s + G s)) == (P + G) div (C + G). */
  lemma ScaledFloor(p: nat, c: nat, g: nat, s: real)
    requires c + g > 0 && s > 0.0
    ensures c as real * s + g as real * s > 0.0
    ensures FitCount(p as real * s, c as real * s, g as real * s) == (p + g) / (c + g)
  {
    PositiveScaled(c + g, s);
    var num, den := (p + g) as real, (c + g) as real;
    assert p as real * s + g as real * s == num * s;
    assert c as real * s + g as real * s == den * s;
    CancelFactor(num, den, s);
    var q := (p as real * s + g as real * s) / (c as real * s + g as real * s);
    assert q == num / den;
    FloorOfQuotient(p + g, c + g);
    assert q.Floor == (num / den).Floor;
  }

  lemma CancelFactor(num: real, den: real, s: real)
    requires den > 0.0 && s > 0.0
    ensures (num * s) / (den * s) == num / den
  {
    var z := (num * s) / (den * s);
    assert z * (den * s) == num * s;
    assert (z * den) * s == num * s;
    assert z * den == num;
  }

  /** Extent of n cells of size c with gap g between neighbours. */
  function Extent(n: int, c: int, g: int): int { n * c + (n - 1) * g }

  /** The grid is as large as fits: n = (P + G) / (C + G) cells span at most
      P, and one more would not. */
  lemma {:induction false} ExtentFits(p: nat, c: nat, g: nat)
    requires c + g > 0
    ensures var n := (p + g) / (c + g);
      n >= 0 && (n >= 1 ==> Extent(n, c, g) <= p) && Extent(n + 1, c, g) > p
  {
    var n := (p + g) / (c + g);
    assert (p + g) == (c + g) * n + (p + g) % (c + g);
    assert Extent(n, c, g) + g == n * (c + g);
    assert Extent(n + 1, c, g) + g == (n + 1) * (c + g);
  }

  /** A grid centred on its paper: non-negative cell and gap sizes, and on
      each axis the margins before and after the cells are equal and, when
      there is a cell at all, not negative. */
  predicate Centred(g: Grid)
  {
    CentredOnAxis(g.startX, g.cols, g.cellWidth, g.gap, g.paperWidth) &&
    CentredOnAxis(g.startY, g.rows, g.cellHeight, g.gap, g.paperHeight)
  }

  /** n cells of size `cell`, `gap` apart, starting at `start`, leave equal
      margins on a paper of size `paper`. */
  predicate CentredOnAxis(start: real, n: int, cell: real, gap: real, paper: real)
  {
    cell >= 0.0 && gap >= 0.0 && (n >= 1 ==> start >= 0.0) &&
    start * 2.0 + (n as real * cell + (n - 1) as real * gap) == paper
  }

  /** The grid of both renderers is centred on the paper and does not
      overhang it. */
  lemma {:induction false} GridCentred(paperW: nat, paperH: nat, photoW: nat, photoH: nat, gap: nat, scale: real, photoCount: nat)
    requires scale > 0.0 && photoW + gap > 0 && photoH + gap > 0
    ensures Centred(PlanGrid(paperW, paperH, photoW, photoH, gap, scale, photoCount))
  {
    AxisCentred(paperW, photoW, gap, scale);
    AxisCentred(paperH, photoH, gap, scale);
  }

  /** Along one axis: the n scaled cells that fit, started at
      (P s - extent) / 2, sit centred and within P s. */
  lemma {:induction false} AxisCentred(p: nat, c: nat, g: nat, s: real)
    requires c + g > 0 && s > 0.0
    ensures c as real * s + g as real * s > 0.0
    ensures var n := FitCount(p as real * s, c as real * s, g as real * s);
      CentredOnAxis(GridStart(p as real * s, c as real * s, g as real * s, n), n, c as real * s, g as real * s, p as real * s)
  {
    MulNonNegR(c as real, s);
    MulNonNegR(g as real, s);
    ScaledFloor(p, c, g, s);
    var n := (p + g) / (c + g);
    ExtentFits(p, c, g);
    ScaledExtent(n, c, g, s);
    if n >= 1 {
      MulLeR(Extent(n, c, g) as real, p as real, s);
    }
  }

  lemma ScaledExtent(n: int, c: int, g: int, s: real)
    ensures n as real * (c as real * s) + (n - 1) as real * (g as real * s) == Extent(n, c, g) as real * s
  {
    assert n as real * (c as real * s) == (n * c) as real * s;
    assert (n - 1) as real * (g as real * s) == ((n - 1) * g) as real * s;
  }

  // ---- cells

  /** The k-th cell in row-major order. */
  function CellRect(g: Grid, k: int): Rect
    requires g.cols > 0
  {
    var row := k / g.cols;
    var col := k % g.cols;
    Rect(g.startX + col as real * (g.cellWidth + g.gap), g.startY + row as real * (g.cellHeight + g.gap),
         g.cellWidth, g.cellHeight)
  }

  /** Every cell of a centred grid lies on the paper. */
  lemma {:induction false} CellInsidePaper(g: Grid, k: int)
    requires Centred(g) && g.cols > 0 && 0 <= k < g.cols * g.rows
    ensures var r := CellRect(g, k);
      0.0 <= r.x && r.x + r.width <= g.paperWidth &&
      0.0 <= r.y && r.y + r.height <= g.paperHeight
  {
    RowOfCell(k, g.cols, g.rows);
    var row, col := k / g.cols, k % g.cols;
    SpanBound(col, g.cols, g.cellWidth, g.gap);
    SpanBound(row, g.rows, g.cellHeight, g.gap);
  }

  /** A cell at index i < n ends no later than the extent of n cells. */
  lemma SpanBound(i: int, n: int, c: real, g: real)
    requires 0 <= i < n && c >= 0.0 && g >= 0.0
    ensures 0.0 <= i as real * (c + g) && i as real * (c + g) + c <= n as real * c + (n - 1) as real * g
  {
    MulLeRNonNeg(i as real, (n - 1) as real, c + g);
    assert (n - 1) as real * (c + g) + c == n as real * c + (n - 1) as real * g;
  }

  lemma MulLeRNonNeg(a: real, b: real, c: real)
    requires 0.0 <= a <= b && c >= 0.0
    ensures 0.0 <= a * c <= b * c
  {
  }

  /** Distinct cells do not overlap: they are a whole step apart in a row or
      in a column, and a step is at least a cell. */
  lemma {:induction false} CellsDisjoint(g: Grid, k1: int, k2: int)
    requires g.cols > 0 && g.cellWidth >= 0.0 && g.cellHeight >= 0.0 && g.gap >= 0.0
    requires 0 <= k1 && 0 <= k2 && k1 != k2
    ensures var a, b := CellRect(g, k1), CellRect(g, k2);
      a.x + a.width <= b.x || b.x + b.width <= a.x || a.y + a.height <= b.y || b.y + b.height <= a.y
  {
    var r1, c1 := k1 / g.cols, k1 % g.cols;
    var r2, c2 := k2 / g.cols, k2 % g.cols;
    assert k1 == g.cols * r1 + c1 && k2 == g.cols * r2 + c2;
    if c1 < c2 {
      StepApart(c1, c2, g.cellWidth, g.gap);
    } else if c2 < c1 {
      StepApart(c2, c1, g.cellWidth, g.gap);
    } else if r1 < r2 {
      StepApart(r1, r2, g.cellHeight, g.gap);
    } else {
      assert r2 < r1;
      StepApart(r2, r1, g.cellHeight, g.gap);
    }
  }

  lemma StepApart(i: int, j: int, c: real, g: real)
    requires i < j && c >= 0.0 && g >= 0.0
    ensures i as real * (c + g) + c <= j as real * (c + g)
  {
    MulLeRNonNeg(1.0, (j - i) as real, c + g);
    assert j as real * (c + g) - i as real * (c + g) == (j - i) as real * (c + g);
  }

  // ---- the centre crop of the photo

  /** The part of the photo drawn into each cell: the largest centred
      rectangle with the cell's aspect ratio. */
  function CenterCrop(imgW: nat, imgH: nat, cellW: real, cellH: real): Rect
    requires imgW > 0 && imgH > 0 && cellW > 0.0 && cellH > 0.0
  {
    var imgAspect := imgW as real / imgH as real;
    var cellAspect := cellW / cellH;
    if imgAspect > cellAspect then
      var srcWidth := imgH as real * cellAspect;
      Rect((imgW as real - srcWidth) / 2.0, 0.0, srcWidth, imgH as real)
    else
      var srcHeight := imgW as real / cellAspect;
      Rect(0.0, (imgH as real - srcHeight) / 2.0, imgW as real, srcHeight)
  }

  /** The crop is inside the image, centred in it, spans its full width or
      its full height, and has the cell's aspect ratio. */
  lemma CenterCropFits(imgW: nat, imgH: nat, cellW: real, cellH: real)
    requires imgW > 0 && imgH > 0 && cellW > 0.0 && cellH > 0.0
    ensures var r := CenterCrop(imgW, imgH, cellW, cellH);
      0.0 <= r.x && 0.0 <= r.y && r.width > 0.0 && r.height > 0.0 &&
      2.0 * r.x + r.width == imgW as real && 2.0 * r.y + r.height == imgH as real &&
      (r.width == imgW as real || r.height == imgH as real) &&
      r.width * cellH == r.height * cellW
  {
    var w, h := imgW as real, imgH as real;
    var imgAspect := w / h;
    var cellAspect := cellW / cellH;
    assert cellAspect * cellH == cellW;
    if imgAspect > cellAspect {
      MulLtR(cellAspect, imgAspect, h);
      assert imgAspect * h == w;
    } else {
      MulLeR(imgAspect, cellAspect, h);
      assert imgAspect * h == w;
      assert w / cellAspect * cellAspect == w;
      MulLeR(w / cellAspect, h, cellAspect);
    }
  }

  // ---- drawing the copies

  /** One drawImage call: where on the sheet, and which part of the photo. */
  datatype Placement = Placement(dest: Rect, src: Rect)

  /** The k-th copy: cell k, showing the centre crop of the photo. */
  function Copy(g: Grid, imgW: nat, imgH: nat, k: int): Placement
    requires g.cols > 0 && imgW > 0 && imgH > 0 && g.cellWidth > 0.0 && g.cellHeight > 0.0
  {
    Placement(CellRect(g, k), CenterCrop(imgW, imgH, g.cellWidth, g.cellHeight))
  }

  /** The cell at column col of row row is cell row * cols + col. */
  lemma CellAt(g: Grid, row: int, col: int)
    requires 0 <= col < g.cols
    ensures CellRect(g, row * g.cols + col) ==
      Rect(g.startX + col as real * (g.cellWidth + g.gap), g.startY + row as real * (g.cellHeight + g.gap),
           g.cellWidth, g.cellHeight)
  {
    var k := row * g.cols + col;
    DivModOfRowMajor(row, col, g.cols);
    assert k / g.cols == row && k % g.cols == col;
  }

  /** The nested row and column loops of both renderers. They stop as soon as
      maxPhotos copies have been placed; the k-th copy goes to cell k in
      row-major order. */
  method PlacePhotos(g: Grid, imgW: nat, imgH: nat) returns (placed: seq<Placement>)
    requires g.cols >= 0 && g.rows >= 0 && 0 <= g.maxPhotos <= g.cols * g.rows
    requires imgW > 0 && imgH > 0 && g.cellWidth > 0.0 && g.cellHeight > 0.0
    ensures |placed| == g.maxPhotos
    ensures forall k :: 0 <= k < |placed| ==> g.cols > 0 && placed[k] == Copy(g, imgW, imgH, k)
  {
    placed := [];
    var count := 0;
    var row := 0;
    while row < g.rows && count < g.maxPhotos
      invariant 0 <= row <= g.rows
      invariant count == Min(row * g.cols, g.maxPhotos) && |placed| == count
      invariant forall k :: 0 <= k < count ==> g.cols > 0 && placed[k] == Copy(g, imgW, imgH, k)
    {
      var col := 0;
      while col < g.cols && count < g.maxPhotos
        invariant 0 <= col <= g.cols
        invariant count == row * g.cols + col && count <= g.maxPhotos && |placed| == count
        invariant forall k :: 0 <= k < count ==> g.cols > 0 && placed[k] == Copy(g, imgW, imgH, k)
      {
        var x := g.startX + col as real * (g.cellWidth + g.gap);
        var y := g.startY + row as real * (g.cellHeight + g.gap);
        var src := CenterCrop(imgW, imgH, g.cellWidth, g.cellHeight);
        CellAt(g, row, col);
        placed := placed + [Placement(Rect(x, y, g.cellWidth, g.cellHeight), src)];
        count := count + 1;
        col := col + 1;
      }
      assert (row + 1) * g.cols == row * g.cols + g.cols;
      row := row + 1;
    }
    assert g.rows * g.cols == g.cols * g.rows;
  }

  /** End to end: every copy drawn on a planned sheet, that is every cell k
      below the capped count that PlacePhotos draws into, lies on the paper. */
  lemma {:induction false} PlannedCopiesOnPaper(d: Density, paper: PhysicalSize, photo: PhysicalSize, photoCount: nat, k: int)
    requires ValidDensity(d) && ValidSize(paper) && ValidSize(photo)
    requires 0 <= k < PlanSheet(d, paper, photo, photoCount).maxPhotos
    ensures var g := PlanSheet(d, paper, photo, photoCount);
      g.cols > 0 &&
      var r := CellRect(g, k);
      0.0 <= r.x && r.x + r.width <= g.paperWidth &&
      0.0 <= r.y && r.y + r.height <= g.paperHeight
  {
    var pw, ph := UnitToPx(d, paper.width, paper.unit), UnitToPx(d, paper.height, paper.unit);
    var cw, ch := UnitToPx(d, photo.width, photo.unit), UnitToPx(d, photo.height, photo.unit);
    var gap := GapPx(d);
    assert gap > 0;
    var g := PlanSheet(d, paper, photo, photoCount);
    assert g == PlanGrid(pw, ph, cw, ch, gap, d.scale, photoCount);
    GridScaleFree(pw, ph, cw, ch, gap, d.scale, photoCount);
    GridCentred(pw, ph, cw, ch, gap, d.scale, photoCount);
    assert k < g.cols * g.rows;
    CellInsidePaper(g, k);
  }

  // ---- the catalogue

  const A4 := PhysicalSize(29.7, 21.0, "cm")
  const Passport35x45 := PhysicalSize(3.5, 4.5, "cm")

  /** A4 with 3.5 x 4.5 cm photos at 300 DPI: 3508 x 2480 paper, 413 x 531
      cells, a 35 pixel gap, and room for 7 x 4 = 28 copies, so the 30 and
      37 photo plans are cut to 28 and the 21 photo plan is drawn in full. */
  lemma A4Export()
    ensures UnitToPx(Export, 29.7, "cm") == 3508 && UnitToPx(Export, 21.0, "cm") == 2480
    ensures UnitToPx(Export, 3.5, "cm") == 413 && UnitToPx(Export, 4.5, "cm") == 531
    ensures GapPx(Export) == 35
    ensures var g := PlanSheet(Export, A4, Passport35x45, 30);
      g.cols == 7 && g.rows == 4 && g.maxPhotos == 28
    ensures PlanSheet(Export, A4, Passport35x45, 37).maxPhotos == 28
    ensures PlanSheet(Export, A4, Passport35x45, 21).maxPhotos == 21
  {
    GridScaleFree(3508, 2480, 413, 531, 35, 1.0, 30);
    GridScaleFree(3508, 2480, 413, 531, 35, 1.0, 37);
    GridScaleFree(3508, 2480, 413, 531, 35, 1.0, 21);
  }

  /** The preview of the same sheet: 1123 x 794 paper, 132 x 170 cells and an
      11 pixel gap before the 0.3 scale, and the same 7 x 4 grid. */
  lemma A4Preview()
    ensures UnitToPx(Preview, 29.7, "cm") == 1123 && UnitToPx(Preview, 21.0, "cm") == 794
    ensures UnitToPx(Preview, 3.5, "cm") == 132 && UnitToPx(Preview, 4.5, "cm") == 170
    ensures GapPx(Preview) == 11
    ensures var g := PlanSheet(Preview, A4, Passport35x45, 30);
      g.cols == 7 && g.rows == 4 && g.maxPhotos == 28
  {
    GridScaleFree(1123, 794, 132, 170, 11, 0.3, 30);
  }

  /** 2.54 cm is one inch at either density, although 118.11 and 37.8 are
      rounded values of 300 / 2.54 and 96 / 2.54. */
  lemma InchInCentimetres()
    ensures UnitToPx(Export, 2.54, "cm") == UnitToPx(Export, 1.0, "inch") == 300
    ensures UnitToPx(Preview, 2.54, "cm") == UnitToPx(Preview, 1.0, "inch") == 96
  {
    assert 2.54 * 118.11 == 299.9994;
    assert 2.54 * 37.8 == 96.012;
  }

  /** A size in any unit other than "cm" is read as inches. */
  lemma NonCmIsInch(d: Density, value: real, unit: string)
    requires value >= 0.0 && d.pxPerCm >= 0.0 && d.pxPerInch >= 0.0
    ensures unit != "cm" ==> UnitToPx(d, value, unit) == UnitToPx(d, value, "inch")
    ensures UnitToPx(d, value, "mm") == UnitToPx(d, value, "inch")
  {
  }
}

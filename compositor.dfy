/** The background compositor of backgroundRemoval.ts (applyBackgroundColor):
    three in-place passes over an RGBA byte buffer of w*h pixels, each reading
    the alpha of a snapshot taken before the first pass.

      pass 1, edge blend:    interior pixels with snapshot alpha in 6..249
      pass 2, spill pull:    pixels two away from the border, alpha in 39..234,
                             greenish or (grayish and alpha <= 127)
      pass 3, fringe feather: any pixel with alpha in 3..30

    Every threshold of the source compares byte/255 against a decimal; the
    predicates below keep that form and lemmas give the exact byte ranges. */
module Compositor {
  import opened Common
  import opened HexColor

  // ---- pixel addressing (row-major, four bytes per pixel)

  function Px(w: nat, x: int, y: int): int { y * w + x }

  function Col(w: nat, p: int): int { if w == 0 then 0 else p % w }

  function Row(w: nat, p: int): int { if w == 0 then 0 else p / w }

  /** Byte i of a buffer, or 0 outside it. */
  function At(s: seq<byte>, i: int): byte { if 0 <= i < |s| then s[i] else 0 }

  function AlphaOf(s: seq<byte>, p: int): byte { At(s, 4 * p + 3) }

  /** Pixel p comes before column x of row y in row-major order. */
  predicate Before(w: nat, p: int, x: int, y: int)
  {
    Row(w, p) < y || (Row(w, p) == y && Col(w, p) < x)
  }

  lemma PixelCoordinates(w: nat, x: int, y: int)
    requires 0 <= x < w
    ensures Row(w, Px(w, x, y)) == y && Col(w, Px(w, x, y)) == x
  {
    DivModOfRowMajor(y, x, w);
  }

  /** Moving one column on within a row adds exactly the pixel at (x, y). */
  lemma AdvanceBefore(w: nat, q: int, x: int, y: int)
    requires 0 <= x < w
    ensures Before(w, q, x + 1, y) <==> Before(w, q, x, y) || q == Px(w, x, y)
  {
    PixelCoordinates(w, x, y);
    if Row(w, q) == y && Col(w, q) == x {
      assert q == w * (q / w) + q % w;
    }
  }

  // ---- blending

  /** The gamma curve of pass 1 (Math.pow(t, 0.85)),
      abstracted: any map of [0,1] into [0,1]. */
  ghost predicate UnitGamma(gamma: real -> real)
  {
    forall t :: 0.0 <= t <= 1.0 ==> 0.0 <= gamma(t) <= 1.0
  }

  /** Math.round(fg * s + bg * (1 - s)): a convex blend of two channel values. */
  function Mix(fg: byte, bg: byte, s: real): (v: byte)
    requires 0.0 <= s <= 1.0
    ensures fg <= bg ==> fg <= v <= bg
    ensures bg <= fg ==> bg <= v <= fg
    ensures s == 1.0 ==> v == fg
    ensures s == 0.0 ==> v == bg
  {
    var x := fg as real * s + bg as real * (1.0 - s);
    RoundedBlendBetween(fg, bg, s);
    RoundOfInt(fg);
    RoundOfInt(bg);
    Round(x)
  }

  lemma RoundedBlendBetween(fg: int, bg: int, s: real)
    requires 0.0 <= s <= 1.0
    ensures var v := Round(fg as real * s + bg as real * (1.0 - s));
      (fg <= bg ==> fg <= v <= bg) && (bg <= fg ==> bg <= v <= fg)
  {
    var x := fg as real * s + bg as real * (1.0 - s);
    ConvexBetween(fg as real, bg as real, s, x);
    if fg <= bg {
      assert fg as real <= bg as real;
      RoundWithin(x, fg, bg);
    } else {
      assert bg as real <= fg as real;
      RoundWithin(x, bg, fg);
    }
  }

  /** A convex combination v of a and b lies between them. */
  lemma ConvexBetween(a: real, b: real, s: real, v: real)
    requires 0.0 <= s <= 1.0 && v == a * s + b * (1.0 - s)
    ensures a <= b ==> a <= v <= b
    ensures b <= a ==> b <= v <= a
  {
    assert v - a == (b - a) * (1.0 - s);
    assert b - v == (b - a) * s;
    if a <= b {
      MulNonNegR(b - a, 1.0 - s);
      MulNonNegR(b - a, s);
    } else {
      MulNonNegR(a - b, 1.0 - s);
      MulNonNegR(a - b, s);
    }
  }

  /** Writes the colour bytes of the pixel whose red byte is at i. */
  method SetRgb(data: array<byte>, i: nat, r: byte, g: byte, b: byte)
    requires i + 2 < data.Length
    modifies data
    ensures data[..] == old(data[..])[i := r][i + 1 := g][i + 2 := b]
  {
    data[i] := r;
    data[i + 1] := g;
    data[i + 2] := b;
  }

  // ---- pass 1: edge blend

  predicate SoftEdge(a: byte)
  {
    !(a as real / 255.0 >= 0.98 || a as real / 255.0 <= 0.02)
  }

  lemma SoftEdgeBand(a: byte)
    ensures SoftEdge(a) <==> 6 <= a <= 249
  {
  }

  predicate EdgeCandidate(orig: seq<byte>, w: nat, h: nat, p: int)
  {
    1 <= Col(w, p) <= w - 2 && 1 <= Row(w, p) <= h - 2 && SoftEdge(AlphaOf(orig, p))
  }

  /** Alpha of cell k (0..8, row-major, 4 is the centre) of the 3x3 window
      around (x, y). */
  function WindowAlpha(orig: seq<byte>, w: nat, x: int, y: int, k: int): byte
  {
    At(orig, 4 * Px(w, x + k % 3 - 1, y + k / 3 - 1) + 3)
  }

  function WindowCells(k: int): int { if k > 4 then k - 1 else k }

  /** Sum of the snapshot alpha bytes of the first k cells of the window,
      leaving out the centre. */
  function WindowSum(orig: seq<byte>, w: nat, x: int, y: int, k: nat): (s: int)
    requires k <= 9
    ensures 0 <= s <= 255 * WindowCells(k)
  {
    if k == 0 then 0
    else WindowSum(orig, w, x, y, k - 1) + (if k - 1 == 4 then 0 else WindowAlpha(orig, w, x, y, k - 1))
  }

  /** The smoothed alpha of pass 1 for pixel p:
      gamma(0.7 * alpha + 0.3 * average alpha of the eight neighbours). */
  function EdgeWeight(orig: seq<byte>, w: nat, p: int, gamma: real -> real): (s: real)
    requires UnitGamma(gamma)
    ensures 0.0 <= s <= 1.0
  {
    var a := AlphaOf(orig, p) as real / 255.0;
    var avg := (WindowSum(orig, w, Col(w, p), Row(w, p), 9) as real / 255.0) / 8.0;
    gamma(a * 0.7 + avg * 0.3)
  }

  /** What pass 1 writes into byte j of a candidate pixel. */
  function EdgeValue(orig: seq<byte>, w: nat, bg: Rgb, gamma: real -> real, p: int, k: int): byte
    requires UnitGamma(gamma)
  {
    if k == 3 then 255
    else Mix(At(orig, 4 * p + k), Channel(bg, k), EdgeWeight(orig, w, p, gamma))
  }

  function EdgeBlend(cur: seq<byte>, orig: seq<byte>, w: nat, h: nat, bg: Rgb, gamma: real -> real): (r: seq<byte>)
    requires UnitGamma(gamma)
    ensures |r| == |cur|
  {
    seq(|cur|, j requires 0 <= j < |cur| =>
      if EdgeCandidate(orig, w, h, j / 4) then EdgeValue(orig, w, bg, gamma, j / 4, j % 4) else cur[j])
  }

  /** One more cell of the window: the centre adds nothing, any other cell
      adds the alpha of the pixel at offset (dx, dy). */
  lemma WindowStep(orig: seq<byte>, w: nat, x: int, y: int, dx: int, dy: int)
    requires -1 <= dx <= 1 && -1 <= dy <= 1
    ensures var k := 3 * (dy + 1) + dx + 1;
      WindowSum(orig, w, x, y, k + 1) == WindowSum(orig, w, x, y, k) +
        (if dx == 0 && dy == 0 then 0 else At(orig, ((y + dy) * w + (x + dx)) * 4 + 3))
  {
    var k := 3 * (dy + 1) + dx + 1;
    DivModOfRowMajor(dy + 1, dx + 1, 3);
    assert k == (dy + 1) * 3 + (dx + 1);
    assert 4 * Px(w, x + dx, y + dy) == ((y + dy) * w + (x + dx)) * 4;
  }

  /** The 3x3 neighbour loop of pass 1. */
  method NeighbourAlphaSum(orig: seq<byte>, w: nat, h: nat, x: int, y: int) returns (sum: real, count: nat)
    requires |orig| == 4 * (w * h)
    requires 1 <= x <= w - 2 && 1 <= y <= h - 2
    ensures count == 8
    ensures sum == WindowSum(orig, w, x, y, 9) as real / 255.0
  {
    sum, count := 0.0, 0;
    var dy := -1;
    while dy <= 1
      invariant -1 <= dy <= 2
      invariant count == WindowCells(3 * (dy + 1))
      invariant sum == WindowSum(orig, w, x, y, 3 * (dy + 1)) as real / 255.0
    {
      var dx := -1;
      while dx <= 1
        invariant -1 <= dx <= 2
        invariant count == WindowCells(3 * (dy + 1) + dx + 1)
        invariant sum == WindowSum(orig, w, x, y, 3 * (dy + 1) + dx + 1) as real / 255.0
      {
        if !(dx == 0 && dy == 0) {
          var ni := ((y + dy) * w + (x + dx)) * 4;
          CellInGrid(x + dx, y + dy, w, h);
          sum := sum + orig[ni + 3] as real / 255.0;
          count := count + 1;
        }
        WindowStep(orig, w, x, y, dx, dy);
        dx := dx + 1;
      }
      dy := dy + 1;
    }
  }

  /** Pass 1 has visited the pixels before column x of row y. */
  ghost predicate EdgeDone(d: seq<byte>, cur: seq<byte>, orig: seq<byte>, w: nat, h: nat, bg: Rgb, gamma: real -> real, x: int, y: int)
  {
    UnitGamma(gamma) && |d| == |cur| &&
    forall j {:trigger d[j]} :: 0 <= j < |d| ==>
      d[j] == (if Before(w, j / 4, x, y) && EdgeCandidate(orig, w, h, j / 4)
               then EdgeValue(orig, w, bg, gamma, j / 4, j % 4) else cur[j])
  }

  /** Visiting pixel p = (x, y) extends EdgeDone by one column. */
  lemma EdgeAdvance(d0: seq<byte>, d1: seq<byte>, cur: seq<byte>, orig: seq<byte>, w: nat, h: nat, bg: Rgb, gamma: real -> real, x: int, y: int)
    requires 0 <= x < w
    requires EdgeDone(d0, cur, orig, w, h, bg, gamma, x, y) && |d1| == |d0|
    requires 0 <= 4 * Px(w, x, y) && 4 * Px(w, x, y) + 3 < |d0|
    requires var p := Px(w, x, y);
      d1 == if EdgeCandidate(orig, w, h, p)
            then d0[4 * p := EdgeValue(orig, w, bg, gamma, p, 0)][4 * p + 1 := EdgeValue(orig, w, bg, gamma, p, 1)]
                   [4 * p + 2 := EdgeValue(orig, w, bg, gamma, p, 2)][4 * p + 3 := 255]
            else d0
    ensures EdgeDone(d1, cur, orig, w, h, bg, gamma, x + 1, y)
  {
    var p := Px(w, x, y);
    forall j | 0 <= j < |d1|
      ensures d1[j] == (if Before(w, j / 4, x + 1, y) && EdgeCandidate(orig, w, h, j / 4)
                        then EdgeValue(orig, w, bg, gamma, j / 4, j % 4) else cur[j])
    {
      AdvanceBefore(w, j / 4, x, y);
      if j / 4 == p {
        assert j == 4 * p + j % 4;
      }
    }
  }

  /** The weight pass 1 computes from the running sum and count of the
      neighbour loop is EdgeWeight. */
  lemma EdgeWeightOfPixel(orig: seq<byte>, w: nat, x: int, y: int, gamma: real -> real, a: real, sum: real, count: nat)
    requires 0 <= x < w && UnitGamma(gamma)
    requires a == AlphaOf(orig, Px(w, x, y)) as real / 255.0
    requires count == 8 && sum == WindowSum(orig, w, x, y, 9) as real / 255.0
    ensures gamma(a * 0.7 + sum / count as real * 0.3) == EdgeWeight(orig, w, Px(w, x, y), gamma)
  {
    PixelCoordinates(w, x, y);
  }

  /** The body of pass 1 for the interior pixel at (x, y). */
  method EdgePixel(data: array<byte>, orig: seq<byte>, w: nat, h: nat, bg: Rgb, gamma: real -> real, x: nat, y: nat, ghost cur: seq<byte>)
    requires data.Length == |orig| == 4 * (w * h)
    requires 1 <= x < w - 1 && 1 <= y < h - 1
    requires EdgeDone(data[..], cur, orig, w, h, bg, gamma, x, y)
    modifies data
    ensures EdgeDone(data[..], cur, orig, w, h, bg, gamma, x + 1, y)
  {
    var i := (y * w + x) * 4;
    CellInGrid(x, y, w, h);
    PixelCoordinates(w, x, y);
    ghost var p := y * w + x;
    DivModOfRowMajor(p, 0, 4);
    DivModOfRowMajor(p, 1, 4);
    DivModOfRowMajor(p, 2, 4);
    DivModOfRowMajor(p, 3, 4);
    ghost var before := data[..];
    assert !Before(w, p, x, y);
    assert before[i] == cur[i] && before[i + 1] == cur[i + 1] && before[i + 2] == cur[i + 2] && before[i + 3] == cur[i + 3];
    var originalAlpha := orig[i + 3] as real / 255.0;
    assert AlphaOf(orig, p) as real / 255.0 == originalAlpha;
    if !(originalAlpha >= 0.98 || originalAlpha <= 0.02) {
      assert EdgeCandidate(orig, w, h, p);
      var neighborAlphaSum, neighborCount := NeighbourAlphaSum(orig, w, h, x, y);
      var avgNeighborAlpha := neighborAlphaSum / neighborCount as real;
      var blendAlpha := originalAlpha * 0.7 + avgNeighborAlpha * 0.3;
      var smoothedAlpha := gamma(blendAlpha);
      EdgeWeightOfPixel(orig, w, x, y, gamma, originalAlpha, neighborAlphaSum, neighborCount);
      assert At(orig, 4 * p) == orig[i] && At(orig, 4 * p + 1) == orig[i + 1] && At(orig, 4 * p + 2) == orig[i + 2];
      SetRgb(data, i, Mix(orig[i], bg.r, smoothedAlpha), Mix(orig[i + 1], bg.g, smoothedAlpha), Mix(orig[i + 2], bg.b, smoothedAlpha));
      data[i + 3] := 255;
    } else {
      assert !EdgeCandidate(orig, w, h, p);
    }
    EdgeAdvance(before, data[..], cur, orig, w, h, bg, gamma, x, y);
  }

  method EdgeBlendPass(data: array<byte>, orig: seq<byte>, w: nat, h: nat, bg: Rgb, gamma: real -> real)
    requires data.Length == |orig| == 4 * (w * h)
    requires UnitGamma(gamma)
    modifies data
    ensures data[..] == EdgeBlend(old(data[..]), orig, w, h, bg, gamma)
  {
    ghost var cur := data[..];
    var y := 1;
    while y < h - 1
      invariant 1 <= y
      invariant EdgeDone(data[..], cur, orig, w, h, bg, gamma, 0, y)
    {
      var x := 1;
      while x < w - 1
        invariant 1 <= x
        invariant EdgeDone(data[..], cur, orig, w, h, bg, gamma, x, y)
      {
        EdgePixel(data, orig, w, h, bg, gamma, x, y, cur);
        x := x + 1;
      }
      y := y + 1;
    }
    assert forall j :: 0 <= j < data.Length ==> data[..][j] == EdgeBlend(cur, orig, w, h, bg, gamma)[j];
  }

  // ---- pass 2: colour-spill pull

  const SpillReduction: real := 0.6

  predicate SpillBand(a: byte)
  {
    !(a as real / 255.0 < 0.15 || a as real / 255.0 > 0.92)
  }

  predicate Greenish(r: byte, g: byte, b: byte)
  {
    g as real > r as real * 1.1 && g as real > b as real * 1.1
  }

  function Abs(n: int): nat { if n < 0 then -n else n }

  predicate Grayish(r: byte, g: byte, b: byte)
  {
    Abs(r as int - g as int) < 20 && Abs(g as int - b as int) < 20 && Abs(r as int - b as int) < 20
  }

  /** Pass 2 acts on pixel p of the current buffer `cur`. */
  predicate SpillCandidate(cur: seq<byte>, orig: seq<byte>, w: nat, h: nat, p: int)
  {
    var a := AlphaOf(orig, p);
    var r, g, b := At(cur, 4 * p), At(cur, 4 * p + 1), At(cur, 4 * p + 2);
    2 <= Col(w, p) <= w - 3 && 2 <= Row(w, p) <= h - 3 && SpillBand(a) &&
    (Greenish(r, g, b) || (Grayish(r, g, b) && a as real / 255.0 < 0.5))
  }

  function SpillValue(cur: seq<byte>, bg: Rgb, p: int, k: int): byte
  {
    Mix(At(cur, 4 * p + k), Channel(bg, k), 1.0 - SpillReduction)
  }

  function SpillPull(cur: seq<byte>, orig: seq<byte>, w: nat, h: nat, bg: Rgb): (r: seq<byte>)
    ensures |r| == |cur|
  {
    seq(|cur|, j requires 0 <= j < |cur| =>
      if SpillCandidate(cur, orig, w, h, j / 4) && j % 4 != 3 then SpillValue(cur, bg, j / 4, j % 4) else cur[j])
  }

  /** Pass 2 has visited the pixels before column x of row y. */
  ghost predicate SpillDone(d: seq<byte>, cur: seq<byte>, orig: seq<byte>, w: nat, h: nat, bg: Rgb, x: int, y: int)
  {
    |d| == |cur| &&
    forall j {:trigger d[j]} :: 0 <= j < |d| ==>
      d[j] == (if Before(w, j / 4, x, y) && SpillCandidate(cur, orig, w, h, j / 4) && j % 4 != 3
               then SpillValue(cur, bg, j / 4, j % 4) else cur[j])
  }

  /** Visiting pixel p = (x, y) extends SpillDone by one column. */
  lemma SpillAdvance(d0: seq<byte>, d1: seq<byte>, cur: seq<byte>, orig: seq<byte>, w: nat, h: nat, bg: Rgb, x: int, y: int)
    requires 0 <= x < w
    requires SpillDone(d0, cur, orig, w, h, bg, x, y) && |d1| == |d0|
    requires 0 <= 4 * Px(w, x, y) && 4 * Px(w, x, y) + 3 < |d0|
    requires var p := Px(w, x, y);
      d1 == if SpillCandidate(cur, orig, w, h, p)
            then d0[4 * p := SpillValue(cur, bg, p, 0)][4 * p + 1 := SpillValue(cur, bg, p, 1)][4 * p + 2 := SpillValue(cur, bg, p, 2)]
            else d0
    ensures SpillDone(d1, cur, orig, w, h, bg, x + 1, y)
  {
    var p := Px(w, x, y);
    forall j | 0 <= j < |d1|
      ensures d1[j] == (if Before(w, j / 4, x + 1, y) && SpillCandidate(cur, orig, w, h, j / 4) && j % 4 != 3
                        then SpillValue(cur, bg, j / 4, j % 4) else cur[j])
    {
      AdvanceBefore(w, j / 4, x, y);
      if j / 4 == p {
        assert j == 4 * p + j % 4;
      }
    }
  }

  /** The test pass 2 applies to the bytes it reads at (x, y) is SpillCandidate. */
  lemma SpillCandidateAt(cur: seq<byte>, orig: seq<byte>, w: nat, h: nat, x: int, y: int, r: byte, g: byte, b: byte, alpha: real)
    requires 2 <= x < w - 2 && 2 <= y < h - 2
    requires var p := Px(w, x, y); At(cur, 4 * p) == r && At(cur, 4 * p + 1) == g && At(cur, 4 * p + 2) == b
    requires alpha == AlphaOf(orig, Px(w, x, y)) as real / 255.0
    ensures SpillCandidate(cur, orig, w, h, Px(w, x, y)) <==>
      !(alpha < 0.15 || alpha > 0.92) &&
      ((g as real > r as real * 1.1 && g as real > b as real * 1.1) ||
       (Abs(r as int - g as int) < 20 && Abs(g as int - b as int) < 20 && Abs(r as int - b as int) < 20 && alpha < 0.5))
  {
    PixelCoordinates(w, x, y);
  }

  /** The body of pass 2 for the pixel at (x, y). */
  method SpillPixel(data: array<byte>, orig: seq<byte>, w: nat, h: nat, bg: Rgb, x: nat, y: nat, ghost cur: seq<byte>)
    requires data.Length == |orig| == 4 * (w * h)
    requires 2 <= x < w - 2 && 2 <= y < h - 2
    requires SpillDone(data[..], cur, orig, w, h, bg, x, y)
    modifies data
    ensures SpillDone(data[..], cur, orig, w, h, bg, x + 1, y)
  {
    var i := (y * w + x) * 4;
    CellInGrid(x, y, w, h);
    PixelCoordinates(w, x, y);
    ghost var p := y * w + x;
    DivModOfRowMajor(p, 0, 4);
    DivModOfRowMajor(p, 1, 4);
    DivModOfRowMajor(p, 2, 4);
    DivModOfRowMajor(p, 3, 4);
    ghost var before := data[..];
    assert !Before(w, p, x, y);
    assert before[i] == cur[i] && before[i + 1] == cur[i + 1] && before[i + 2] == cur[i + 2] && before[i + 3] == cur[i + 3];
    var originalAlpha := orig[i + 3] as real / 255.0;
    SpillCandidateAt(cur, orig, w, h, x, y, cur[i], cur[i + 1], cur[i + 2], originalAlpha);
    if !(originalAlpha < 0.15 || originalAlpha > 0.92) {
      var r, g, b := data[i], data[i + 1], data[i + 2];
      var isGreenish := g as real > r as real * 1.1 && g as real > b as real * 1.1;
      var isGrayish := Abs(r as int - g as int) < 20 && Abs(g as int - b as int) < 20 && Abs(r as int - b as int) < 20;
      if isGreenish || (isGrayish && originalAlpha < 0.5) {
        SetRgb(data, i, Mix(r, bg.r, 1.0 - SpillReduction), Mix(g, bg.g, 1.0 - SpillReduction), Mix(b, bg.b, 1.0 - SpillReduction));
      }
    }
    SpillAdvance(before, data[..], cur, orig, w, h, bg, x, y);
  }

  method SpillPass(data: array<byte>, orig: seq<byte>, w: nat, h: nat, bg: Rgb)
    requires data.Length == |orig| == 4 * (w * h)
    modifies data
    ensures data[..] == SpillPull(old(data[..]), orig, w, h, bg)
  {
    ghost var cur := data[..];
    var y := 2;
    while y < h - 2
      invariant 2 <= y
      invariant SpillDone(data[..], cur, orig, w, h, bg, 0, y)
    {
      var x := 2;
      while x < w - 2
        invariant 2 <= x
        invariant SpillDone(data[..], cur, orig, w, h, bg, x, y)
      {
        SpillPixel(data, orig, w, h, bg, x, y, cur);
        x := x + 1;
      }
      y := y + 1;
    }
    assert forall j :: 0 <= j < data.Length ==> data[..][j] == SpillPull(cur, orig, w, h, bg)[j];
  }

  // ---- pass 3: fringe feather

  predicate Fringe(a: byte)
  {
    a as real / 255.0 > 0.01 && a as real / 255.0 < 0.12
  }

  /** What pass 3 writes into byte k of fringe pixel p. */
  function FeatherValue(orig: seq<byte>, bg: Rgb, p: int, k: int): byte
    requires Fringe(AlphaOf(orig, p))
  {
    if k == 3 then 255
    else Mix(At(orig, 4 * p + k), Channel(bg, k), AlphaOf(orig, p) as real / 255.0 * 3.0)
  }

  function Feather(cur: seq<byte>, orig: seq<byte>, bg: Rgb): (r: seq<byte>)
    ensures |r| == |cur|
  {
    seq(|cur|, j requires 0 <= j < |cur| =>
      if Fringe(AlphaOf(orig, j / 4)) then FeatherValue(orig, bg, j / 4, j % 4) else cur[j])
  }

  /** Pass 3 has visited the pixels before column x of row y. */
  ghost predicate FeatherDone(d: seq<byte>, cur: seq<byte>, orig: seq<byte>, w: nat, bg: Rgb, x: int, y: int)
  {
    |d| == |cur| &&
    forall j {:trigger d[j]} :: 0 <= j < |d| ==>
      d[j] == (if Before(w, j / 4, x, y) && Fringe(AlphaOf(orig, j / 4))
               then FeatherValue(orig, bg, j / 4, j % 4) else cur[j])
  }

  /** Visiting pixel p = (x, y) extends FeatherDone by one column. */
  lemma FeatherAdvance(d0: seq<byte>, d1: seq<byte>, cur: seq<byte>, orig: seq<byte>, w: nat, bg: Rgb, x: int, y: int)
    requires 0 <= x < w
    requires FeatherDone(d0, cur, orig, w, bg, x, y) && |d1| == |d0|
    requires 0 <= 4 * Px(w, x, y) && 4 * Px(w, x, y) + 3 < |d0|
    requires var p := Px(w, x, y);
      d1 == if Fringe(AlphaOf(orig, p))
            then d0[4 * p := FeatherValue(orig, bg, p, 0)][4 * p + 1 := FeatherValue(orig, bg, p, 1)]
                   [4 * p + 2 := FeatherValue(orig, bg, p, 2)][4 * p + 3 := 255]
            else d0
    ensures FeatherDone(d1, cur, orig, w, bg, x + 1, y)
  {
    var p := Px(w, x, y);
    PixelCoordinates(w, x, y);
    assert !Before(w, p, x, y);
    forall j | 0 <= j < |d1|
      ensures d1[j] == (if Before(w, j / 4, x + 1, y) && Fringe(AlphaOf(orig, j / 4))
                        then FeatherValue(orig, bg, j / 4, j % 4) else cur[j])
    {
      AdvanceBefore(w, j / 4, x, y);
      if j / 4 == p {
        assert j == 4 * p + j % 4;
        assert d0[j] == cur[j];
      }
    }
  }

  /** The body of pass 3 for the pixel at (x, y). */
  method FeatherPixel(data: array<byte>, orig: seq<byte>, w: nat, bg: Rgb, x: nat, y: nat, ghost cur: seq<byte>)
    requires data.Length == |orig| && x < w && 4 * Px(w, x, y) + 3 < data.Length
    requires FeatherDone(data[..], cur, orig, w, bg, x, y)
    modifies data
    ensures FeatherDone(data[..], cur, orig, w, bg, x + 1, y)
  {
    ghost var before := data[..];
    var i := (y * w + x) * 4;
    var originalAlpha := orig[i + 3] as real / 255.0;
    assert AlphaOf(orig, Px(w, x, y)) as real / 255.0 == originalAlpha;
    if originalAlpha > 0.01 && originalAlpha < 0.12 {
      var featherBlend := originalAlpha * 3.0;
      SetRgb(data, i, Mix(orig[i], bg.r, featherBlend), Mix(orig[i + 1], bg.g, featherBlend), Mix(orig[i + 2], bg.b, featherBlend));
      data[i + 3] := 255;
    }
    FeatherAdvance(before, data[..], cur, orig, w, bg, x, y);
  }

  method FeatherPass(data: array<byte>, orig: seq<byte>, w: nat, h: nat, bg: Rgb)
    requires data.Length == |orig| == 4 * (w * h)
    modifies data
    ensures data[..] == Feather(old(data[..]), orig, bg)
  {
    ghost var cur := data[..];
    var y := 0;
    while y < h
      invariant 0 <= y <= h
      invariant FeatherDone(data[..], cur, orig, w, bg, 0, y)
    {
      var x := 0;
      while x < w
        invariant 0 <= x <= w
        invariant FeatherDone(data[..], cur, orig, w, bg, x, y)
      {
        CellInGrid(x, y, w, h);
        FeatherPixel(data, orig, w, bg, x, y, cur);
        x := x + 1;
      }
      y := y + 1;
    }
    forall j | 0 <= j < data.Length
      ensures Before(w, j / 4, 0, h)
    {
      RowOfCell(j / 4, w, h);
    }
    assert forall j :: 0 <= j < data.Length ==> data[..][j] == Feather(cur, orig, bg)[j];
  }

  // ---- the whole compositor

  function Composite(buf: seq<byte>, w: nat, h: nat, bg: Rgb, gamma: real -> real): (r: seq<byte>)
    requires UnitGamma(gamma)
    ensures |r| == |buf|
  {
    Feather(SpillPull(EdgeBlend(buf, buf, w, h, bg, gamma), buf, w, h, bg), buf, bg)
  }

  /** applyBackgroundColor after the cutout has been drawn over the filled
      canvas: snapshot, then the three passes in order. */
  method ApplyBackgroundColor(data: array<byte>, w: nat, h: nat, backgroundColor: string, gamma: real -> real)
    requires data.Length == 4 * (w * h)
    requires UnitGamma(gamma)
    modifies data
    ensures data[..] == Composite(old(data[..]), w, h, HexToRgb(backgroundColor), gamma)
  {
    var bgColor := HexToRgb(backgroundColor);
    var originalData := data[..];
    EdgeBlendPass(data, originalData, w, h, bgColor, gamma);
    SpillPass(data, originalData, w, h, bgColor);
    FeatherPass(data, originalData, w, h, bgColor);
  }

  // ---- what each pass may change

  /** v lies between a and b (inclusive), whichever is larger. */
  predicate Between(v: int, a: int, b: int)
  {
    (a <= b ==> a <= v <= b) && (b <= a ==> b <= v <= a)
  }

  lemma SpillBandRange(a: byte)
    ensures SpillBand(a) <==> 39 <= a <= 234
  {
  }

  lemma FringeRange(a: byte)
    ensures Fringe(a) <==> 3 <= a <= 30
  {
  }

  /** The "grayish" branch of pass 2 needs alpha / 255 < 0.5, i.e. alpha <= 127. */
  lemma HalfAlphaRange(a: byte)
    ensures a as real / 255.0 < 0.5 <==> a <= 127
  {
  }

  /** g > 1.1 r on integers: 10 g > 11 r. */
  lemma GreenishExact(r: byte, g: byte, b: byte)
    ensures Greenish(r, g, b) <==> 10 * g > 11 * r && 10 * g > 11 * b
  {
  }

  /** Pass 1 changes only interior pixels whose snapshot alpha is 6..249; it
      makes them opaque and moves each colour byte from the snapshot towards
      the background. */
  lemma EdgeBlendChanges(cur: seq<byte>, orig: seq<byte>, w: nat, h: nat, bg: Rgb, gamma: real -> real, j: int)
    requires UnitGamma(gamma) && |orig| == |cur| && 0 <= j < |cur|
    ensures var r := EdgeBlend(cur, orig, w, h, bg, gamma)[j];
      var p := j / 4;
      (r == cur[j] || (1 <= Col(w, p) <= w - 2 && 1 <= Row(w, p) <= h - 2 && 6 <= AlphaOf(orig, p) <= 249)) &&
      (EdgeCandidate(orig, w, h, p) && j % 4 == 3 ==> r == 255) &&
      (EdgeCandidate(orig, w, h, p) && j % 4 != 3 ==> Between(r, orig[j], Channel(bg, j % 4)))
  {
    SoftEdgeBand(AlphaOf(orig, j / 4));
  }

  /** Pass 2 changes only colour bytes of pixels two away from the border whose
      snapshot alpha is 39..234, moving them towards the background. */
  lemma SpillPullChanges(cur: seq<byte>, orig: seq<byte>, w: nat, h: nat, bg: Rgb, j: int)
    requires 0 <= j < |cur|
    ensures var r := SpillPull(cur, orig, w, h, bg)[j];
      var p := j / 4;
      (r == cur[j] || (j % 4 != 3 && 2 <= Col(w, p) <= w - 3 && 2 <= Row(w, p) <= h - 3 && 39 <= AlphaOf(orig, p) <= 234)) &&
      Between(r, cur[j], Channel(bg, j % 4))
  {
    SpillBandRange(AlphaOf(orig, j / 4));
  }

  /** Pass 3 changes only pixels whose snapshot alpha is 3..30, border pixels
      included; it makes them opaque and blends the snapshot colour with the
      background. */
  lemma FeatherChanges(cur: seq<byte>, orig: seq<byte>, bg: Rgb, j: int)
    requires |orig| == |cur| && 0 <= j < |cur|
    ensures var r := Feather(cur, orig, bg)[j];
      var a := AlphaOf(orig, j / 4);
      (r == cur[j] || 3 <= a <= 30) &&
      (3 <= a <= 30 && j % 4 == 3 ==> r == 255) &&
      (3 <= a <= 30 && j % 4 != 3 ==> Between(r, orig[j], Channel(bg, j % 4)))
  {
    FringeRange(AlphaOf(orig, j / 4));
  }

  // ---- the composite as a whole

  /** A pixel chosen by pass 2 was already chosen by pass 1: its band and its
      margin are both inside those of pass 1. */
  lemma SpillWithinEdge(cur: seq<byte>, orig: seq<byte>, w: nat, h: nat, p: int)
    requires SpillCandidate(cur, orig, w, h, p)
    ensures EdgeCandidate(orig, w, h, p)
  {
    SpillBandRange(AlphaOf(orig, p));
    SoftEdgeBand(AlphaOf(orig, p));
  }

  /** The alpha byte of the composite: opaque exactly where pass 1 or pass 3
      acted, the snapshot's alpha everywhere else. */
  lemma CompositeAlpha(buf: seq<byte>, w: nat, h: nat, bg: Rgb, gamma: real -> real, p: int)
    requires UnitGamma(gamma) && 0 <= p && 4 * p + 3 < |buf|
    ensures Composite(buf, w, h, bg, gamma)[4 * p + 3] ==
      if 3 <= buf[4 * p + 3] <= 30 || (1 <= Col(w, p) <= w - 2 && 1 <= Row(w, p) <= h - 2 && 6 <= buf[4 * p + 3] <= 249)
      then 255 else buf[4 * p + 3]
  {
    var j := 4 * p + 3;
    assert j / 4 == p && j % 4 == 3;
    FringeRange(buf[j]);
    SoftEdgeBand(buf[j]);
  }

  /** A pixel neither pass 1 nor pass 3 selects keeps all four bytes: pass 2
      never selects a pixel pass 1 skipped. */
  lemma CompositeKeepsUnselected(buf: seq<byte>, w: nat, h: nat, bg: Rgb, gamma: real -> real, j: int)
    requires UnitGamma(gamma) && 0 <= j < |buf|
    requires !Fringe(AlphaOf(buf, j / 4)) && !EdgeCandidate(buf, w, h, j / 4)
    ensures Composite(buf, w, h, bg, gamma)[j] == buf[j]
  {
    var e := EdgeBlend(buf, buf, w, h, bg, gamma);
    if SpillCandidate(e, buf, w, h, j / 4) {
      SpillWithinEdge(e, buf, w, h, j / 4);
      assert false;
    }
  }

  /** Every colour byte of the composite lies between the snapshot's byte and
      the background's channel: no pass overshoots either end. */
  lemma CompositeColourBetween(buf: seq<byte>, w: nat, h: nat, bg: Rgb, gamma: real -> real, j: int)
    requires UnitGamma(gamma) && 0 <= j < |buf| && j % 4 != 3
    ensures Between(Composite(buf, w, h, bg, gamma)[j], buf[j], Channel(bg, j % 4))
  {
    var e := EdgeBlend(buf, buf, w, h, bg, gamma);
    var sp := SpillPull(e, buf, w, h, bg);
    EdgeBlendChanges(buf, buf, w, h, bg, gamma, j);
    assert Between(e[j], buf[j], Channel(bg, j % 4));
    SpillPullChanges(e, buf, w, h, bg, j);
    assert Between(sp[j], buf[j], Channel(bg, j % 4));
    FeatherChanges(sp, buf, bg, j);
  }

  /** On a snapshot whose every alpha byte is 255 the three passes change
      nothing. This is the buffer the browser hands back after an opaque
      fillRect and a drawImage over it (backgroundRemoval.ts:122-130). */
  lemma OpaqueSnapshotUnchanged(buf: seq<byte>, w: nat, h: nat, bg: Rgb, gamma: real -> real)
    requires UnitGamma(gamma) && |buf| % 4 == 0
    requires forall j :: 0 <= j < |buf| && j % 4 == 3 ==> buf[j] == 255
    ensures Composite(buf, w, h, bg, gamma) == buf
  {
    var c := Composite(buf, w, h, bg, gamma);
    FringeRange(255);
    SoftEdgeBand(255);
    forall j | 0 <= j < |buf|
      ensures c[j] == buf[j]
    {
      AlphaByteOfPixel(j, |buf|);
      assert AlphaOf(buf, j / 4) == 255;
      CompositeKeepsUnselected(buf, w, h, bg, gamma, j);
    }
  }

  /** The alpha byte of the pixel holding byte j lies in the buffer. */
  lemma AlphaByteOfPixel(j: int, n: int)
    requires 0 <= j < n && n % 4 == 0
    ensures 0 <= 4 * (j / 4) + 3 < n && (4 * (j / 4) + 3) % 4 == 3
  {
    DivModOfRowMajor(j / 4, 3, 4);
    assert n == 4 * (n / 4);
    assert j == 4 * (j / 4) + j % 4;
    assert j / 4 < n / 4;
  }

  /** The output is not opaque everywhere: a clear pixel stays clear. */
  lemma ClearPixelStaysClear(gamma: real -> real)
    requires UnitGamma(gamma)
    ensures Composite([10, 20, 30, 0], 1, 1, White, gamma) == [10, 20, 30, 0]
  {
    var buf: seq<byte> := [10, 20, 30, 0];
    forall j | 0 <= j < 4
      ensures Composite(buf, 1, 1, White, gamma)[j] == buf[j]
    {
      assert AlphaOf(buf, j / 4) == 0;
      CompositeKeepsUnselected(buf, 1, 1, White, gamma, j);
    }
  }
}

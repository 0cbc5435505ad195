/** The segmentation side of backgroundRemoval.ts: the working-size cap
    (resizeImageIfNeeded), the check of the segmenter's result, and the loop
    that turns the segmenter's mask into the alpha channel of the RGBA buffer.
    The segmenter itself is a foreign model: its result is an input here. */
module Segmentation {
  import opened Common

  const MaxImageDimension: nat := 1024

  /** The working canvas size, and whether the image had to be scaled down. */
  datatype Resized = Resized(width: nat, height: nat, scaled: bool)

  function ResizeImageIfNeeded(width: nat, height: nat): (r: Resized)
    ensures r.scaled <==> width > MaxImageDimension || height > MaxImageDimension
    ensures !r.scaled ==> r.width == width && r.height == height
    ensures r.width <= MaxImageDimension && r.height <= MaxImageDimension
    ensures r.scaled && width > height ==> r.width == MaxImageDimension
    ensures r.scaled && width <= height ==> r.height == MaxImageDimension
  {
    if width > MaxImageDimension || height > MaxImageDimension then
      if width > height then
        var h := Round((height * MaxImageDimension) as real / width as real);
        ScaledAtMost(height, width, MaxImageDimension);
        RoundWithin((height * MaxImageDimension) as real / width as real, 0, MaxImageDimension);
        Resized(MaxImageDimension, h, true)
      else
        var w := Round((width * MaxImageDimension) as real / height as real);
        ScaledAtMost(width, height, MaxImageDimension);
        RoundWithin((width * MaxImageDimension) as real / height as real, 0, MaxImageDimension);
        Resized(w, MaxImageDimension, true)
    else
      Resized(width, height, false)
  }

  /** The shorter side scaled by m / longer side lies in [0, m]. */
  lemma ScaledAtMost(short: nat, long: nat, m: nat)
    requires 0 < long && short <= long
    ensures 0.0 <= (short * m) as real / long as real <= m as real
  {
    var q := (short * m) as real / long as real;
    assert q * long as real == (short * m) as real;
    MulNonNeg(short, m);
    MulNonNeg(long - short, m);
    assert long * m - short * m == (long - short) * m;
    if q < 0.0 {
      MulLtR(q, 0.0, long as real);
      assert false;
    }
    assert (long * m) as real == m as real * long as real;
    if q > m as real {
      MulLtR(m as real, q, long as real);
      assert false;
    }
  }

  /** Scaling keeps the aspect ratio up to the rounding of the shorter side:
      the rounded side is within half a pixel of its exact proportional value. */
  lemma {:induction false} ResizeKeepsAspect(width: nat, height: nat)
    requires width > MaxImageDimension || height > MaxImageDimension
    ensures var r := ResizeImageIfNeeded(width, height);
      if width > height then
        2 * (r.height * width - height * MaxImageDimension) <= width &&
        2 * (height * MaxImageDimension - r.height * width) < width
      else
        2 * (r.width * height - width * MaxImageDimension) <= height &&
        2 * (width * MaxImageDimension - r.width * height) < height
  {
    if width > height {
      RoundedProportion(height * MaxImageDimension, width);
    } else {
      RoundedProportion(width * MaxImageDimension, height);
    }
  }

  /** n = round(num / d) is within half of d of num / d, scaled by d. */
  lemma RoundedProportion(num: int, d: int)
    requires d > 0
    ensures var n := Round(num as real / d as real);
      2 * (n * d - num) <= d && 2 * (num - n * d) < d
  {
    var dr := d as real;
    var x := num as real / dr;
    var nr := Round(x) as real;
    RoundClose(x);
    assert x * dr == num as real;
    MulLeR(nr, x + 0.5, dr);
    MulLtR(x - 0.5, nr, dr);
    assert (x + 0.5) * dr == x * dr + 0.5 * dr;
    assert (x - 0.5) * dr == x * dr - 0.5 * dr;
    var nd := Round(x) * d;
    assert nd as real == nr * dr;
    assert 2.0 * (num as real - nd as real) < dr;
    assert (2 * (num - nd)) as real == 2.0 * (num as real - nd as real);
    assert 2.0 * (nd as real - num as real) <= dr;
    assert (2 * (nd - num)) as real == 2.0 * (nd as real - num as real);
  }

  /** A very thin image can lose its short side entirely. */
  lemma ThinImageCollapses()
    ensures ResizeImageIfNeeded(3000, 1) == Resized(1024, 0, true)
    ensures ResizeImageIfNeeded(1024, 1024) == Resized(1024, 1024, false)
    ensures ResizeImageIfNeeded(2048, 2048) == Resized(1024, 1024, true)
  {
  }

  // ---- the segmenter's result

  /** One entry of the segmenter's output array; `mask` is its per-pixel data,
      when present. */
  datatype Segment = Segment(mask: Option<seq<real>>)

  /** What `await segmenter(...)` may produce, as far as the check cares:
      nothing, something that is not an array, or an array of segments. */
  datatype SegmenterOutput = Missing | NotAnArray | Segments(items: seq<Segment>)

  const InvalidSegmentation := "Invalid segmentation result"

  function CheckSegmentation(out: SegmenterOutput): (r: Result<seq<real>>)
    ensures r.Err? <==> out.Missing? || out.NotAnArray? || |out.items| == 0 || out.items[0].mask.None?
    ensures r.Err? ==> r.msg == InvalidSegmentation
    ensures r.Ok? ==> Some(r.value) == out.items[0].mask
  {
    match out
    case Segments(items) =>
      if |items| == 0 || items[0].mask.None? then Err(InvalidSegmentation)
      else Ok(items[0].mask.value)
    case _ => Err(InvalidSegmentation)
  }

  // ---- mask to alpha

  /** The alpha byte for mask value m: Math.round((1 - m) * 255), clamped on
      store into the Uint8ClampedArray. */
  function MaskAlpha(m: real): (a: byte)
    ensures m <= 0.0 ==> a == 255
    ensures m >= 1.0 ==> a == 0
    ensures 0.0 <= m <= 1.0 ==> (1.0 - m) * 255.0 - 0.5 < a as real <= (1.0 - m) * 255.0 + 0.5
  {
    RoundClose((1.0 - m) * 255.0);
    Clamp(Round((1.0 - m) * 255.0), 0, 255)
  }

  /** A larger mask value (more background) never gives a more opaque pixel. */
  lemma MaskAlphaAntitone(m1: real, m2: real)
    requires m1 <= m2
    ensures MaskAlpha(m1) >= MaskAlpha(m2)
  {
  }

  /** The buffer after the mask loop: byte 4i+3 of pixel i carries the alpha
      of mask value i; colour bytes, and alpha bytes past the mask, are kept. */
  function MaskApplied(buf: seq<byte>, mask: seq<real>): (r: seq<byte>)
    ensures |r| == |buf|
  {
    seq(|buf|, j requires 0 <= j < |buf| =>
      if j % 4 == 3 && j / 4 < |mask| then MaskAlpha(mask[j / 4]) else buf[j])
  }

  /** The mask loop writes only alpha bytes: R, G and B of every pixel are kept. */
  lemma MaskKeepsColour(buf: seq<byte>, mask: seq<real>, j: int)
    requires 0 <= j < |buf| && j % 4 != 3
    ensures MaskApplied(buf, mask)[j] == buf[j]
  {
  }

  /** The loop of removeBackground over the mask. A write past the end of a
      typed array is ignored, so a mask longer than the image changes nothing
      beyond the buffer. */
  method WriteMaskAlpha(data: array<byte>, mask: seq<real>)
    modifies data
    ensures data[..] == MaskApplied(old(data[..]), mask)
  {
    ghost var before := data[..];
    var i := 0;
    while i < |mask|
      invariant 0 <= i <= |mask|
      invariant forall j :: 0 <= j < data.Length ==>
        data[j] == if j % 4 == 3 && j / 4 < i then MaskAlpha(mask[j / 4]) else before[j]
    {
      var alpha := Round((1.0 - mask[i]) * 255.0);
      if i * 4 + 3 < data.Length {
        data[i * 4 + 3] := Clamp(alpha, 0, 255);
      }
      i := i + 1;
    }
    assert forall j :: 0 <= j < data.Length ==> data[..][j] == MaskApplied(before, mask)[j];
  }

  /** The error getImageData throws for a zero width or height. */
  const EmptyImageData := "IndexSizeError"

  /** removeBackground after inference: the image has been drawn into `data`
      at the working size, four bytes per pixel (getImageData of the whole
      resized canvas); an invalid result throws before the buffer is read, a
      zero-area canvas makes getImageData throw, and otherwise the mask is
      written into the alpha channel. */
  method RemoveBackground(naturalWidth: nat, naturalHeight: nat, data: array<byte>, out: SegmenterOutput)
    returns (r: Result<Resized>)
    requires var size := ResizeImageIfNeeded(naturalWidth, naturalHeight);
      data.Length == 4 * (size.width * size.height)
    modifies data
    ensures r.Ok? ==> data.Length == 4 * (r.value.width * r.value.height) > 0
    ensures r.Err? <==> (CheckSegmentation(out).Err? ||
      ResizeImageIfNeeded(naturalWidth, naturalHeight).width * ResizeImageIfNeeded(naturalWidth, naturalHeight).height == 0)
    ensures CheckSegmentation(out).Err? ==> r == Err(InvalidSegmentation)
    ensures CheckSegmentation(out).Ok? && r.Err? ==> r == Err(EmptyImageData)
    ensures r.Err? ==> data[..] == old(data[..])
    ensures r.Ok? ==> r.value == ResizeImageIfNeeded(naturalWidth, naturalHeight)
    ensures r.Ok? ==> data[..] == MaskApplied(old(data[..]), CheckSegmentation(out).value)
  {
    var size := ResizeImageIfNeeded(naturalWidth, naturalHeight);
    var checked := CheckSegmentation(out);
    if checked.Err? {
      return Err(checked.msg);
    }
    if size.width * size.height == 0 {
      return Err(EmptyImageData);
    }
    WriteMaskAlpha(data, checked.value);
    r := Ok(size);
  }
}

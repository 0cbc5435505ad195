/** Shared vocabulary of the photo pipeline: optional values and error
    results, the 8-bit channel type of an RGBA buffer, the rounding rule of
    JavaScript's Math.round, and the integer facts that row-major pixel
    addressing rests on. */
module Common {

  datatype Option<+T> = None | Some(value: T)

  /** A value, or the message of the Error the source throws. */
  datatype Result<+T> = Ok(value: T) | Err(msg: string)

  /** An axis-aligned rectangle: top-left corner and size, in pixels. */
  datatype Rect = Rect(x: real, y: real, width: real, height: real)

  /** One channel of a Uint8ClampedArray. */
  type byte = b: int | 0 <= b < 256

  /** Math.round: the nearest integer, halves rounded up. */
  function Round(x: real): int
  {
    (x + 0.5).Floor
  }

  function MinR(a: real, b: real): real { if a <= b then a else b }

  function MaxR(a: real, b: real): real { if a >= b then a else b }

  function Min(a: int, b: int): int { if a <= b then a else b }

  /** A value squeezed into [lo, hi]: what storing into a Uint8ClampedArray does
      to an integer. */
  function Clamp(v: int, lo: int, hi: int): (r: int)
    requires lo <= hi
    ensures lo <= r <= hi
    ensures lo <= v <= hi ==> r == v
  {
    if v < lo then lo else if v > hi then hi else v
  }

  /** Rounding never leaves an interval whose ends are integers. */
  lemma RoundWithin(x: real, lo: int, hi: int)
    requires lo as real <= x <= hi as real
    ensures lo <= Round(x) <= hi
  {
  }

  /** Rounding moves a value by at most one half. */
  lemma RoundClose(x: real)
    ensures x - 0.5 < Round(x) as real <= x + 0.5
  {
  }

  /** Rounding an integer gives it back. */
  lemma RoundOfInt(n: int)
    ensures Round(n as real) == n
  {
  }

  /** Multiplying by a positive real keeps the order. */
  lemma MulLeR(a: real, b: real, c: real)
    requires a <= b && c > 0.0
    ensures a * c <= b * c
  {
  }

  lemma MulNonNegR(a: real, b: real)
    requires a >= 0.0 && b >= 0.0
    ensures a * b >= 0.0
  {
  }

  lemma MulLtR(a: real, b: real, c: real)
    requires a < b && c > 0.0
    ensures a * c < b * c
  {
  }

  /** Row-major addressing: the pixel at column x of row y, in a grid w wide,
      is at index y*w + x, and division and remainder by w recover y and x. */
  lemma {:induction false} DivModOfRowMajor(y: int, x: int, w: int)
    requires w > 0 && 0 <= x < w
    ensures (y * w + x) / w == y
    ensures (y * w + x) % w == x
  {
    var p := y * w + x;
    var q, r := p / w, p % w;
    assert p == w * q + r && 0 <= r < w;
    assert w * (q - y) == x - r by {
      assert w * q - w * y == w * (q - y);
    }
    if q > y {
      MulAtLeast(w, q - y);
      assert false;
    } else if q < y {
      MulAtLeast(w, y - q);
      assert false;
    }
  }

  /** A positive multiple of w is at least w. */
  lemma MulAtLeast(w: int, k: int)
    requires w > 0 && k >= 1
    ensures w * k >= w
  {
    assert w * k == w * (k - 1) + w;
    MulNonNeg(w, k - 1);
  }

  lemma MulNonNeg(a: int, b: int)
    requires a >= 0 && b >= 0
    ensures a * b >= 0
  {
  }

  /** A cell at column x < w of row y < h lies inside a grid of w*h cells. */
  lemma {:induction false} CellInGrid(x: int, y: int, w: int, h: int)
    requires 0 <= x < w && 0 <= y < h
    ensures 0 <= y * w + x < w * h
  {
    MulNonNeg(y, w);
    assert (h - y) * w >= w by { MulAtLeast(w, h - y); assert (h - y) * w == w * (h - y); }
    assert h * w - y * w == (h - y) * w;
  }

  /** Every index of a grid of w*h cells lies on one of its h rows. */
  lemma {:induction false} RowOfCell(p: int, w: int, h: int)
    requires w > 0 && 0 <= p < w * h
    ensures 0 <= p / w < h
  {
    var q := p / w;
    assert p == w * q + p % w;
    if q < 0 {
      MulAtLeast(w, -q);
      assert false;
    }
    if q >= h {
      MulNonNeg(w, q - h);
      assert false;
    }
  }
}

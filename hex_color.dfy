/** Parsing of the background colour string (backgroundRemoval.ts, hexToRgb).
    A colour is accepted when it matches /^#?([a-f\d]{2})([a-f\d]{2})([a-f\d]{2})$/i:
    an optional '#', then exactly six hexadecimal digits in either case. Any
    other string yields white. */
module HexColor {
  import opened Common

  datatype Rgb = Rgb(r: byte, g: byte, b: byte)

  const White := Rgb(255, 255, 255)

  /** Channel c (0 = red, 1 = green, 2 = blue) of a colour. */
  function Channel(c: Rgb, k: int): byte
  {
    if k == 0 then c.r else if k == 1 then c.g else c.b
  }

  /** `[a-f\d]` under the case-insensitive flag: `\d` is ASCII 0-9 only. */
  predicate IsHexDigit(ch: char)
  {
    ('0' <= ch <= '9') || ('a' <= ch <= 'f') || ('A' <= ch <= 'F')
  }

  function DigitValue(ch: char): (v: nat)
    requires IsHexDigit(ch)
    ensures v < 16
  {
    if '0' <= ch <= '9' then ch as int - '0' as int
    else if 'a' <= ch <= 'f' then ch as int - 'a' as int + 10
    else ch as int - 'A' as int + 10
  }

  /** The part after the optional leading '#'. */
  function Digits(s: string): string
  {
    if |s| > 0 && s[0] == '#' then s[1..] else s
  }

  /** The whole string matches the pattern. */
  predicate IsHexColor(s: string)
  {
    var d := Digits(s);
    |d| == 6 && forall i :: 0 <= i < 6 ==> IsHexDigit(d[i])
  }

  /** parseInt(pair, 16) of a two-digit group. */
  function PairValue(hi: char, lo: char): (v: byte)
    requires IsHexDigit(hi) && IsHexDigit(lo)
  {
    16 * DigitValue(hi) + DigitValue(lo)
  }

  function HexToRgb(s: string): (c: Rgb)
    ensures !IsHexColor(s) ==> c == White
  {
    if IsHexColor(s) then
      var d := Digits(s);
      Rgb(PairValue(d[0], d[1]), PairValue(d[2], d[3]), PairValue(d[4], d[5]))
    else
      White
  }

  // ---- the inverse: writing a colour as six hexadecimal digits

  function HexChar(v: nat, upper: bool): (ch: char)
    requires v < 16
    ensures IsHexDigit(ch) && DigitValue(ch) == v
  {
    if v < 10 then ('0' as int + v) as char
    else if upper then ('A' as int + v - 10) as char
    else ('a' as int + v - 10) as char
  }

  function HexPair(v: byte, upper: bool): string
  {
    [HexChar(v / 16, upper), HexChar(v % 16, upper)]
  }

  /** "rrggbb" (or "RRGGBB" when upper) for a colour. */
  function ToHex(c: Rgb, upper: bool): (s: string)
    ensures |s| == 6
  {
    HexPair(c.r, upper) + HexPair(c.g, upper) + HexPair(c.b, upper)
  }

  /** Every colour written as six digits, in either case and with or without
      the '#', parses back to itself: the parser accepts both cases and the
      optional '#', and reads the three channels in order. */
  lemma {:induction false} HexRoundTrip(c: Rgb, upper: bool, hash: bool)
    ensures HexToRgb((if hash then "#" else "") + ToHex(c, upper)) == c
  {
    var s := (if hash then "#" else "") + ToHex(c, upper);
    var d := ToHex(c, upper);
    assert Digits(s) == d;
    assert IsHexColor(s);
    assert PairValue(d[0], d[1]) == c.r;
    assert PairValue(d[2], d[3]) == c.g;
    assert PairValue(d[4], d[5]) == c.b;
  }

  /** The digit in lower case; other characters are kept. */
  function LowerChar(ch: char): char
  {
    if 'A' <= ch <= 'F' then (ch as int - 'A' as int + 'a' as int) as char else ch
  }

  function Lower(s: string): (t: string)
    ensures |t| == |s| && forall i :: 0 <= i < |s| ==> t[i] == LowerChar(s[i])
  {
    seq(|s|, i requires 0 <= i < |s| => LowerChar(s[i]))
  }

  /** Printing a digit's value in lower case gives the digit in lower case. */
  lemma DigitPrint(ch: char)
    requires IsHexDigit(ch)
    ensures HexChar(DigitValue(ch), false) == LowerChar(ch)
  {
  }

  /** A two-digit group is printed back as the same digits, in lower case. */
  lemma PairPrint(hi: char, lo: char)
    requires IsHexDigit(hi) && IsHexDigit(lo)
    ensures HexPair(PairValue(hi, lo), false) == [LowerChar(hi), LowerChar(lo)]
  {
    var v := PairValue(hi, lo);
    assert v / 16 == DigitValue(hi) && v % 16 == DigitValue(lo);
    DigitPrint(hi);
    DigitPrint(lo);
  }

  /** The other direction of the round trip: the channels read from any
      accepted string, whatever the case of each digit, print back as that
      string's digits in lower case. So the parser reads each digit by its
      value alone. */
  lemma {:induction false} ParsePrint(s: string)
    requires IsHexColor(s)
    ensures ToHex(HexToRgb(s), false) == Lower(Digits(s))
  {
    var d := Digits(s);
    PairPrint(d[0], d[1]);
    PairPrint(d[2], d[3]);
    PairPrint(d[4], d[5]);
    assert Lower(d) == [LowerChar(d[0]), LowerChar(d[1])] + [LowerChar(d[2]), LowerChar(d[3])] + [LowerChar(d[4]), LowerChar(d[5])];
  }

  /** hexToRgb is case-insensitive and nothing more: two accepted strings
      give the same colour exactly when their digits agree up to case. */
  lemma {:induction false} SameColourUpToCase(s: string, t: string)
    requires IsHexColor(s) && IsHexColor(t)
    ensures HexToRgb(s) == HexToRgb(t) <==> Lower(Digits(s)) == Lower(Digits(t))
  {
    ParsePrint(s);
    ParsePrint(t);
    var cs, ct := HexToRgb(s), HexToRgb(t);
    HexRoundTrip(cs, false, false);
    HexRoundTrip(ct, false, false);
    assert "" + ToHex(cs, false) == ToHex(cs, false);
    assert "" + ToHex(ct, false) == ToHex(ct, false);
  }

  /** Mixed case is accepted and read digit by digit. */
  lemma MixedCase()
    ensures HexToRgb("#aAbBcC") == Rgb(170, 187, 204)
    ensures HexToRgb("#aAbBcC") == HexToRgb("aabbcc")
  {
    assert IsHexColor("#aAbBcC");
    assert IsHexColor("aabbcc");
  }

  /** Only the lengths 6 (bare) and 7 (with '#') can name a colour; the
      three-digit short form "#FFF" is not understood and falls back to white. */
  lemma HexLengths(s: string)
    ensures IsHexColor(s) ==> |s| == 6 || (|s| == 7 && s[0] == '#')
  {
  }

  lemma ShortFormIsWhite()
    ensures HexToRgb("#FFF") == White
    ensures HexToRgb("#000") == White
  {
    assert !IsHexColor("#000") by { assert |Digits("#000")| == 3; }
  }

  lemma Examples()
    ensures HexToRgb("#00FF00") == Rgb(0, 255, 0)
    ensures HexToRgb("00ff00") == Rgb(0, 255, 0)
    ensures HexToRgb("not-a-color") == White
    ensures HexToRgb("#FFFFFF") == White
  {
    assert IsHexColor("#00FF00");
    assert IsHexColor("00ff00");
    assert !IsHexColor("not-a-color") by { assert !IsHexDigit("not-a-color"[0]); }
  }
}

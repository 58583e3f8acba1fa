/** Model of hsv2rgb.h: the gamma look-up table and the HSV to RGB conversion
    that fills one 3-byte pixel.

    The conversion is specified by the function `HsvToRgb`; the method
    `HSVtoRGB` follows the source step by step (it normalises the hue in place,
    overwrites the channel variables, then writes three bytes into the caller's
    buffer) and is proved to write exactly what `HsvToRgb` says. */
module Colour {
  import opened CInt

  /** One pixel, in the order its bytes are written: red, green, blue. */
  datatype Rgb = Rgb(r: Byte, g: Byte, b: Byte)

  /** The three bytes of a pixel as they are laid out in memory. */
  function Bytes(p: Rgb): seq<Byte>
  {
    [p.r, p.g, p.b]
  }

  /** Channel by channel, `p` is no brighter than `q`. */
  predicate AtMost(p: Rgb, q: Rgb)
  {
    p.r <= q.r && p.g <= q.g && p.b <= q.b
  }

  function Abs(x: int): nat
  {
    if x < 0 then -x else x
  }

  /** How far apart two colours are, summed over the channels. */
  function Distance(p: Rgb, q: Rgb): nat
  {
    Abs(p.r - q.r) + Abs(p.g - q.g) + Abs(p.b - q.b)
  }

  /** Steps around the colour wheel: six sextants of 256 steps each. */
  const HueSteps: int := 1536

  /** The 256 entries of `gamma8`, in the sixteen rows of sixteen in which the
      source lists them. */
  const GammaRows: seq<seq<Byte>> := [
    [  0,   0,   0,   0,   0,   0,   0,   0,   0,   0,   0,   0,   0,   0,   0,   0],
    [  0,   0,   0,   0,   0,   0,   0,   0,   1,   1,   1,   1,   1,   1,   1,   1],
    [  1,   1,   1,   1,   1,   1,   1,   1,   2,   2,   2,   2,   2,   2,   2,   2],
    [  2,   3,   3,   3,   3,   3,   3,   3,   4,   4,   4,   4,   4,   5,   5,   5],
    [  5,   6,   6,   6,   6,   7,   7,   7,   7,   8,   8,   8,   9,   9,   9,  10],
    [ 10,  10,  11,  11,  11,  12,  12,  13,  13,  13,  14,  14,  15,  15,  16,  16],
    [ 17,  17,  18,  18,  19,  19,  20,  20,  21,  21,  22,  22,  23,  24,  24,  25],
    [ 25,  26,  27,  27,  28,  29,  29,  30,  31,  32,  32,  33,  34,  35,  35,  36],
    [ 37,  38,  39,  39,  40,  41,  42,  43,  44,  45,  46,  47,  48,  49,  50,  50],
    [ 51,  52,  54,  55,  56,  57,  58,  59,  60,  61,  62,  63,  64,  66,  67,  68],
    [ 69,  70,  72,  73,  74,  75,  77,  78,  79,  81,  82,  83,  85,  86,  87,  89],
    [ 90,  92,  93,  95,  96,  98,  99, 101, 102, 104, 105, 107, 109, 110, 112, 114],
    [115, 117, 119, 120, 122, 124, 126, 127, 129, 131, 133, 135, 137, 138, 140, 142],
    [144, 146, 148, 150, 152, 154, 156, 158, 160, 162, 164, 167, 169, 171, 173, 175],
    [177, 180, 182, 184, 186, 189, 191, 193, 196, 198, 200, 203, 205, 208, 210, 213],
    [215, 218, 220, 223, 225, 228, 231, 233, 236, 239, 241, 244, 247, 249, 252, 255]
  ]

  /** `pgm_read_byte(&gamma8[i])`: entry `i` of the table is column `i % 16` of
      row `i / 16`. Gamma correction never brightens: no entry exceeds its
      index, and the last entry is full brightness. */
  function Gamma8(i: Byte): (g: Byte)
    ensures g <= i
    ensures i == 255 ==> g == 255
  {
    GammaRow(i / 16);
    GammaRows[i / 16][i % 16]
  }

  /** Within each row of the table the entries never decrease, and none
      exceeds its index in the table. The rows are checked four at a time to
      keep each proof small. */
  lemma GammaRow(k: int)
    requires 0 <= k < 16
    ensures forall j :: 0 <= j < 15 ==> GammaRows[k][j] <= GammaRows[k][j + 1]
    ensures forall j :: 0 <= j < 16 ==> GammaRows[k][j] <= 16 * k + j
  {
    if k < 4 {
      GammaRows0To3(k);
    } else if k < 8 {
      GammaRows4To7(k);
    } else if k < 12 {
      GammaRows8To11(k);
    } else {
      GammaRows12To15(k);
    }
  }

  lemma GammaRows0To3(k: int)
    requires 0 <= k < 4
    ensures forall j :: 0 <= j < 15 ==> GammaRows[k][j] <= GammaRows[k][j + 1]
    ensures forall j :: 0 <= j < 16 ==> GammaRows[k][j] <= 16 * k + j
  {
  }

  lemma GammaRows4To7(k: int)
    requires 4 <= k < 8
    ensures forall j :: 0 <= j < 15 ==> GammaRows[k][j] <= GammaRows[k][j + 1]
    ensures forall j :: 0 <= j < 16 ==> GammaRows[k][j] <= 16 * k + j
  {
  }

  lemma GammaRows8To11(k: int)
    requires 8 <= k < 12
    ensures forall j :: 0 <= j < 15 ==> GammaRows[k][j] <= GammaRows[k][j + 1]
    ensures forall j :: 0 <= j < 16 ==> GammaRows[k][j] <= 16 * k + j
  {
  }

  lemma GammaRows12To15(k: int)
    requires 12 <= k < 16
    ensures forall j :: 0 <= j < 15 ==> GammaRows[k][j] <= GammaRows[k][j + 1]
    ensures forall j :: 0 <= j < 16 ==> GammaRows[k][j] <= 16 * k + j
  {
  }

  /** The table holds 256 entries, sixteen rows of sixteen. */
  lemma GammaShape()
    ensures |GammaRows| == 16 && forall k :: 0 <= k < 16 ==> |GammaRows[k]| == 16
  {
  }

  /** The last entry of each row is at most the first entry of the next. */
  lemma GammaRowJoin(k: int)
    requires 0 <= k < 15
    ensures GammaRows[k][15] <= GammaRows[k + 1][0]
  {
  }

  /** Consecutive entries of `gamma8` never decrease, across row ends too. */
  lemma GammaAdjacent(i: Byte)
    requires i < 255
    ensures Gamma8(i) <= Gamma8(i + 1)
  {
    var k, j := i / 16, i % 16;
    if j < 15 {
      assert (i + 1) / 16 == k && (i + 1) % 16 == j + 1;
      GammaRow(k);
    } else {
      assert (i + 1) / 16 == k + 1 && (i + 1) % 16 == 0;
      GammaRowJoin(k);
    }
  }

  /** `gamma8` is nondecreasing: a brighter input never gives a darker output. */
  lemma {:induction false} GammaNondecreasing(i: Byte, j: Byte)
    requires i <= j
    ensures Gamma8(i) <= Gamma8(j)
    decreases j - i
  {
    if i < j {
      GammaNondecreasing(i, j - 1);
      GammaAdjacent(j - 1);
    }
  }

  /** The table maps black to black and full to full. */
  lemma GammaEnds()
    ensures Gamma8(0) == 0 && Gamma8(255) == 255
  {
  }

  /** Lines 35-36: C's `hue %= 1536` (a remainder with the sign of the hue)
      followed by the sign fix-up. The result is the mathematical residue. */
  function NormalizeHue(hue: int): (h: int)
    ensures 0 <= h < HueSteps
    ensures h == hue % HueSteps
  {
    var t := Rem(hue, HueSteps);
    if t < 0 then t + HueSteps else t
  }

  /** One step up the wheel: the normalised hue advances by one, and wraps
      from 1535 back to 0. */
  lemma NormalizeStep(hue: int)
    ensures NormalizeHue(hue + 1) == if NormalizeHue(hue) < HueSteps - 1 then NormalizeHue(hue) + 1 else 0
  {
    var q, h := hue / HueSteps, hue % HueSteps;
    if h < HueSteps - 1 {
      DivModUnique(hue + 1, HueSteps, q, h + 1);
    } else {
      DivModUnique(hue + 1, HueSteps, q + 1, 0);
    }
  }

  /** Lines 39-47: the colour at step `lo` of a sextant, before saturation and
      value are applied. Any sextant outside 0..5 is black. */
  function SextantColour(sextant: int, lo: Byte): (c: Rgb)
    ensures (0 <= sextant < 6) <==> (c.r == 255 || c.g == 255 || c.b == 255)
    ensures 0 <= sextant < 6 ==> c.r == 0 || c.g == 0 || c.b == 0
    ensures !(0 <= sextant < 6) ==> c == Rgb(0, 0, 0)
  {
    match sextant
    case 0 => Rgb(255, lo, 0)         // red to yellow
    case 1 => Rgb(255 - lo, 255, 0)   // yellow to green
    case 2 => Rgb(0, 255, lo)         // green to cyan
    case 3 => Rgb(0, 255 - lo, 255)   // cyan to blue
    case 4 => Rgb(lo, 0, 255)         // blue to magenta
    case 5 => Rgb(255, 0, 255 - lo)   // magenta to red
    case _ => Rgb(0, 0, 0)            // black
  }

  /** Lines 38-47 after normalisation: the sextant is `hue >> 8` and the mix is
      `hue & 255`, which for a normalised (non-negative) hue are `/ 256` and
      `% 256`. */
  function BaseColour(hue: int): (c: Rgb)
    ensures c.r == 255 || c.g == 255 || c.b == 255
    ensures c.r == 0 || c.g == 0 || c.b == 0
  {
    var h := NormalizeHue(hue);
    SextantColour(h / 256, h % 256)
  }

  /** The fixed-point step `(x * y) >> 8` with `1 <= y <= 256` scales a byte
      by `y / 256`: it never exceeds `x`, keeps `x` when `y == 256`, and gives
      0 when `y == 1`. */
  lemma ShiftProduct(x: Byte, y: int)
    requires 1 <= y <= 256
    ensures 0 <= (x * y) / 256 <= x
    ensures y == 256 ==> (x * y) / 256 == x
    ensures y == 1 ==> (x * y) / 256 == 0
  {
  }

  /** `(x * y) >> 8` grows with each factor. */
  lemma ShiftProductMonotone(x: Byte, x': Byte, y: int, y': int)
    requires x <= x' && 1 <= y <= y' <= 256
    ensures (x * y) / 256 <= (x' * y') / 256
  {
    MulMonotone(x, x', y);
    MulMonotone(y, y', x');
    DivMonotone(x * y, x' * y', 256);
  }

  /** Lines 52-55: saturation by the shift-by-8 fixed-point scheme, with
      `s1 = sat + 1`. The channel moves toward 255 and never below its base. */
  function Saturate(c: Byte, sat: Byte): (d: Byte)
    ensures c <= d
    ensures sat == 255 ==> d == c
    ensures sat == 0 ==> d == 255
  {
    ShiftProduct(255 - c, sat + 1);
    255 - ((255 - c) * (sat + 1)) / 256
  }

  /** Lines 59-62: the gamma index `(c * v1) >> 8` with `v1 = val + 1`; it never
      exceeds the channel, so it is always inside the table. It never exceeds
      the value either, and a full channel scales to the value exactly. */
  function Scale(c: Byte, val: Byte): (i: Byte)
    ensures i <= c && i <= val
    ensures val == 0 ==> i == 0
    ensures val == 255 ==> i == c
    ensures c == 255 ==> i == val
  {
    ShiftProduct(c, val + 1);
    DivModUnique(255 * (val + 1), 256, val, 255 - val);
    ShiftProductMonotone(c, 255, val + 1, val + 1);
    (c * (val + 1)) / 256
  }

  /** One output channel: saturation, value, then the gamma table. No channel
      is brighter than the gamma-mapped value, a full channel is exactly that
      bright, and value 0 is dark. */
  function Shade(c: Byte, sat: Byte, val: Byte): (d: Byte)
    ensures d <= Gamma8(val)
    ensures c == 255 ==> d == Gamma8(val)
    ensures val == 0 ==> d == 0
  {
    GammaNondecreasing(Scale(Saturate(c, sat), val), val);
    Gamma8(Scale(Saturate(c, sat), val))
  }

  /** The conversion of `HSVtoRGB`, lines 29-63. The value sets the
      brightness: the brightest channel is exactly `gamma8[val]` and no
      channel exceeds it, whatever the hue and saturation. */
  function HsvToRgb(hue: int, sat: Byte, val: Byte): (p: Rgb)
    ensures AtMost(p, Rgb(Gamma8(val), Gamma8(val), Gamma8(val)))
    ensures p.r == Gamma8(val) || p.g == Gamma8(val) || p.b == Gamma8(val)
  {
    var base := BaseColour(hue);
    Rgb(Shade(base.r, sat, val), Shade(base.g, sat, val), Shade(base.b, sat, val))
  }

  /** `HSVtoRGB(pChannel, hue, sat, val)`: writes the R, G and B bytes of the
      converted colour to `pChannel[0..3)` and nothing else. */
  method HSVtoRGB(pChannel: array<Byte>, hue: Int32, sat: Byte, val: Byte)
    requires 3 <= pChannel.Length
    modifies pChannel
    ensures pChannel[..3] == Bytes(HsvToRgb(hue, sat, val))
    ensures pChannel[3..] == old(pChannel[3..])
  {
    var h: int := hue;
    h := Rem(h, HueSteps);
    if h < 0 {
      h := h + HueSteps;
    }
    assert h == NormalizeHue(hue);

    var lo: Byte := h % 256;
    var r: Byte, g: Byte, b: Byte;
    var sextant := h / 256;
    if sextant == 0 {
      r, g, b := 255, lo, 0;
    } else if sextant == 1 {
      r, g, b := 255 - lo, 255, 0;
    } else if sextant == 2 {
      r, g, b := 0, 255, lo;
    } else if sextant == 3 {
      r, g, b := 0, 255 - lo, 255;
    } else if sextant == 4 {
      r, g, b := lo, 0, 255;
    } else if sextant == 5 {
      r, g, b := 255, 0, 255 - lo;
    } else {
      r, g, b := 0, 0, 0;
    }
    ghost var base := Rgb(r, g, b);
    assert base == BaseColour(hue);

    // lines 52-55: saturation, channel by channel
    r := Saturate(r, sat);
    g := Saturate(g, sat);
    b := Saturate(b, sat);

    // lines 59-62: value, gamma, and the three bytes through the pointer
    pChannel[0] := Gamma8(Scale(r, val));
    pChannel[1] := Gamma8(Scale(g, val));
    pChannel[2] := Gamma8(Scale(b, val));
    assert pChannel[..3] == Bytes(Rgb(Shade(base.r, sat, val), Shade(base.g, sat, val), Shade(base.b, sat, val)));
  }

  /** Hue is periodic: any number of whole turns of the wheel, in either
      direction, gives the same pixel (so hue -1 is hue 1535). */
  lemma HuePeriodic(hue: int, k: int, sat: Byte, val: Byte)
    ensures HsvToRgb(hue + HueSteps * k, sat, val) == HsvToRgb(hue, sat, val)
  {
    NormalizePeriodic(hue, k);
    assert BaseColour(hue + HueSteps * k) == BaseColour(hue);
  }

  /** Whole turns of the wheel vanish in the normalised hue. */
  lemma NormalizePeriodic(hue: int, k: int)
    ensures NormalizeHue(hue + HueSteps * k) == NormalizeHue(hue)
  {
    DivModUnique(hue + HueSteps * k, HueSteps, hue / HueSteps + k, hue % HueSteps);
  }

  /** After normalisation the sextant is 0..5 and the `default` (black) arm of
      the switch is never taken: the base colour always has one full channel
      and one empty channel. */
  lemma SextantInRange(hue: int)
    ensures 0 <= NormalizeHue(hue) / 256 < 6
    ensures var c := BaseColour(hue);
      (c.r == 255 || c.g == 255 || c.b == 255) && (c.r == 0 || c.g == 0 || c.b == 0)
  {
  }

  /** One step along the wheel changes the base colour by at most one unit in
      one channel; at a sextant boundary (and from 1535 back to 0) it does not
      change at all. */
  lemma HueStepIsSmooth(hue: int)
    ensures Distance(BaseColour(hue), BaseColour(hue + 1)) <= 1
    ensures NormalizeHue(hue) % 256 == 255 ==> BaseColour(hue) == BaseColour(hue + 1)
  {
    NormalizeStep(hue);
    var h, h' := NormalizeHue(hue), NormalizeHue(hue + 1);
    var s, lo := h / 256, h % 256;
    if lo < 255 {
      assert h' / 256 == s && h' % 256 == lo + 1;
      SextantStep(s, lo);
    } else if s < 5 {
      assert h' / 256 == s + 1 && h' % 256 == 0;
      SextantBoundary(s);
    } else {
      SextantBoundary(s);
    }
  }

  /** Inside a sextant, one step of the mix moves exactly one channel by one. */
  lemma SextantStep(sextant: int, lo: Byte)
    requires 0 <= sextant < 6 && lo < 255
    ensures Distance(SextantColour(sextant, lo), SextantColour(sextant, lo + 1)) == 1
  {
  }

  /** The end of each sextant is the start of the next, the last wrapping to
      the first. */
  lemma SextantBoundary(sextant: int)
    requires 0 <= sextant < 6
    ensures SextantColour(sextant, 255) == SextantColour((sextant + 1) % 6, 0)
  {
  }

  /** With `sat == 255` the hue's own channels pass unchanged to the value
      step: the pixel is the pure hue, dimmed and gamma-mapped. */
  lemma FullSaturationKeepsHue(hue: int, val: Byte)
    ensures var c := BaseColour(hue);
      HsvToRgb(hue, 255, val) == Rgb(Gamma8(Scale(c.r, val)), Gamma8(Scale(c.g, val)), Gamma8(Scale(c.b, val)))
  {
  }

  /** With `sat == 0` and `val == 255` every hue gives full white. */
  lemma ZeroSaturationIsWhite(hue: int)
    ensures HsvToRgb(hue, 0, 255) == Rgb(255, 255, 255)
  {
    GammaEnds();
  }

  /** With `val == 0` every hue and saturation gives black. */
  lemma ZeroValueIsBlack(hue: int, sat: Byte)
    ensures HsvToRgb(hue, sat, 0) == Rgb(0, 0, 0)
  {
    GammaEnds();
  }

  /** Hue 0 at full saturation and value is pure red. */
  lemma HueZeroIsRed()
    ensures HsvToRgb(0, 255, 255) == Rgb(255, 0, 0)
  {
    assert NormalizeHue(0) == 0;
    assert BaseColour(0) == Rgb(255, 0, 0);
    FullSaturationKeepsHue(0, 255);
    GammaEnds();
  }

  /** A channel after saturation and value never exceeds the same channel at a
      higher value or a lower saturation. */
  lemma ShadeMonotone(c: Byte, sat: Byte, sat': Byte, val: Byte, val': Byte)
    requires sat' <= sat && val <= val'
    ensures Shade(c, sat, val) <= Shade(c, sat', val')
  {
    ShiftProductMonotone(255 - c, 255 - c, sat' + 1, sat + 1);
    ShiftProductMonotone(Saturate(c, sat), Saturate(c, sat'), val + 1, val' + 1);
    GammaNondecreasing(Scale(Saturate(c, sat), val), Scale(Saturate(c, sat'), val'));
  }

  /** Raising the value never darkens any channel of the pixel. */
  lemma ValueMonotone(hue: int, sat: Byte, val: Byte, val': Byte)
    requires val <= val'
    ensures AtMost(HsvToRgb(hue, sat, val), HsvToRgb(hue, sat, val'))
  {
    var c := BaseColour(hue);
    ShadeMonotone(c.r, sat, sat, val, val');
    ShadeMonotone(c.g, sat, sat, val, val');
    ShadeMonotone(c.b, sat, sat, val, val');
  }

  /** Raising the saturation never brightens any channel of the pixel: it only
      takes white out of the colour. */
  lemma SaturationMonotone(hue: int, sat: Byte, sat': Byte, val: Byte)
    requires sat <= sat'
    ensures AtMost(HsvToRgb(hue, sat', val), HsvToRgb(hue, sat, val))
  {
    var c := BaseColour(hue);
    ShadeMonotone(c.r, sat', sat, val, val);
    ShadeMonotone(c.g, sat', sat, val, val);
    ShadeMonotone(c.b, sat', sat, val, val);
  }
}

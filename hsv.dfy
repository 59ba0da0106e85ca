/** The HSV to RGB converter `hsv_2_rgb`: a hue given as a fraction of a
    turn, a saturation and a value are turned into an 8-bit pixel by the
    hexagonal six-sector decomposition. Reals stand for `f64` throughout. */
module Hsv {
  import opened Numeric

  datatype Pixel = Pixel(r: u8, g: u8, b: u8)

  datatype ColorHsv = ColorHsv(h: real, s: real, v: real)

  /** The pixel `out` starts as; the fallback arm leaves it unchanged. */
  const Black := Pixel(0, 0, 0)

  /** The sector `(h.rem_euclid(1.0) * 6.0).trunc() as u8`. */
  function SectorOf(h: real): (i: u8)
    ensures 0 <= i <= 5
    ensures i == (RemEuclid1(h) * 6.0).Floor
  {
    var x := Trunc(RemEuclid1(h) * 6.0) as real;
    CastU8Spec(x);
    CastU8(x)
  }

  /** `(x * 255.0) as u8`. */
  function Scale(x: real): u8
  {
    CastU8(x * 255.0)
  }

  /** The converter: the sector comes from the wrapped hue, while the
      fraction `f` inside the sector is taken from the unwrapped hue with a
      truncation toward zero, as the source does. */
  function Hsv2Rgb(col: ColorHsv): Pixel
  {
    var i := SectorOf(col.h);
    var f := TruncFraction(col.h * 6.0);
    SectorPixel(i, f, col.s, col.v)
  }

  /** The four intensities `v`, `p`, `q`, `t` of sector `i` at fraction `f`,
      placed by the match of the source; a sector outside 0..5 leaves the
      pixel black. */
  function SectorPixel(i: u8, f: real, s: real, v: real): Pixel
  {
    var full := Scale(v);
    var p := Scale(v * (1.0 - s));
    var q := Scale(v * (1.0 - s * f));
    var t := Scale(v * (1.0 - s * (1.0 - f)));
    match i
    case 0 => Pixel(full, t, p)
    case 1 => Pixel(q, full, p)
    case 2 => Pixel(p, full, t)
    case 3 => Pixel(p, q, full)
    case 4 => Pixel(t, p, full)
    case 5 => Pixel(full, p, q)
    case _ => Black
  }

  /** What `Scale` gives, from `CastU8Spec`. */
  lemma ScaleSpec(x: real)
    ensures x * 255.0 <= 0.0 ==> Scale(x) == 0
    ensures x * 255.0 >= 255.0 ==> Scale(x) == 255
    ensures 0.0 < x * 255.0 < 255.0 ==> Scale(x) as real <= x * 255.0 < Scale(x) as real + 1.0
  {
    CastU8Spec(x * 255.0);
  }

  // ---------------------------------------------------------------------
  // An independent reference: the closed-form HSV formula
  //   channel(n) = v * (1 - s * clamp(min(k, 4 - k), 0, 1)),  k = (n + 6h) mod 6
  // with n = 5 for red, 3 for green and 1 for blue, over the floor-wrapped hue.
  // ---------------------------------------------------------------------

  function Wrap(h: real): real
  {
    h - h.Floor as real
  }

  function Mod6(y: real): real
  {
    y - 6.0 * (y / 6.0).Floor as real
  }

  function Ramp(k: real): real
  {
    var m := if k < 4.0 - k then k else 4.0 - k;
    if m < 0.0 then 0.0 else if m > 1.0 then 1.0 else m
  }

  /** `v` scaled down by `s` times the weight `w`. */
  function Weigh(v: real, s: real, w: real): real
  {
    v * (1.0 - s * w)
  }

  function RefChannel(n: real, col: ColorHsv): real
  {
    Weigh(col.v, col.s, Ramp(Mod6(n + 6.0 * Wrap(col.h))))
  }

  function RefHsv2Rgb(col: ColorHsv): Pixel
  {
    Pixel(Scale(RefChannel(5.0, col)), Scale(RefChannel(3.0, col)), Scale(RefChannel(1.0, col)))
  }

  /** For a non-negative hue the truncated fraction of `6h` is the position
      inside the sector chosen from the wrapped hue. */
  lemma FractionInSector(h: real)
    requires 0.0 <= h
    ensures 6.0 * Wrap(h) == SectorOf(h) as real + TruncFraction(h * 6.0)
  {
    var w := RemEuclid1(h);
    var n := h.Floor;
    assert n >= 0;
    assert h * 6.0 == w * 6.0 + (6 * n) as real;
    assert (h * 6.0).Floor == (w * 6.0).Floor + 6 * n;
  }

  /** The reference ramps at a point `x = i + f` of the hexagon, sector by
      sector. */
  lemma RampsAt(x: real, i: int, f: real)
    requires 0 <= i <= 5 && 0.0 <= f < 1.0 && x == i as real + f
    ensures var r, g, b := Ramp(Mod6(5.0 + x)), Ramp(Mod6(3.0 + x)), Ramp(Mod6(1.0 + x));
      && (i == 0 ==> r == 0.0 && g == 1.0 - f && b == 1.0)
      && (i == 1 ==> r == f && g == 0.0 && b == 1.0)
      && (i == 2 ==> r == 1.0 && g == 0.0 && b == 1.0 - f)
      && (i == 3 ==> r == 1.0 && g == f && b == 0.0)
      && (i == 4 ==> r == 1.0 - f && g == 1.0 && b == 0.0)
      && (i == 5 ==> r == 0.0 && g == 1.0 && b == f)
  {
  }

  /** The four weights the reference uses give the source's four terms. */
  lemma Weights(v: real, s: real, f: real)
    ensures Weigh(v, s, 0.0) == v
    ensures Weigh(v, s, 1.0) == v * (1.0 - s)
    ensures Weigh(v, s, f) == v * (1.0 - s * f)
    ensures Weigh(v, s, 1.0 - f) == v * (1.0 - s * (1.0 - f))
  {
  }

  /** Given the reference ramps `r`, `g`, `b` of sector `i`, the pixel the
      sector table builds is the reference pixel. */
  lemma SectorPixelAgrees(i: u8, f: real, s: real, v: real, r: real, g: real, b: real)
    requires i <= 5
    requires && (i == 0 ==> r == 0.0 && g == 1.0 - f && b == 1.0)
             && (i == 1 ==> r == f && g == 0.0 && b == 1.0)
             && (i == 2 ==> r == 1.0 && g == 0.0 && b == 1.0 - f)
             && (i == 3 ==> r == 1.0 && g == f && b == 0.0)
             && (i == 4 ==> r == 1.0 - f && g == 1.0 && b == 0.0)
             && (i == 5 ==> r == 0.0 && g == 1.0 && b == f)
    ensures SectorPixel(i, f, s, v) == Pixel(Scale(Weigh(v, s, r)), Scale(Weigh(v, s, g)), Scale(Weigh(v, s, b)))
  {
    Weights(v, s, f);
  }

  /** For every non-negative hue the converter agrees with the closed-form
      reference formula. */
  lemma AgreesWithReference(col: ColorHsv)
    requires 0.0 <= col.h
    ensures Hsv2Rgb(col) == RefHsv2Rgb(col)
  {
    var i, f := SectorOf(col.h), TruncFraction(col.h * 6.0);
    var x := 6.0 * Wrap(col.h);
    FractionInSector(col.h);
    RampsAt(x, i as int, f);
    SectorPixelAgrees(i, f, col.s, col.v, Ramp(Mod6(5.0 + x)), Ramp(Mod6(3.0 + x)), Ramp(Mod6(1.0 + x)));
  }

  lemma ProductNonNegative(x: real, y: real)
    requires 0.0 <= x && 0.0 <= y
    ensures 0.0 <= x * y
  {
  }

  lemma ScaleMonotonic(x: real, y: real)
    requires x <= y
    ensures Scale(x) <= Scale(y)
  {
    CastU8Monotonic(x * 255.0, y * 255.0);
  }

  /** `v * (1 - s)` never scales above `v` for non-negative `v` and `s`. */
  lemma ShrinkFull(v: real, s: real)
    requires 0.0 <= v && 0.0 <= s
    ensures Scale(v * (1.0 - s)) <= Scale(v)
  {
    ProductNonNegative(v, s);
    assert v * (1.0 - s) == v - v * s;
    ScaleMonotonic(v * (1.0 - s), v);
  }

  /** `v * (1 - s * w)` never scales above `v` for non-negative `v`, `s`
      and `w`. */
  lemma Shrink(v: real, s: real, w: real)
    requires 0.0 <= v && 0.0 <= s && 0.0 <= w
    ensures Scale(v * (1.0 - s * w)) <= Scale(v)
  {
    ProductNonNegative(s, w);
    ProductNonNegative(v, s * w);
    assert v * (1.0 - s * w) == v - v * (s * w);
    ScaleMonotonic(v * (1.0 - s * w), v);
  }

  /** Which channel carries the full `v * 255` depends only on the sector:
      red in sectors 0 and 5, green in 1 and 2, blue in 3 and 4. */
  lemma FullChannel(col: ColorHsv)
    ensures var out, full, i := Hsv2Rgb(col), Scale(col.v), SectorOf(col.h);
      && ((i == 0 || i == 5) ==> out.r == full)
      && ((i == 1 || i == 2) ==> out.g == full)
      && ((i == 3 || i == 4) ==> out.b == full)
  {
  }

  /** `v * (1 - s * (1 - f))` never scales above `v` for non-negative `v`
      and `s` and `f` at most 1. */
  lemma ShrinkComplement(v: real, s: real, f: real)
    requires 0.0 <= v && 0.0 <= s && f <= 1.0
    ensures Scale(v * (1.0 - s * (1.0 - f))) <= Scale(v)
  {
    ProductNonNegative(s, 1.0 - f);
    ProductNonNegative(v, s * (1.0 - f));
    assert v * (1.0 - s * (1.0 - f)) == v - v * (s * (1.0 - f));
    ScaleMonotonic(v * (1.0 - s * (1.0 - f)), v);
  }

  /** Inside a sector, at a fraction in [0, 1], saturation in [0, 1] and
      non-negative value, no channel is brighter than `v * 255`. */
  lemma SectorPixelBounded(i: u8, f: real, s: real, v: real)
    requires 0.0 <= f <= 1.0 && 0.0 <= s <= 1.0 && 0.0 <= v
    ensures var out, full := SectorPixel(i, f, s, v), Scale(v);
      out.r <= full && out.g <= full && out.b <= full
  {
    ShrinkFull(v, s);
    Shrink(v, s, f);
    ShrinkComplement(v, s, f);
  }

  /** For a non-negative hue, saturation in [0, 1] and non-negative value,
      the full channel is the brightest of the three. */
  lemma FullChannelIsBrightest(col: ColorHsv)
    requires 0.0 <= col.h && 0.0 <= col.s <= 1.0 && 0.0 <= col.v
    ensures var out, full := Hsv2Rgb(col), Scale(col.v);
      out.r <= full && out.g <= full && out.b <= full
  {
    SectorPixelBounded(SectorOf(col.h), TruncFraction(col.h * 6.0), col.s, col.v);
  }

  /** Zero saturation gives a grey whose three channels are `v * 255`,
      whatever the hue. */
  lemma GreyAxis(h: real, v: real)
    ensures var c := Scale(v); Hsv2Rgb(ColorHsv(h, 0.0, v)) == Pixel(c, c, c)
  {
  }

  /** Zero value gives black, whatever the hue and saturation. */
  lemma ZeroValueIsBlack(h: real, s: real)
    ensures Hsv2Rgb(ColorHsv(h, s, 0.0)) == Black
  {
  }

  /** The sector-boundary colours at full saturation and value. */
  lemma BoundaryColours()
    ensures Hsv2Rgb(ColorHsv(0.0, 1.0, 1.0)) == Pixel(255, 0, 0)
    ensures Hsv2Rgb(ColorHsv(1.0 / 6.0, 1.0, 1.0)) == Pixel(255, 255, 0)
    ensures Hsv2Rgb(ColorHsv(1.0 / 3.0, 1.0, 1.0)) == Pixel(0, 255, 0)
    ensures Hsv2Rgb(ColorHsv(2.0 / 3.0, 1.0, 1.0)) == Pixel(0, 0, 255)
  {
    ScaleSpec(0.0);
    ScaleSpec(1.0);
    assert SectorOf(0.0) == 0 && TruncFraction(0.0) == 0.0;
    assert SectorOf(1.0 / 6.0) == 1 && TruncFraction(1.0) == 0.0;
    assert SectorOf(1.0 / 3.0) == 2 && TruncFraction(2.0) == 0.0;
    assert SectorOf(2.0 / 3.0) == 4 && TruncFraction(4.0) == 0.0;
  }

  /** The sector of a hue does not change when a whole turn is added. */
  lemma SectorPeriodic(h: real)
    ensures SectorOf(h + 1.0) == SectorOf(h)
  {
  }

  /** For a non-negative hue, adding a whole turn does not change the pixel. */
  lemma HuePeriodic(col: ColorHsv)
    requires 0.0 <= col.h
    ensures Hsv2Rgb(col.(h := col.h + 1.0)) == Hsv2Rgb(col)
  {
    assert (col.h + 1.0) * 6.0 == col.h * 6.0 + 6.0;
    TruncFractionShift(col.h * 6.0, 6);
    SectorPeriodic(col.h);
  }

  /** For a negative hue the period can fail: `f` is then taken from a
      truncation toward zero and lies in (-1, 0]. A quarter turn back and
      three quarters forward land in the same sector with different pixels. */
  lemma NegativeHueNotPeriodic()
    ensures Hsv2Rgb(ColorHsv(-0.25, 1.0, 1.0)) == Pixel(0, 0, 255)
    ensures Hsv2Rgb(ColorHsv(0.75, 1.0, 1.0)) == Pixel(127, 0, 255)
  {
    ScaleSpec(0.0);
    ScaleSpec(1.0);
    ScaleSpec(0.5);
    ScaleSpec(-0.5);
    assert SectorOf(-0.25) == 4 && TruncFraction(-1.5) == -0.5;
    assert SectorOf(0.75) == 4 && TruncFraction(4.5) == 0.5;
  }

  /** For a negative hue the fraction is negative, so `q` rises above `v`
      and the channel that should be full is no longer the brightest. */
  lemma NegativeHueOverFull()
    ensures Hsv2Rgb(ColorHsv(-0.05, 1.0, 0.5)) == Pixel(127, 0, 165)
  {
    ScaleSpec(0.5);
    ScaleSpec(0.0);
    ScaleSpec(0.65);
    assert SectorOf(-0.05) == 5 && TruncFraction(-0.3) == -0.3;
  }
}

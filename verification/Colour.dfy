/** Conversion between RGB and HSL. Channels are reals in [0, 1]; hue is in degrees, saturation
    and lightness in percent. */
module Colour {
  import opened RealFacts

  datatype Rgb = Rgb(r: real, g: real, b: real)
  datatype Hsl = Hsl(h: real, s: real, l: real)

  function Max(a: real, b: real): real { if a < b then b else a }
  function Min(a: real, b: real): real { if a < b then a else b }

  /** JavaScript's remainder: it has the sign of the dividend. */
  function Rem(a: real, m: real): real
    requires m > 0.0
  {
    if a >= 0.0 then a - m * (a / m).Floor as real else -(-a - m * (-a / m).Floor as real)
  }

  predicate InRange(c: Rgb) {
    0.0 <= c.r <= 1.0 && 0.0 <= c.g <= 1.0 && 0.0 <= c.b <= 1.0
  }

  function Top(c: Rgb): real { Max(Max(c.r, c.g), c.b) }
  function Bottom(c: Rgb): real { Min(Min(c.r, c.g), c.b) }

  /** The hue on a scale of six sectors. */
  function Sector(c: Rgb): real
    requires Top(c) != Bottom(c)
  {
    var diff := Top(c) - Bottom(c);
    if Top(c) == c.r then (c.g - c.b) / diff + if c.g < c.b then 6.0 else 0.0
    else if Top(c) == c.g then (c.b - c.r) / diff + 2.0
    else (c.r - c.g) / diff + 4.0
  }

  function Saturation(top: real, bottom: real): real
    requires 0.0 <= bottom < top <= 1.0
  {
    if (top + bottom) * 0.5 < 0.5 then (top - bottom) / (top + bottom) else (top - bottom) / (2.0 - (top + bottom))
  }

  function RgbToHsl(c: Rgb): Hsl
    requires InRange(c)
  {
    var top, bottom := Top(c), Bottom(c);
    var l := (top + bottom) * 0.5;
    if top == bottom then Hsl(0.0, 0.0, l * 100.0)
    else Hsl(Sector(c) / 6.0 * 360.0, Saturation(top, bottom) * 100.0, l * 100.0)
  }

  /** The colour with chroma `c`, second component `x` and least component `m`, by sector of
      the hue; outside [0, 1) no sector matches. */
  function BySector(h: real, c: real, x: real, m: real): Rgb {
    if 0.0 <= h < 1.0 / 6.0 then Rgb(c + m, x + m, 0.0 + m)
    else if 1.0 / 6.0 <= h < 2.0 / 6.0 then Rgb(x + m, c + m, 0.0 + m)
    else if 2.0 / 6.0 <= h < 3.0 / 6.0 then Rgb(0.0 + m, c + m, x + m)
    else if 3.0 / 6.0 <= h < 4.0 / 6.0 then Rgb(0.0 + m, x + m, c + m)
    else if 4.0 / 6.0 <= h < 5.0 / 6.0 then Rgb(x + m, 0.0 + m, c + m)
    else if 5.0 / 6.0 <= h < 1.0 then Rgb(c + m, 0.0 + m, x + m)
    else Rgb(0.0 + m, 0.0 + m, 0.0 + m)
  }

  function Chroma(s: real, l: real): real { (1.0 - Abs(2.0 * l - 1.0)) * s }

  function Second(h: real, c: real): real { c * (1.0 - Abs(Rem(h * 6.0, 2.0) - 1.0)) }

  function HslToRgb(hsl: Hsl): Rgb {
    var h, s, l := hsl.h / 360.0, hsl.s / 100.0, hsl.l / 100.0;
    var c := Chroma(s, l);
    BySector(h, c, Second(h, c), l - c / 2.0)
  }

  // The round trip.

  /** The chroma is the spread between the largest and the least channel. */
  lemma ChromaIsDifference(top: real, bottom: real)
    requires 0.0 <= bottom < top <= 1.0
    ensures Chroma(Saturation(top, bottom), (top + bottom) * 0.5) == top - bottom
  {
    var sum, diff := top + bottom, top - bottom;
    if sum < 1.0 {
      assert sum * (diff / sum) == diff;
    } else {
      assert (2.0 - sum) * (diff / (2.0 - sum)) == diff;
    }
  }

  lemma RemInPair(t: real, k: int)
    requires 0 <= k && 2.0 * k as real <= t < 2.0 * k as real + 2.0
    ensures Rem(t, 2.0) == t - 2.0 * k as real
  {
    assert (t / 2.0).Floor == k;
  }

  lemma SecondRising(h: real, c: real, k: int, q: real)
    requires 0 <= k && h * 6.0 == 2.0 * k as real + q && 0.0 <= q <= 1.0
    ensures Second(h, c) == c * q
  {
    RemInPair(h * 6.0, k);
    var w := 1.0 - Abs(Rem(h * 6.0, 2.0) - 1.0);
    assert w == q && Second(h, c) == c * w;
  }

  lemma SecondFalling(h: real, c: real, k: int, q: real)
    requires 0 <= k && h * 6.0 == 2.0 * k as real + 2.0 - q && 0.0 < q <= 1.0
    ensures Second(h, c) == c * q
  {
    RemInPair(h * 6.0, k);
    var w := 1.0 - Abs(Rem(h * 6.0, 2.0) - 1.0);
    assert w == q && Second(h, c) == c * w;
  }

  lemma Fraction(part: real, diff: real) returns (q: real)
    requires diff > 0.0 && 0.0 <= part <= diff
    ensures q == part / diff && -q == -part / diff && 0.0 <= q <= 1.0 && diff * q == part
    ensures part < diff ==> q < 1.0
    ensures part > 0.0 ==> q > 0.0
    ensures part == diff ==> q == 1.0
  {
    q := part / diff;
    assert diff * q == part;
    assert q >= 1.0 ==> diff * q >= diff;
    assert q > 1.0 ==> diff * (q - 1.0) > 0.0;
    assert q <= 0.0 ==> diff * q <= 0.0;
    assert q < 0.0 ==> diff * q < 0.0;
    assert q < 1.0 ==> diff * (1.0 - q) > 0.0;
  }

  /** The colour that a hue sector, a spread and a least channel stand for. */
  function FromSector(t: real, diff: real, bottom: real): Rgb {
    BySector(t / 6.0, diff, Second(t / 6.0, diff), bottom)
  }

  lemma RedIsTop(c: Rgb)
    requires Top(c) == c.r != Bottom(c)
    ensures FromSector(Sector(c), Top(c) - Bottom(c), Bottom(c)) == c && 0.0 <= Sector(c) < 6.0
  {
    var diff, t := Top(c) - Bottom(c), Sector(c);
    if c.g >= c.b {
      var q := Fraction(c.g - c.b, diff);
      SecondRising(t / 6.0, diff, 0, q);
    } else {
      var q := Fraction(c.b - c.g, diff);
      SecondFalling(t / 6.0, diff, 2, q);
    }
  }

  lemma GreenIsTop(c: Rgb)
    requires Top(c) == c.g != Bottom(c) && c.r != Top(c)
    ensures FromSector(Sector(c), Top(c) - Bottom(c), Bottom(c)) == c && 0.0 <= Sector(c) < 6.0
  {
    var diff, t := Top(c) - Bottom(c), Sector(c);
    if c.b >= c.r {
      var q := Fraction(c.b - c.r, diff);
      SecondRising(t / 6.0, diff, 1, q);
    } else {
      var q := Fraction(c.r - c.b, diff);
      SecondFalling(t / 6.0, diff, 0, q);
    }
  }

  lemma BlueIsTop(c: Rgb)
    requires Top(c) == c.b != Bottom(c) && c.r != Top(c) && c.g != Top(c)
    ensures FromSector(Sector(c), Top(c) - Bottom(c), Bottom(c)) == c && 0.0 <= Sector(c) < 6.0
  {
    var diff, t := Top(c) - Bottom(c), Sector(c);
    if c.r >= c.g {
      var q := Fraction(c.r - c.g, diff);
      SecondRising(t / 6.0, diff, 2, q);
    } else {
      var q := Fraction(c.g - c.r, diff);
      SecondFalling(t / 6.0, diff, 1, q);
    }
  }

  lemma SectorRoundTrip(c: Rgb)
    requires Top(c) != Bottom(c)
    ensures FromSector(Sector(c), Top(c) - Bottom(c), Bottom(c)) == c && 0.0 <= Sector(c) < 6.0
  {
    if Top(c) == c.r {
      RedIsTop(c);
    } else if Top(c) == c.g {
      GreenIsTop(c);
    } else {
      BlueIsTop(c);
    }
  }

  lemma GreyRoundTrip(v: real)
    requires 0.0 <= v <= 1.0
    ensures HslToRgb(Hsl(0.0, 0.0, v * 100.0)) == Rgb(v, v, v)
  {
    hide Second;
    assert Chroma(0.0, v) == 0.0;
    SecondRising(0.0, 0.0, 0, 0.0);
    hide Chroma;
    assert v * 100.0 / 100.0 == v;
  }

  /** Converting to HSL and back is the identity on every colour, across all hue sectors. */
  lemma ConversionRoundTrip(c: Rgb)
    requires InRange(c)
    ensures HslToRgb(RgbToHsl(c)) == c
  {
    var top, bottom := Top(c), Bottom(c);
    if top == bottom {
      GreyRoundTrip(top);
    } else {
      hide Second, BySector, Sector, Saturation, Chroma;
      SectorRoundTrip(c);
      ChromaIsDifference(top, bottom);
      var hsl := RgbToHsl(c);
      assert hsl.h / 360.0 == Sector(c) / 6.0;
      assert hsl.s / 100.0 == Saturation(top, bottom);
      assert hsl.l / 100.0 == (top + bottom) * 0.5;
    }
  }

  // Ranges.

  lemma SaturationIsShare(top: real, bottom: real)
    requires 0.0 <= bottom < top <= 1.0
    ensures 0.0 <= Saturation(top, bottom) <= 1.0
  {
    if (top + bottom) * 0.5 < 0.5 {
      ShareBounds(top - bottom, top + bottom);
    } else {
      ShareBounds(top - bottom, 2.0 - (top + bottom));
    }
  }

  lemma HslIsInRange(c: Rgb)
    requires InRange(c)
    ensures var hsl := RgbToHsl(c); 0.0 <= hsl.h < 360.0 && 0.0 <= hsl.s <= 100.0 && 0.0 <= hsl.l <= 100.0
  {
    if Top(c) != Bottom(c) {
      hide Sector, Saturation;
      SectorRoundTrip(c);
      SaturationIsShare(Top(c), Bottom(c));
    }
  }

  lemma RemIsBelow(a: real, m: real)
    requires a >= 0.0 && m > 0.0
    ensures 0.0 <= Rem(a, m) < m
  {
    var q := a / m;
    var f := q.Floor as real;
    Remainder(a, m, q, f);
    assert Rem(a, m) == a - m * f;
  }

  lemma Remainder(a: real, m: real, q: real, f: real)
    requires m > 0.0 && q * m == a && f <= q < f + 1.0
    ensures 0.0 <= a - m * f < m
  {
    var low := NonNegativeProduct(q - f, m);
    var high := PositiveProduct(f + 1.0 - q, m);
    assert low == a - m * f;
    assert high == m - (a - m * f);
  }

  lemma ChromaBounds(s: real, l: real)
    requires 0.0 <= s <= 1.0 && 0.0 <= l <= 1.0
    ensures var c := Chroma(s, l); 0.0 <= c && 0.0 <= l - c / 2.0 && l + c / 2.0 <= 1.0
  {
    var w := 1.0 - Abs(2.0 * l - 1.0);
    ProductIsNonNegative(w, s);
    ProductIsNonNegative(w, 1.0 - s);
    assert w * s + w * (1.0 - s) == w;
  }

  lemma SecondBounds(h: real, c: real)
    requires 0.0 <= c && 0.0 <= h
    ensures 0.0 <= Second(h, c) <= c
  {
    RemIsBelow(h * 6.0, 2.0);
    var w := 1.0 - Abs(Rem(h * 6.0, 2.0) - 1.0);
    assert 0.0 <= w <= 1.0 && Second(h, c) == c * w;
    ProductIsNonNegative(c, w);
    ProductIsNonNegative(c, 1.0 - w);
    assert c * w + c * (1.0 - w) == c;
  }

  /** For any hue at all, saturation and lightness in percent give channels in [0, 1]. */
  lemma ChannelsAreInRange(hsl: Hsl)
    requires 0.0 <= hsl.s <= 100.0 && 0.0 <= hsl.l <= 100.0
    ensures InRange(HslToRgb(hsl))
  {
    var h, s, l := hsl.h / 360.0, hsl.s / 100.0, hsl.l / 100.0;
    ChromaBounds(s, l);
    if h >= 0.0 {
      SecondBounds(h, Chroma(s, l));
    }
  }

  // Which colours have which hue.

  /** Greys have hue and saturation 0, and their own lightness. */
  lemma GreysHaveNoHue(v: real)
    requires 0.0 <= v <= 1.0
    ensures RgbToHsl(Rgb(v, v, v)) == Hsl(0.0, 0.0, 100.0 * v)
  {
  }

  /** A full colour, with one channel at its largest and one at 0, is fully saturated and half
      light. Its hue is 0 for red, 120 for green and 240 for blue, and moves by 60 degrees with the
      third channel, towards the neighbour that has it: yellow at 60, cyan at 180, magenta at 300. */
  lemma FullColours(v: real)
    requires 0.0 <= v <= 1.0
    ensures RgbToHsl(Rgb(1.0, v, 0.0)) == Hsl(60.0 * v, 100.0, 50.0)
    ensures RgbToHsl(Rgb(v, 1.0, 0.0)) == Hsl(120.0 - 60.0 * v, 100.0, 50.0)
    ensures RgbToHsl(Rgb(0.0, 1.0, v)) == Hsl(120.0 + 60.0 * v, 100.0, 50.0)
    ensures RgbToHsl(Rgb(0.0, v, 1.0)) == Hsl(240.0 - 60.0 * v, 100.0, 50.0)
    ensures RgbToHsl(Rgb(v, 0.0, 1.0)) == Hsl(240.0 + 60.0 * v, 100.0, 50.0)
    ensures v > 0.0 ==> RgbToHsl(Rgb(1.0, 0.0, v)) == Hsl(360.0 - 60.0 * v, 100.0, 50.0)
  {
    FullColour(Rgb(1.0, v, 0.0), v);
    FullColour(Rgb(v, 1.0, 0.0), if v == 1.0 then 1.0 else 2.0 - v);
    FullColour(Rgb(0.0, 1.0, v), 2.0 + v);
    FullColour(Rgb(0.0, v, 1.0), if v == 1.0 then 3.0 else 4.0 - v);
    FullColour(Rgb(v, 0.0, 1.0), if v == 1.0 then 5.0 else 4.0 + v);
    if v > 0.0 {
      FullColour(Rgb(1.0, 0.0, v), 6.0 - v);
    }
    hide *;
  }

  lemma FullColour(c: Rgb, sector: real)
    requires 0.0 <= c.r <= 1.0 && 0.0 <= c.g <= 1.0 && 0.0 <= c.b <= 1.0
    requires (c.r == 1.0 || c.g == 1.0 || c.b == 1.0) && (c.r == 0.0 || c.g == 0.0 || c.b == 0.0)
    requires sector == if c.r == 1.0 then c.g - c.b + (if c.g < c.b then 6.0 else 0.0)
                       else if c.g == 1.0 then c.b - c.r + 2.0 else c.r - c.g + 4.0
    ensures RgbToHsl(c) == Hsl(60.0 * sector, 100.0, 50.0)
  {
    assert Sector(c) == sector;
    hide Sector;
    assert Saturation(1.0, 0.0) == 1.0;
  }
}

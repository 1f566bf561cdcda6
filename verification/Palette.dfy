/** Hexadecimal colours and generated palettes. */
module Palette {
  import opened Colour
  import opened RealFacts

  function DigitChar(n: nat): char
    requires n < 16
  {
    "0123456789abcdef"[n]
  }

  predicate IsHexDigit(c: char) {
    '0' <= c <= '9' || 'a' <= c <= 'f' || 'A' <= c <= 'F'
  }

  function DigitValue(c: char): (v: nat)
    requires IsHexDigit(c)
    ensures v < 16
  {
    if '0' <= c <= '9' then (c - '0') as nat
    else if 'a' <= c <= 'f' then (c - 'a') as nat + 10
    else (c - 'A') as nat + 10
  }

  predicate IsColour(hex: string) {
    |hex| == 7 && hex[0] == '#' && forall i :: 1 <= i < 7 ==> IsHexDigit(hex[i])
  }

  /** `parseInt(hex.slice(i, i + 2), 16)` */
  function Byte(hex: string, i: nat): (n: nat)
    requires IsColour(hex) && 1 <= i < 6
    ensures n <= 255
  {
    16 * DigitValue(hex[i]) + DigitValue(hex[i + 1])
  }

  function RgbOfHex(hex: string): (c: Rgb)
    requires IsColour(hex)
    ensures InRange(c)
  {
    Rgb(Byte(hex, 1) as real / 255.0, Byte(hex, 3) as real / 255.0, Byte(hex, 5) as real / 255.0)
  }

  function HexToHsl(hex: string): Hsl
    requires IsColour(hex)
  {
    RgbToHsl(RgbOfHex(hex))
  }

  /** `Math.round(v * 255)` */
  function Round(v: real): (n: nat)
    requires 0.0 <= v <= 1.0
    ensures n <= 255
  {
    (v * 255.0 + 0.5).Floor
  }

  function ToString16(n: nat): string
    requires n <= 255
  {
    if n < 16 then [DigitChar(n)] else [DigitChar(n / 16), DigitChar(n % 16)]
  }

  function Padded(s: string): string {
    if |s| < 2 then "0" + s else s
  }

  function HexOfRgb(c: Rgb): string
    requires InRange(c)
  {
    "#" + Padded(ToString16(Round(c.r))) + Padded(ToString16(Round(c.g))) + Padded(ToString16(Round(c.b)))
  }

  function HslToHex(hsl: Hsl): (hex: string)
    requires 0.0 <= hsl.s <= 100.0 && 0.0 <= hsl.l <= 100.0
  {
    ChannelsAreInRange(hsl);
    HexOfRgb(HslToRgb(hsl))
  }

  lemma PaddedByte(n: nat)
    requires n <= 255
    ensures Padded(ToString16(n)) == [DigitChar(n / 16), DigitChar(n % 16)]
    ensures IsHexDigit(DigitChar(n / 16)) && IsHexDigit(DigitChar(n % 16))
  {
  }

  /** Every printed colour is a colour. */
  lemma HexIsColour(c: Rgb)
    requires InRange(c)
    ensures IsColour(HexOfRgb(c))
  {
    PaddedByte(Round(c.r));
    PaddedByte(Round(c.g));
    PaddedByte(Round(c.b));
  }

  function Lower(hex: string): string
    requires IsColour(hex)
  {
    ['#', DigitChar(DigitValue(hex[1])), DigitChar(DigitValue(hex[2])), DigitChar(DigitValue(hex[3])),
     DigitChar(DigitValue(hex[4])), DigitChar(DigitValue(hex[5])), DigitChar(DigitValue(hex[6]))]
  }

  lemma RoundOfByte(n: nat)
    requires n <= 255
    ensures 0.0 <= n as real / 255.0 <= 1.0 && Round(n as real / 255.0) == n
  {
    assert n as real / 255.0 * 255.0 == n as real;
  }

  lemma ByteDigits(hex: string, i: nat)
    requires IsColour(hex) && 1 <= i < 6
    ensures Padded(ToString16(Byte(hex, i))) == [DigitChar(DigitValue(hex[i])), DigitChar(DigitValue(hex[i + 1]))]
  {
    PaddedByte(Byte(hex, i));
    assert Byte(hex, i) / 16 == DigitValue(hex[i]) && Byte(hex, i) % 16 == DigitValue(hex[i + 1]);
  }

  /** A channel is printed as the nearest byte, the larger one half way. */
  lemma RoundIsNearest(v: real)
    requires 0.0 <= v <= 1.0
    ensures Round(v) as real - 0.5 <= 255.0 * v < Round(v) as real + 0.5
  {
  }

  /** Digits stand for their values, in either case. */
  lemma HexDigits(n: nat)
    requires n < 16
    ensures DigitChar(n) == if n < 10 then '0' + n as char else 'a' + (n - 10) as char
    ensures DigitValue(DigitChar(n)) == n
    ensures n >= 10 ==> DigitValue('A' + (n - 10) as char) == n
  {
  }

  /** Red, green and blue are the first, second and third pair of digits, out of 255. */
  lemma ChannelsOfHex(hex: string)
    requires IsColour(hex)
    ensures var c := RgbOfHex(hex);
            && 255.0 * c.r == (16 * DigitValue(hex[1]) + DigitValue(hex[2])) as real
            && 255.0 * c.g == (16 * DigitValue(hex[3]) + DigitValue(hex[4])) as real
            && 255.0 * c.b == (16 * DigitValue(hex[5]) + DigitValue(hex[6])) as real
  {
  }

  /** Lower changes capital letters to small ones and nothing else. */
  lemma LowerIsLower(hex: string, i: nat)
    requires IsColour(hex) && i < 7
    ensures |Lower(hex)| == 7
    ensures Lower(hex)[i] == if 'A' <= hex[i] <= 'F' then 'a' + (hex[i] - 'A') else hex[i]
  {
    if i > 0 {
      LowerDigit(hex[i]);
      assert Lower(hex)[i] == DigitChar(DigitValue(hex[i]));
    }
  }

  lemma LowerDigit(c: char)
    requires IsHexDigit(c)
    ensures DigitChar(DigitValue(c)) == if 'A' <= c <= 'F' then 'a' + (c - 'A') else c
  {
  }

  /** Every one of the hexadecimal colours survives the conversion to HSL and back; only the
      case of its digits changes. */
  lemma HexRoundTrip(hex: string)
    requires IsColour(hex)
    ensures var hsl := HexToHsl(hex);
            0.0 <= hsl.s <= 100.0 && 0.0 <= hsl.l <= 100.0 && HslToHex(hsl) == Lower(hex)
  {
    hide RgbToHsl, HslToRgb, Byte, DigitChar, DigitValue, Round, Padded, ToString16;
    var c := RgbOfHex(hex);
    HslIsInRange(c);
    ConversionRoundTrip(c);
    RoundOfByte(Byte(hex, 1));
    RoundOfByte(Byte(hex, 3));
    RoundOfByte(Byte(hex, 5));
    ByteDigits(hex, 1);
    ByteDigits(hex, 3);
    ByteDigits(hex, 5);
  }

  // Palettes.

  datatype Options = Options(count: int, hue: seq<real>, saturation: seq<real>, lightness: seq<real>)
  {
    /** No count, or a count of 0, stands for 5. */
    function Count(): int { if count == 0 then 5 else count }
  }

  /** A JavaScript number: dividing zero by zero gives NaN, and NaN stays NaN. */
  datatype Number = NaN | Finite(v: real)

  /** The caller gave an offset for position `i`; 0 counts as none. */
  predicate Given(offsets: seq<real>, i: nat) {
    i < |offsets| && offsets[i] != 0.0
  }

  /** `value` moved by the caller's offset, or else by the position's share of `range`. */
  function Moved(value: real, offsets: seq<real>, i: nat, factor: Number, range: real): Number {
    if Given(offsets, i) then Finite(value + offsets[i])
    else match factor
         case NaN => NaN
         case Finite(f) => Finite(value + (f * range - range / 2.0))
  }

  function Percent(n: Number): (r: Number)
    ensures r.Finite? ==> 0.0 <= r.v <= 100.0
  {
    match n
    case NaN => NaN
    case Finite(v) => Finite(Max(0.0, Min(100.0, v)))
  }

  function Degrees(n: Number): Number {
    match n
    case NaN => NaN
    case Finite(v) => Finite(Rem(v, 360.0))
  }

  /** Where position `i` lies in a palette of `count`; in a palette of one that is zero by zero. */
  function Factor(i: nat, count: int): Number
    requires i < count
  {
    if count == 1 then NaN else Finite(i as real / (count - 1) as real)
  }

  datatype Shade = Shade(h: Number, s: Number, l: Number)
  {
    ghost predicate InPercent() {
      (s.Finite? ==> 0.0 <= s.v <= 100.0) && (l.Finite? ==> 0.0 <= l.v <= 100.0)
    }
  }

  /** The base colour with hue, saturation and lightness moved for position `i`. */
  function Shifted(hsl: Hsl, i: nat, count: int, options: Options): (r: Shade)
    requires i < count
    ensures r.InPercent()
  {
    var factor := Factor(i, count);
    Shade(Degrees(Moved(hsl.h, options.hue, i, factor, 30.0)),
          Percent(Moved(hsl.s, options.saturation, i, factor, 20.0)),
          Percent(Moved(hsl.l, options.lightness, i, factor, 40.0)))
  }

  /** A hue that is not a number lies in no sector, which leaves a grey. */
  function Grey(s: real, l: real): (c: Rgb)
    requires 0.0 <= s <= 100.0 && 0.0 <= l <= 100.0
    ensures InRange(c)
  {
    var c := Chroma(s / 100.0, l / 100.0);
    ChromaBounds(s / 100.0, l / 100.0);
    var m := l / 100.0 - c / 2.0;
    Rgb(m, m, m)
  }

  const NOT_A_COLOUR := "#NaNNaNNaN"

  function Print(shade: Shade): string
    requires shade.InPercent()
  {
    if shade.s.NaN? || shade.l.NaN? then NOT_A_COLOUR
    else if shade.h.NaN? then HexOfRgb(Grey(shade.s.v, shade.l.v))
    else HslToHex(Hsl(shade.h.v, shade.s.v, shade.l.v))
  }

  /** Every colour of a palette is valid, but the only colour of a palette of one is valid just
      when the caller gave its saturation and its lightness offset. */
  method GenerateColorPalette(baseColor: string, options: Options) returns (palette: seq<string>)
    requires IsColour(baseColor)
    ensures |palette| == if options.count == 0 then 5 else if options.count < 0 then 0 else options.count
    ensures forall i :: 0 <= i < |palette| ==>
              && palette[i] == Print(Shifted(HexToHsl(baseColor), i, options.Count(), options))
              && (IsColour(palette[i]) <==>
                  options.count != 1 || (Given(options.saturation, i) && Given(options.lightness, i)))
  {
    hide Print, HexToHsl, Shifted, IsColour;
    var count := options.Count();
    palette := [];
    var hsl := HexToHsl(baseColor);
    var i := 0;
    while i < count
      invariant 0 <= i && |palette| == i && (i <= count || i == 0)
      invariant forall k :: 0 <= k < i ==>
                  && palette[k] == Print(Shifted(hsl, k, count, options))
                  && (IsColour(palette[k]) <==>
                      count != 1 || (Given(options.saturation, k) && Given(options.lightness, k)))
    {
      var shade := Shifted(hsl, i, count, options);
      ShadeIsColour(hsl, i, count, options);
      palette := palette + [Print(shade)];
      i := i + 1;
    }
  }

  lemma ShadeIsColour(hsl: Hsl, i: nat, count: int, options: Options)
    requires i < count
    ensures IsColour(Print(Shifted(hsl, i, count, options))) <==>
            count != 1 || (Given(options.saturation, i) && Given(options.lightness, i))
  {
    hide HexOfRgb, HslToHex, Grey, Rem, Max, Min;
    var shade := Shifted(hsl, i, count, options);
    if shade.s.NaN? || shade.l.NaN? {
      assert |NOT_A_COLOUR| == 10;
    } else if shade.h.NaN? {
      HexIsColour(Grey(shade.s.v, shade.l.v));
    } else {
      PrintedHslIsColour(Hsl(shade.h.v, shade.s.v, shade.l.v));
    }
  }

  /** Any hue, with saturation and lightness in percent, prints as a colour. */
  lemma PrintedHslIsColour(hsl: Hsl)
    requires 0.0 <= hsl.s <= 100.0 && 0.0 <= hsl.l <= 100.0
    ensures IsColour(HslToHex(hsl))
  {
    hide HexOfRgb, HslToRgb, IsColour;
    ChannelsAreInRange(hsl);
    HexIsColour(HslToRgb(hsl));
  }

  lemma RemBelow(a: real, m: real)
    requires 0.0 <= a < m
    ensures Rem(a, m) == a
  {
    ShareBelowOne(a, m);
    assert (a / m).Floor == 0;
  }

  lemma ShareBelowOne(a: real, m: real)
    requires 0.0 <= a < m
    ensures 0.0 <= a / m < 1.0
  {
    var q := a / m;
    assert q * m == a;
    assert q >= 1.0 ==> q * m >= m;
    assert q < 0.0 ==> q * m < 0.0;
  }

  lemma Half(k: nat)
    requires k > 0
    ensures k as real / (2 * k + 1 - 1) as real == 0.5
  {
    assert (2 * k + 1 - 1) as real == 2.0 * k as real;
    QuotientIs(k as real, 2.0 * k as real, 0.5);
  }

  lemma MiddleIsUnmoved(hsl: Hsl, k: nat, options: Options)
    requires k > 0 && options.hue == options.saturation == options.lightness == []
    requires 0.0 <= hsl.h < 360.0 && 0.0 <= hsl.s <= 100.0 && 0.0 <= hsl.l <= 100.0
    ensures Shifted(hsl, k, 2 * k + 1, options) == Shade(Finite(hsl.h), Finite(hsl.s), Finite(hsl.l))
  {
    hide Rem;
    Half(k);
    RemBelow(hsl.h, 360.0);
  }

  /** Without offsets, a palette of odd length has its base colour in the middle, exactly when it
      has more than one colour. */
  lemma MiddleIsBase(baseColor: string, k: nat, options: Options)
    requires IsColour(baseColor) && options.hue == options.saturation == options.lightness == []
    ensures Print(Shifted(HexToHsl(baseColor), k, 2 * k + 1, options)) == Lower(baseColor) <==> k > 0
  {
    if k == 0 {
      assert |Lower(baseColor)| == 7 && |NOT_A_COLOUR| == 10;
    } else {
      hide RgbToHsl, HslToHex, Lower, Shifted, IsColour, RgbOfHex;
      HexRoundTrip(baseColor);
      HslIsInRange(RgbOfHex(baseColor));
      MiddleIsUnmoved(HexToHsl(baseColor), k, options);
    }
  }

  // How far the colours of a palette lie apart.

  /** JavaScript's remainder: what is left after whole multiples, with the sign of the dividend. */
  lemma RemainderOf(a: real, m: real) returns (k: int)
    requires m > 0.0
    ensures var r := Rem(a, m);
            a == r + m * k as real && -m < r < m && (a >= 0.0 ==> r >= 0.0) && (a <= 0.0 ==> r <= 0.0)
  {
    if a >= 0.0 {
      RemIsBelow(a, m);
      k := (a / m).Floor;
    } else {
      RemIsBelow(-a, m);
      k := -(-a / m).Floor;
    }
  }

  lemma RemNear(a: real)
    requires -360.0 < a < 720.0
    ensures Rem(a, 360.0) == if a < 360.0 then a else a - 360.0
  {
    var k := RemainderOf(a, 360.0);
    assert a < 360.0 ==> k == 0;
    assert a >= 360.0 ==> k == 1;
  }

  lemma EndFactors(count: int)
    requires count > 1
    ensures Factor(0, count) == Finite(0.0) && Factor(count - 1, count) == Finite(1.0)
  {
  }

  /** Without offsets the first colour is 20 percent darker than the base, 10 percent less
      saturated and 15 degrees back, and the last as much the other way, within the limits. */
  lemma PaletteEnds(hsl: Hsl, count: int, options: Options)
    requires count > 1 && options.hue == options.saturation == options.lightness == []
    requires 0.0 <= hsl.h < 360.0 && 0.0 <= hsl.s <= 100.0 && 0.0 <= hsl.l <= 100.0
    ensures Shifted(hsl, 0, count, options) ==
            Shade(Finite(hsl.h - 15.0),
                  Finite(if hsl.s < 10.0 then 0.0 else hsl.s - 10.0),
                  Finite(if hsl.l < 20.0 then 0.0 else hsl.l - 20.0))
    ensures Shifted(hsl, count - 1, count, options) ==
            Shade(Finite(if hsl.h < 345.0 then hsl.h + 15.0 else hsl.h - 345.0),
                  Finite(if hsl.s > 90.0 then 100.0 else hsl.s + 10.0),
                  Finite(if hsl.l > 80.0 then 100.0 else hsl.l + 20.0))
  {
    hide Rem;
    EndFactors(count);
    hide Factor;
    RemNear(hsl.h - 15.0);
    RemNear(hsl.h + 15.0);
  }

  lemma FactorStep(i: nat, count: int)
    requires i + 1 < count
    ensures Factor(i, count).Finite? && Factor(i + 1, count).Finite?
    ensures Factor(i + 1, count).v == Factor(i, count).v + 1.0 / (count - 1) as real
  {
    QuotientOfSum(i as real, 1.0, (count - 1) as real);
  }

  /** Without offsets neighbours differ by an equal share of 40 percent in lightness and of 20
      percent in saturation, wherever neither is at its limit. */
  lemma PaletteSteps(hsl: Hsl, i: nat, count: int, options: Options)
    requires i + 1 < count && options.hue == options.saturation == options.lightness == []
    ensures var a, b := Shifted(hsl, i, count, options), Shifted(hsl, i + 1, count, options);
            var share := 1.0 / (count - 1) as real;
            && a.s.Finite? && a.l.Finite? && b.s.Finite? && b.l.Finite?
            && (0.0 < a.l.v && b.l.v < 100.0 && a.l.v < 100.0 && 0.0 < b.l.v ==> b.l.v - a.l.v == 40.0 * share)
            && (0.0 < a.s.v && b.s.v < 100.0 && a.s.v < 100.0 && 0.0 < b.s.v ==> b.s.v - a.s.v == 20.0 * share)
  {
    FactorStep(i, count);
    hide Factor;
    var f, share := Factor(i, count).v, 1.0 / (count - 1) as real;
    assert (f + share) * 40.0 == f * 40.0 + 40.0 * share;
    assert (f + share) * 20.0 == f * 20.0 + 20.0 * share;
  }

  /** The same for the hue, as long as it does not pass a whole turn. */
  lemma PaletteHueSteps(hsl: Hsl, i: nat, count: int, options: Options)
    requires i + 1 < count && options.hue == options.saturation == options.lightness == []
    requires 0.0 <= hsl.h <= 345.0
    ensures var a, b := Shifted(hsl, i, count, options), Shifted(hsl, i + 1, count, options);
            && a.h.Finite? && b.h.Finite?
            && (i + 2 < count || hsl.h < 345.0 ==> b.h.v - a.h.v == 30.0 * (1.0 / (count - 1) as real))
  {
    hide Rem;
    FactorStep(i, count);
    FactorBounds(i, count);
    FactorBounds(i + 1, count);
    hide Factor;
    var f, g, share := Factor(i, count).v, Factor(i + 1, count).v, 1.0 / (count - 1) as real;
    assert g * 30.0 == f * 30.0 + 30.0 * share;
    RemNear(hsl.h + (f * 30.0 - 15.0));
    RemNear(hsl.h + (g * 30.0 - 15.0));
  }

  lemma FactorBounds(i: nat, count: int)
    requires i < count && count > 1
    ensures Factor(i, count).Finite? && 0.0 <= Factor(i, count).v <= 1.0
    ensures i < count - 1 ==> Factor(i, count).v < 1.0
  {
    ShareBounds(i as real, (count - 1) as real);
    if i < count - 1 {
      ShareBelowOne(i as real, (count - 1) as real);
    }
  }

  /** An offset that is given and not 0 moves its channel by exactly that much, in palettes of
      every length; saturation and lightness stop at their limits, the hue drops whole turns. */
  lemma OffsetsAreExact(hsl: Hsl, i: nat, count: int, options: Options)
    requires i < count
    ensures var shade := Shifted(hsl, i, count, options);
            && (i < |options.lightness| && options.lightness[i] != 0.0 ==>
                var l := hsl.l + options.lightness[i];
                shade.l == Finite(if l < 0.0 then 0.0 else if l > 100.0 then 100.0 else l))
            && (i < |options.saturation| && options.saturation[i] != 0.0 ==>
                var s := hsl.s + options.saturation[i];
                shade.s == Finite(if s < 0.0 then 0.0 else if s > 100.0 then 100.0 else s))
            && (i < |options.hue| && options.hue[i] != 0.0 ==>
                shade.h == Finite(Rem(hsl.h + options.hue[i], 360.0)))
  {
    hide Rem;
  }

  /** A colour is grey exactly when its hue lies outside [0, 360), which no sector covers, or it
      has no saturation, or it is black or white. */
  lemma GreyExactlyWhen(hsl: Hsl)
    requires 0.0 <= hsl.s <= 100.0 && 0.0 <= hsl.l <= 100.0
    ensures var c := HslToRgb(hsl);
            c.r == c.g == c.b <==> hsl.h < 0.0 || hsl.h >= 360.0 || hsl.s == 0.0 || hsl.l == 0.0 || hsl.l == 100.0
  {
    var h, s, l := hsl.h / 360.0, hsl.s / 100.0, hsl.l / 100.0;
    NoChromaExactlyWhen(s, l);
    if h >= 0.0 {
      SecondBounds(h, Chroma(s, l));
    }
    hide Chroma, Second;
  }

  lemma NoChromaExactlyWhen(s: real, l: real)
    requires 0.0 <= s <= 1.0 && 0.0 <= l <= 1.0
    ensures Chroma(s, l) >= 0.0
    ensures Chroma(s, l) == 0.0 <==> s == 0.0 || l == 0.0 || l == 1.0
  {
    var w := 1.0 - Abs(2.0 * l - 1.0);
    if s == 0.0 || w == 0.0 {
      ZeroFactor(w, s);
    } else {
      ProductIsPositive(w, s);
    }
  }

  /** The grey of a hue that is not a number is the grey of a hue outside all sectors. */
  lemma GreyIsOutsideSectors(hsl: Hsl)
    requires 0.0 <= hsl.s <= 100.0 && 0.0 <= hsl.l <= 100.0 && (hsl.h < 0.0 || hsl.h >= 360.0)
    ensures HslToRgb(hsl) == Grey(hsl.s, hsl.l)
  {
    hide Second, Chroma;
  }

  /** In a palette without offsets the hue of position `i` lies below 0, in no sector, exactly
      when the hue of the base and the position's share of 30 degrees do not make up 15. */
  lemma HueBelowZeroExactlyWhen(hsl: Hsl, i: nat, count: int, options: Options)
    requires i < count && count > 1 && options.hue == options.saturation == options.lightness == []
    requires 0.0 <= hsl.h < 360.0
    ensures var h := Shifted(hsl, i, count, options).h;
            h.Finite? && h.v < 360.0 && (h.v < 0.0 <==> hsl.h + 30.0 * (i as real / (count - 1) as real) < 15.0)
  {
    hide Rem;
    FactorBounds(i, count);
    var f := i as real / (count - 1) as real;
    assert f * 30.0 == 30.0 * f;
    RemNear(hsl.h + (f * 30.0 - 15.0));
  }

  /** A printed colour is grey when its three bytes are the same. */
  predicate PrintsGrey(hex: string) {
    |hex| == 7 && hex[1..3] == hex[3..5] == hex[5..7]
  }

  lemma GreyPrintsGrey(c: Rgb)
    requires InRange(c) && c.r == c.g == c.b
    ensures PrintsGrey(HexOfRgb(c))
  {
    PaddedByte(Round(c.r));
    var b := Padded(ToString16(Round(c.r)));
    var hex := HexOfRgb(c);
    assert hex == "#" + b + b + b;
    hide *;
    assert hex[1..3] == b && hex[3..5] == b && hex[5..7] == b;
  }

  /** So a palette around a hue of less than 15 degrees, red included, begins with greys: every
      position whose hue falls below 0 is printed as one. */
  lemma PaletteBeginsGrey(hsl: Hsl, i: nat, count: int, options: Options)
    requires i < count && count > 1 && options.hue == options.saturation == options.lightness == []
    requires 0.0 <= hsl.h < 360.0 && hsl.h + 30.0 * (i as real / (count - 1) as real) < 15.0
    ensures PrintsGrey(Print(Shifted(hsl, i, count, options)))
  {
    HueBelowZeroExactlyWhen(hsl, i, count, options);
    var shade := Shifted(hsl, i, count, options);
    assert shade.s.Finite? && shade.l.Finite?;
    hide Shifted, PrintsGrey, HslToRgb, HexOfRgb;
    var moved := Hsl(shade.h.v, shade.s.v, shade.l.v);
    GreyExactlyWhen(moved);
    ChannelsAreInRange(moved);
    GreyPrintsGrey(HslToRgb(moved));
  }
}

/** The sRGB to HSL conversion of convert_index_css.py over the reals, and the proof
    that the algorithm in section 4.2.4 of CSS Color Module Level 3 inverts it:
    exactly before rounding, and closely after. */
module HslColor {

  datatype Rgb = Rgb(r: real, g: real, b: real)

  /** Hue in degrees, saturation and lightness in percent. */
  datatype Hsl = Hsl(h: real, s: real, l: real)

  function Max(x: real, y: real): real { if x >= y then x else y }

  function Min(x: real, y: real): real { if x <= y then x else y }

  function Max3(c: Rgb): real { Max(Max(c.r, c.g), c.b) }

  function Min3(c: Rgb): real { Min(Min(c.r, c.g), c.b) }

  predicate Unit(x: real) { 0.0 <= x <= 1.0 }

  predicate UnitRgb(c: Rgb) { Unit(c.r) && Unit(c.g) && Unit(c.b) }

  /** linear_to_srgb, with the power function as a parameter */
  function LinearToSrgb(x: real, power: real -> real): real {
    if x <= 0.0 then 0.0
    else if x >= 1.0 then 1.0
    else if x <= 0.0031308 then x * 12.92
    else 1.055 * power(x) - 0.055
  }

  function Pow(x: real, n: nat): real { if n == 0 then 1.0 else x * Pow(x, n - 1) }

  /** math.pow(x, 1/2.4) on the curved part: the number that is not negative and whose
      twelfth power is the fifth power of x. */
  ghost predicate IsGammaPower(power: real -> real) {
    forall x :: 0.0031308 < x < 1.0 ==> power(x) >= 0.0 && Pow(power(x), 12) == Pow(x, 5)
  }

  lemma {:induction false} PowGrows(x: real, y: real, n: nat)
    requires 0.0 <= x <= y
    ensures 0.0 <= Pow(x, n) <= Pow(y, n)
  {
    if n > 0 {
      PowGrows(x, y, n - 1);
      assert x * Pow(x, n - 1) <= y * Pow(x, n - 1) <= y * Pow(y, n - 1);
    }
  }

  lemma {:induction false} PowOfOne(n: nat)
    ensures Pow(1.0, n) == 1.0
  {
    if n > 0 { PowOfOne(n - 1); }
  }

  /** The twelfth power of 1/16 is below the fifth power of the start of the curve. */
  lemma SmallPowers()
    ensures Pow(0.0625, 12) < Pow(0.0031308, 5)
  {
    var a, b := 0.0625, 0.0031308;
    assert Pow(b, 2) == b * b && Pow(a, 2) == a * a;
    assert Pow(b, 5) > 0.0000000000002 by {
      assert Pow(b, 3) > 0.00000003;
      assert Pow(b, 4) > 0.00000000009;
    }
    assert Pow(a, 12) < 0.0000000000001 by {
      assert Pow(a, 4) < 0.00002;
      assert Pow(a, 6) < 0.0000001;
      assert Pow(a, 8) < 0.0000000004;
      assert Pow(a, 10) < 0.000000000002;
    }
  }

  lemma GammaInRange(x: real, y: real)
    requires 0.0031308 < x < 1.0 && y >= 0.0 && Pow(y, 12) == Pow(x, 5)
    ensures 0.0625 <= y <= 1.0
  {
    PowOfOne(12);
    PowOfOne(4);
    PowGrows(0.0031308, x, 5);
    PowGrows(x, 1.0, 4);
    SmallPowers();
    assert Pow(x, 5) == x * Pow(x, 4) <= x;
    if y < 0.0625 { PowGrows(y, 0.0625, 12); }
    if y > 1.0 { PowGrows(1.0, y, 12); }
  }

  function ToSrgb(c: Rgb, power: real -> real): Rgb {
    Rgb(LinearToSrgb(c.r, power), LinearToSrgb(c.g, power), LinearToSrgb(c.b, power))
  }

  lemma SrgbIsUnit(c: Rgb, power: real -> real)
    requires IsGammaPower(power)
    ensures UnitRgb(ToSrgb(c, power))
  {
    SrgbInRange(c.r, power);
    SrgbInRange(c.g, power);
    SrgbInRange(c.b, power);
  }

  lemma SrgbInRange(x: real, power: real -> real)
    requires IsGammaPower(power)
    ensures Unit(LinearToSrgb(x, power))
  {
    hide Pow;
    if 0.0031308 < x < 1.0 { GammaInRange(x, power(x)); }
  }

  /** The sRGB value of a linear one, told backwards: what the straight part is divided by,
      and the power that undoes the curved part. */
  ghost predicate Encodes(x: real, y: real) {
    && (x <= 0.0 ==> y == 0.0)
    && (x >= 1.0 ==> y == 1.0)
    && (0.0 < x <= 0.0031308 ==> y / 12.92 == x)
    && (0.0031308 < x < 1.0 ==> (y + 0.055) / 1.055 >= 0.0 && Pow((y + 0.055) / 1.055, 12) == Pow(x, 5))
  }

  /** Each channel is converted by itself. */
  lemma SrgbIsEncoded(c: Rgb, power: real -> real)
    requires IsGammaPower(power)
    ensures var s := ToSrgb(c, power);
      Encodes(c.r, s.r) && Encodes(c.g, s.g) && Encodes(c.b, s.b)
  {
    hide Pow;
    ChannelIsEncoded(c.r, power);
    ChannelIsEncoded(c.g, power);
    ChannelIsEncoded(c.b, power);
  }

  lemma ChannelIsEncoded(x: real, power: real -> real)
    requires IsGammaPower(power)
    ensures Encodes(x, LinearToSrgb(x, power))
  {
    hide Pow;
    if 0.0031308 < x < 1.0 {
      assert (1.055 * power(x) - 0.055 + 0.055) / 1.055 == power(x);
    }
  }

  /** There is only one such value. */
  lemma EncodedUnique(x: real, y: real, z: real)
    requires Encodes(x, y) && Encodes(x, z)
    ensures y == z
  {
    if 0.0031308 < x < 1.0 {
      PowInjective((y + 0.055) / 1.055, (z + 0.055) / 1.055, 12);
    }
  }

  lemma PowInjective(x: real, y: real, n: nat)
    requires n > 0 && x >= 0.0 && y >= 0.0 && Pow(x, n) == Pow(y, n)
    ensures x == y
  {
    if x < y { PowStrict(x, y, n); }
    if y < x { PowStrict(y, x, n); }
  }

  lemma Smaller(x: real, y: real, p: real, q: real)
    requires 0.0 <= x < y && 0.0 <= p < q
    ensures x * p < y * q
  {
    assert x * p <= x * q;
    assert (y - x) * q > 0.0;
  }

  lemma {:induction false} PowStrict(x: real, y: real, n: nat)
    requires 0.0 <= x < y && n > 0
    ensures Pow(x, n) < Pow(y, n)
  {
    if n > 1 {
      PowStrict(x, y, n - 1);
      PowGrows(0.0, x, n - 1);
      Smaller(x, y, Pow(x, n - 1), Pow(y, n - 1));
    } else {
      assert Pow(x, 1) == x * Pow(x, 0) && Pow(y, 1) == y * Pow(y, 0);
    }
  }

  function Lightness(c: Rgb): real { (Max3(c) + Min3(c)) / 2.0 }

  function Saturation(c: Rgb): real
    requires UnitRgb(c)
  {
    var max, min, l := Max3(c), Min3(c), Lightness(c);
    if max == min then 0.0
    else if l > 0.5 then (max - min) / (2.0 - max - min)
    else (max - min) / (max + min)
  }

  /** The hue as a fraction of a turn. */
  function Hue(c: Rgb): real {
    var max, min := Max3(c), Min3(c);
    var d := max - min;
    if d == 0.0 then 0.0
    else if max == c.r then ((c.g - c.b) / d + (if c.g < c.b then 6.0 else 0.0)) / 6.0
    else if max == c.g then ((c.b - c.r) / d + 2.0) / 6.0
    else ((c.r - c.g) / d + 4.0) / 6.0
  }

  /** rgb_to_hsl on sRGB values, before rounding */
  function RgbToHsl(c: Rgb): Hsl
    requires UnitRgb(c)
  {
    Hsl(Hue(c) * 360.0, Saturation(c) * 100.0, Lightness(c) * 100.0)
  }

  /** Greys, and only they, have no saturation; their hue is zero. */
  lemma GreysAreColourless(c: Rgb)
    requires UnitRgb(c)
    ensures RgbToHsl(c).s == 0.0 <==> c.r == c.g == c.b
    ensures c.r == c.g == c.b ==> RgbToHsl(c) == Hsl(0.0, 0.0, c.r * 100.0)
  {
    if Max3(c) != Min3(c) {
      var d, m, n := Max3(c) - Min3(c), 2.0 - Max3(c) - Min3(c), Max3(c) + Min3(c);
      assert d > 0.0 && (Lightness(c) > 0.5 ==> m > 0.0) && n > 0.0;
      assert Lightness(c) > 0.5 ==> (d / m) * m == d;
      assert (d / n) * n == d;
    }
  }

  function Tenths(n: int): real { n as real / 10.0 }

  /** `y` is `x` rounded to one decimal. */
  ghost predicate RoundsTo(x: real, y: real) {
    -0.05 <= x - y <= 0.05 && exists n: int :: y == Tenths(n)
  }

  ghost predicate RoundsToHsl(exact: Hsl, rounded: Hsl) {
    RoundsTo(exact.h, rounded.h) && RoundsTo(exact.s, rounded.s) && RoundsTo(exact.l, rounded.l)
  }

  // The way back: CSS Color Module Level 3, section 4.2.4.

  function HueToRgb(m1: real, m2: real, hue: real): real {
    var h1 := if hue < 0.0 then hue + 1.0 else hue;
    var h := if h1 > 1.0 then h1 - 1.0 else h1;
    if h * 6.0 < 1.0 then m1 + (m2 - m1) * h * 6.0
    else if h * 2.0 < 1.0 then m2
    else if h * 3.0 < 2.0 then m1 + (m2 - m1) * (2.0 / 3.0 - h) * 6.0
    else m1
  }

  /** The hue angle brought into [0, 360), as a fraction of a turn. */
  function Turn(h: real): real {
    (if h >= 360.0 then h - 360.0 else h) / 360.0
  }

  function M2(s: real, l: real): real { if l <= 0.5 then l * (s + 1.0) else l + s - l * s }

  function HslToRgb(c: Hsl): Rgb {
    var h, s, l := Turn(c.h), c.s / 100.0, c.l / 100.0;
    var m2 := M2(s, l);
    var m1 := l * 2.0 - m2;
    Rgb(HueToRgb(m1, m2, h + 1.0 / 3.0), HueToRgb(m1, m2, h), HueToRgb(m1, m2, h - 1.0 / 3.0))
  }

  /** The height of a channel between m1 and m2 at a hue. */
  function Wave(hue: real): real {
    var h1 := if hue < 0.0 then hue + 1.0 else hue;
    var h := if h1 > 1.0 then h1 - 1.0 else h1;
    if h * 6.0 < 1.0 then h * 6.0
    else if h * 2.0 < 1.0 then 1.0
    else if h * 3.0 < 2.0 then (2.0 / 3.0 - h) * 6.0
    else 0.0
  }

  lemma HueToRgbIsWave(m1: real, m2: real, hue: real)
    ensures HueToRgb(m1, m2, hue) == m1 + (m2 - m1) * Wave(hue)
  {
    var h1 := if hue < 0.0 then hue + 1.0 else hue;
    var h := if h1 > 1.0 then h1 - 1.0 else h1;
    assert (m2 - m1) * h * 6.0 == (m2 - m1) * (h * 6.0);
    assert (m2 - m1) * (2.0 / 3.0 - h) * 6.0 == (m2 - m1) * ((2.0 / 3.0 - h) * 6.0);
  }

  /** How far the lightness is from the nearer end. */
  function Room(l: real): real { if l <= 0.5 then l else 1.0 - l }

  /** One channel of the way back, from hue, saturation and lightness in [0, 1]. */
  function Channel(hue: real, s: real, l: real): real {
    l + s * Room(l) * (2.0 * Wave(hue) - 1.0)
  }

  lemma HslToRgbIsChannels(c: Hsl)
    ensures var h, s, l := Turn(c.h), c.s / 100.0, c.l / 100.0;
      HslToRgb(c) == Rgb(Channel(h + 1.0 / 3.0, s, l), Channel(h, s, l), Channel(h - 1.0 / 3.0, s, l))
  {
    hide HueToRgb, M2, Channel;
    var h, s, l := Turn(c.h), c.s / 100.0, c.l / 100.0;
    ChannelBetween(h + 1.0 / 3.0, s, l);
    ChannelBetween(h, s, l);
    ChannelBetween(h - 1.0 / 3.0, s, l);
  }

  lemma ChannelBetween(hue: real, s: real, l: real)
    ensures HueToRgb(l * 2.0 - M2(s, l), M2(s, l), hue) == Channel(hue, s, l)
  {
    var m2 := M2(s, l);
    var x, w := s * Room(l), Wave(hue);
    HueToRgbIsWave(l * 2.0 - m2, m2, hue);
    assert m2 == l + x by {
      assert l * (s + 1.0) == l + s * l;
      assert l + s - l * s == l + s * (1.0 - l);
    }
    assert (m2 - (l * 2.0 - m2)) * w == 2.0 * x * w;
    assert x * (2.0 * w - 1.0) == 2.0 * x * w - x;
  }

  // Exactly, before rounding.

  /** A channel's share of the range between the smallest and the largest. */
  function Share(c: Rgb, x: real): real
    requires Max3(c) != Min3(c)
  {
    (x - Min3(c)) / (Max3(c) - Min3(c))
  }

  lemma SharesOfUnit(c: Rgb)
    requires Max3(c) != Min3(c)
    ensures var u, v, w := Share(c, c.r), Share(c, c.g), Share(c, c.b);
      && Unit(u) && Unit(v) && Unit(w)
      && (Max3(c) == c.r <==> u == 1.0) && (Max3(c) == c.g <==> v == 1.0) && (Max3(c) == c.b <==> w == 1.0)
      && (u == 0.0 || v == 0.0 || w == 0.0)
      && (c.g < c.b <==> v < w)
      && Hue(c) == (if u == 1.0 then v - w + (if v < w then 6.0 else 0.0)
                    else if v == 1.0 then w - u + 2.0 else u - v + 4.0) / 6.0
  {
    var d := Max3(c) - Min3(c);
    ShareFacts(c, c.r);
    ShareFacts(c, c.g);
    ShareFacts(c, c.b);
    DivSub(c.g, c.b, Min3(c), d);
    DivSub(c.b, c.r, Min3(c), d);
    DivSub(c.r, c.g, Min3(c), d);
  }

  lemma DivSub(x: real, y: real, z: real, d: real)
    requires d > 0.0
    ensures (x - y) / d == (x - z) / d - (y - z) / d
    ensures x < y <==> (x - z) / d < (y - z) / d
  {
    var a, b := (x - z) / d, (y - z) / d;
    assert a * d == x - z && b * d == y - z;
    assert (a - b) * d == x - y;
  }

  lemma Quotient(x: real, y: real)
    requires 0.0 <= x <= y && y > 0.0
    ensures Unit(x / y) && x / y * y == x && x / y * (y / 2.0) == x / 2.0
    ensures x / y == 1.0 <==> x == y
    ensures x / y == 0.0 <==> x == 0.0
  {
    var q := x / y;
    assert q * y == x;
    Scaled(q, 1.0, y);
    Scaled(0.0, q, y);
  }

  lemma Scaled(p: real, q: real, d: real)
    requires d > 0.0
    ensures p <= q <==> p * d <= q * d
  {
    assert (q - p) * d == q * d - p * d;
  }

  lemma ShareFacts(c: Rgb, x: real)
    requires Max3(c) != Min3(c) && Min3(c) <= x <= Max3(c)
    ensures Unit(Share(c, x)) && Share(c, x) * (Max3(c) - Min3(c)) == x - Min3(c)
    ensures Share(c, x) == 1.0 <==> x == Max3(c)
    ensures Share(c, x) == 0.0 <==> x == Min3(c)
  {
    Quotient(x - Min3(c), Max3(c) - Min3(c));
  }

  /** At its hue the wave gives each channel its share. */
  lemma WaveGivesShares(u: real, v: real, w: real, h: real)
    requires Unit(u) && Unit(v) && Unit(w)
    requires (u == 1.0 || v == 1.0 || w == 1.0) && (u == 0.0 || v == 0.0 || w == 0.0)
    requires h == (if u == 1.0 then v - w + (if v < w then 6.0 else 0.0)
                   else if v == 1.0 then w - u + 2.0 else u - v + 4.0) / 6.0
    ensures 0.0 <= h < 1.0
    ensures Wave(h + 1.0 / 3.0) == u && Wave(h) == v && Wave(h - 1.0 / 3.0) == w
  {}

  /** Saturation times room is half the range of the channels. */
  lemma HalfRange(c: Rgb)
    requires UnitRgb(c)
    ensures Unit(Saturation(c)) && Unit(Lightness(c))
    ensures Saturation(c) * Room(Lightness(c)) == (Max3(c) - Min3(c)) / 2.0
  {
    hide Max3, Min3;
    var max, min := Max3(c), Min3(c);
    InRange(c);
    if max == min {
      assert Saturation(c) == 0.0;
    } else if Lightness(c) > 0.5 {
      Quotient(max - min, 2.0 - max - min);
    } else {
      Quotient(max - min, max + min);
    }
  }

  lemma InRange(c: Rgb)
    requires UnitRgb(c)
    ensures 0.0 <= Min3(c) <= Max3(c) <= 1.0
  {}

  lemma HueIsTurn(c: Rgb)
    requires UnitRgb(c)
    ensures 0.0 <= Hue(c) < 1.0
  {
    if Max3(c) != Min3(c) {
      SharesOfUnit(c);
      WaveGivesShares(Share(c, c.r), Share(c, c.g), Share(c, c.b), Hue(c));
    }
  }

  lemma ChannelIsExact(c: Rgb, x: real, hue: real)
    requires UnitRgb(c) && Min3(c) <= x <= Max3(c)
    requires Max3(c) != Min3(c) ==> Wave(hue) == Share(c, x)
    ensures Channel(hue, Saturation(c), Lightness(c)) == x
  {
    hide Saturation, Room, Wave, Share, Max3, Min3;
    HalfRange(c);
    var half := (Max3(c) - Min3(c)) / 2.0;
    if Max3(c) != Min3(c) {
      ShareFacts(c, x);
      assert half * (2.0 * Share(c, x) - 1.0) == Share(c, x) * (Max3(c) - Min3(c)) - half;
    } else {
      assert half * (2.0 * Wave(hue) - 1.0) == 0.0;
    }
  }

  /** Main result before rounding: converting back gives exactly the sRGB triple. */
  lemma RoundTripExact(c: Rgb)
    requires UnitRgb(c)
    ensures HslToRgb(RgbToHsl(c)) == c
  {
    var hsl := RgbToHsl(c);
    HueIsTurn(c);
    HslToRgbIsChannels(hsl);
    assert Turn(hsl.h) == Hue(c) && hsl.s / 100.0 == Saturation(c) && hsl.l / 100.0 == Lightness(c);
    if Max3(c) != Min3(c) {
      SharesOfUnit(c);
      WaveGivesShares(Share(c, c.r), Share(c, c.g), Share(c, c.b), Hue(c));
    }
    ChannelIsExact(c, c.r, Hue(c) + 1.0 / 3.0);
    ChannelIsExact(c, c.g, Hue(c));
    ChannelIsExact(c, c.b, Hue(c) - 1.0 / 3.0);
  }

  // Closely, after rounding.

  predicate Near(x: real, y: real, e: real) { -e <= x - y <= e }

  lemma RoomIsSteady(x: real, y: real, e: real)
    requires Unit(x) && Unit(y) && Near(x, y, e)
    ensures 0.0 <= Room(x) <= 0.5 && Near(Room(x), Room(y), e)
  {}

  lemma WaveIsSteady(x: real, y: real, e: real)
    requires -1.0 / 3.0 <= x <= 4.0 / 3.0 && -1.0 / 3.0 <= y <= 4.0 / 3.0 && Near(x, y, e)
    ensures Near(Wave(x), Wave(y), 6.0 * e)
    ensures Unit(Wave(x))
  {}

  /** A hue rounded up to the full turn is the zero hue. */
  lemma FullTurn(s: real, l: real)
    ensures Channel(1.0 + 1.0 / 3.0, s, l) == Channel(0.0 + 1.0 / 3.0, s, l)
    ensures Channel(1.0, s, l) == Channel(0.0, s, l)
    ensures Channel(1.0 - 1.0 / 3.0, s, l) == Channel(0.0 - 1.0 / 3.0, s, l)
  {}

  lemma NearProduct(a: real, b: real, x: real, y: real, e: real, f: real, boundA: real, boundY: real)
    requires Near(a, x, e) && Near(b, y, f)
    requires -boundA <= a <= boundA && -boundY <= y <= boundY
    ensures Near(a * b, x * y, boundA * f + boundY * e)
  {
    var p, q := a * (b - y), (a - x) * y;
    assert a * b - x * y == p + q;
    Bound(a, b - y, boundA, f);
    Bound(y, a - x, boundY, e);
  }

  lemma Bound(x: real, y: real, boundX: real, boundY: real)
    requires -boundX <= x <= boundX && -boundY <= y <= boundY
    ensures -(boundX * boundY) <= x * y <= boundX * boundY
  {
    var p, q := Magnitude(x), Magnitude(y);
    assert p * q <= boundX * q <= boundX * boundY;
    assert x * y == p * q || x * y == -(p * q);
    assert p * q >= 0.0;
  }

  function Magnitude(x: real): real { if x < 0.0 then -x else x }

  lemma ChannelIsSteady(h: real, s: real, l: real, h': real, s': real, l': real)
    requires -1.0 / 3.0 <= h <= 4.0 / 3.0 && -1.0 / 3.0 <= h' <= 4.0 / 3.0
    requires Unit(s) && Unit(l) && Unit(s') && Unit(l')
    requires Near(h, h', 0.05 / 360.0) && Near(s, s', 0.0005) && Near(l, l', 0.0005)
    ensures Near(Channel(h, s, l), Channel(h', s', l'), 0.0021)
  {
    hide Wave, Room;
    var a, a', q, q' := s * Room(l), s' * Room(l'), 2.0 * Wave(h) - 1.0, 2.0 * Wave(h') - 1.0;
    WaveIsSteady(h, h', 0.05 / 360.0);
    WaveIsSteady(h', h, 0.05 / 360.0);
    RoomIsSteady(l, l', 0.0005);
    RoomIsSteady(l', l, 0.0005);
    Bound(s, Room(l), 1.0, 0.5);
    NearProduct(s, Room(l), s', Room(l'), 0.0005, 0.0005, 1.0, 0.5);
    NearProduct(a, q, a', q', 0.00075, 0.1 / 60.0, 0.5, 1.0);
    assert Channel(h, s, l) == l + a * q && Channel(h', s', l') == l' + a' * q';
    assert Near(a * q, a' * q', 0.0016);
  }

  lemma RoundedStaysIn(x: real, y: real, top: nat)
    requires RoundsTo(x, y) && 0.0 <= x <= top as real
    ensures 0.0 <= y <= top as real
  {
    var n: int :| y == Tenths(n);
    assert n as real >= -0.5 && n as real <= (10 * top) as real + 0.5;
    assert n >= 0 && n <= 10 * top;
  }

  /** Main result after rounding: with hue, saturation and lightness rounded to one
      decimal, converting back gives every channel to within 0.0021, so within one
      step of 255. */
  lemma RoundTripRounded(c: Rgb, rounded: Hsl)
    requires UnitRgb(c) && RoundsToHsl(RgbToHsl(c), rounded)
    ensures var back := HslToRgb(rounded);
      && Near(back.r, c.r, 0.0021) && Near(back.g, c.g, 0.0021) && Near(back.b, c.b, 0.0021)
      && 0.0021 < 1.0 / 255.0
  {
    hide Channel, HslToRgb, Hue, Saturation, Lightness;
    var exact := RgbToHsl(c);
    var h, s, l := Hue(c), Saturation(c), Lightness(c);
    HueIsTurn(c);
    HalfRange(c);
    RoundedStaysIn(exact.h, rounded.h, 360);
    RoundedStaysIn(exact.s, rounded.s, 100);
    RoundedStaysIn(exact.l, rounded.l, 100);
    RoundTripExact(c);
    HslToRgbIsChannels(exact);
    HslToRgbIsChannels(rounded);
    assert Turn(exact.h) == h && exact.s / 100.0 == s && exact.l / 100.0 == l;
    var h', s', l' := rounded.h / 360.0, rounded.s / 100.0, rounded.l / 100.0;
    FullTurn(s', l');
    ChannelIsSteady(h', s', l', h, s, l);
    ChannelIsSteady(h' + 1.0 / 3.0, s', l', h + 1.0 / 3.0, s, l);
    ChannelIsSteady(h' - 1.0 / 3.0, s', l', h - 1.0 / 3.0, s, l);
    assert Turn(rounded.h) == h' || (h' == 1.0 && Turn(rounded.h) == 0.0);
  }
}

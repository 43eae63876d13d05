/** Relative luminance, contrast, and the two bisections over lightness
    (crates/agent/src/surface.rs), and the single-colour fix built on them
    (crates/agent/src/adapt.rs). */
module Luminance {
  import opened Wrappers
  import opened Surface
  import opened Utf8

  // -------------------------------------------------------------------- powers

  function Power(x: real, k: nat): real {
    if k == 0 then 1.0 else x * Power(x, k - 1)
  }

  lemma ProductsOrder(x: real, y: real, a: real, b: real)
    requires 0.0 <= x <= y && 0.0 <= a <= b
    ensures 0.0 <= x * a <= y * b
    ensures x < y && b > 0.0 ==> x * a < y * b
  {
    var d, e := y - x, b - a;
    ProductSign(x, a);
    ProductSign(x, e);
    ProductSign(d, b);
    ProductsDiffer(x, y, a, b, d, e);
  }

  lemma ProductsDiffer(x: real, y: real, a: real, b: real, d: real, e: real)
    requires d == y - x && e == b - a
    ensures y * b == x * a + d * b + x * e
  {
    assert (y - x) * b + x * (b - a) == y * b - x * a;
  }

  lemma {:induction false} PowerOrder(x: real, y: real, k: nat)
    requires 0.0 <= x <= y
    ensures 0.0 <= Power(x, k) <= Power(y, k)
    ensures x < y && k > 0 ==> Power(x, k) < Power(y, k)
  {
    if k == 0 {
    } else {
      PowerOrder(x, y, k - 1);
      if x < y {
        PowerPositive(y, k - 1);
      }
      ProductsOrder(x, y, Power(x, k - 1), Power(y, k - 1));
    }
  }

  lemma {:induction false} PowerPositive(x: real, k: nat)
    requires x > 0.0
    ensures Power(x, k) > 0.0
  {
    if k == 0 {
    } else {
      PowerPositive(x, k - 1);
      ProductSign(x, Power(x, k - 1));
    }
  }

  /** `powf(2.4)` on 0 to 1: since 2.4 is 12/5, its value is the non-negative
      number whose fifth power is the argument's twelfth. */
  ghost predicate IsPow24(pow: real -> real) {
    forall x :: 0.0 <= x <= 1.0 ==> pow(x) >= 0.0 && Power(pow(x), 5) == Power(x, 12)
  }

  lemma PowIsMonotone(pow: real -> real, x: real, y: real)
    requires IsPow24(pow) && 0.0 <= x <= y <= 1.0
    ensures pow(x) <= pow(y)
  {
    PowerOrder(x, y, 12);
    if pow(y) < pow(x) {
      PowerOrder(pow(y), pow(x), 5);
    }
  }

  lemma {:induction false} PowerOfOne(k: nat)
    ensures Power(1.0, k) == 1.0
  {
    if k == 0 {
    } else {
      PowerOfOne(k - 1);
    }
  }

  lemma PowOfOne(pow: real -> real)
    requires IsPow24(pow)
    ensures pow(1.0) == 1.0
  {
    PowerOfOne(12);
    PowerOfOne(5);
    var p := pow(1.0);
    if p < 1.0 {
      PowerOrder(p, 1.0, 5);
    } else if p > 1.0 {
      PowerOrder(1.0, p, 5);
    }
  }

  // ----------------------------------------------------------------- luminance

  const GAMMA_KNEE := 0.04045
  const GAMMA_DIVISOR := 12.92
  const GAMMA_OFFSET := 0.055
  const GAMMA_SCALE := 1.055
  const RED_LUMA := 0.2126
  const GREEN_LUMA := 0.7152
  const BLUE_LUMA := 0.0722
  const CONTRAST_OFFSET := 0.05
  const LIGHT_BACKGROUND_LUMINANCE := 0.18

  function Lin(channel: Byte, pow: real -> real): real {
    var value := Unit(channel);
    if value <= GAMMA_KNEE then value / GAMMA_DIVISOR else pow((value + GAMMA_OFFSET) / GAMMA_SCALE)
  }

  function RelativeLuminance(c: Rgb, pow: real -> real): real {
    Lin(c.r, pow) * RED_LUMA + (Lin(c.g, pow) * GREEN_LUMA + Lin(c.b, pow) * BLUE_LUMA)
  }

  /** The ratio of two luminances. */
  function Ratio(a: real, b: real): real
    requires a >= 0.0 && b >= 0.0
  {
    var hi, lo := if a > b then a else b, if a > b then b else a;
    (hi + CONTRAST_OFFSET) / (lo + CONTRAST_OFFSET)
  }

  predicate BgIsLight(bg: Rgb, pow: real -> real) {
    RelativeLuminance(bg, pow) > LIGHT_BACKGROUND_LUMINANCE
  }

  /** The linear piece ends below where the power piece begins. */
  lemma KneeRises(pow: real -> real, x: real)
    requires IsPow24(pow) && 0.093 <= x <= 1.0
    ensures pow(x) >= 0.00304
  {
    PowerOrder(0.093, x, 12);
    KneeConstants();
    if pow(x) < 0.00304 {
      PowerOrder(pow(x), 0.00304, 5);
    }
  }

  lemma KneeConstants()
    ensures Power(0.00304, 5) < Power(0.093, 12)
  {
    var a, b := 0.00304, 0.093;
    assert Power(a, 2) == 0.0000092416;
    assert Power(a, 3) == 0.000000028094464;
    assert Power(a, 4) < 0.0000000000855;
    assert Power(a, 5) < 0.00000000000026;
    assert Power(b, 2) == 0.008649;
    assert Power(b, 4) > 0.0000748;
    assert Power(b, 6) > 0.000000646;
    assert Power(b, 8) > 0.00000000558;
    assert Power(b, 10) > 0.0000000000482;
    assert Power(b, 12) > 0.000000000000416;
  }

  lemma LinIsMonotone(x: Byte, y: Byte, pow: real -> real)
    requires IsPow24(pow) && x <= y
    ensures Lin(x, pow) <= Lin(y, pow)
  {
    var u, v := Unit(x), Unit(y);
    if v <= GAMMA_KNEE {
    } else if u <= GAMMA_KNEE {
      assert x <= 10 && y >= 11;
      assert (v + GAMMA_OFFSET) / GAMMA_SCALE >= 0.093;
      KneeRises(pow, (v + GAMMA_OFFSET) / GAMMA_SCALE);
    } else {
      PowIsMonotone(pow, (u + GAMMA_OFFSET) / GAMMA_SCALE, (v + GAMMA_OFFSET) / GAMMA_SCALE);
    }
  }

  lemma LinEnds(pow: real -> real)
    requires IsPow24(pow)
    ensures Lin(0, pow) == 0.0 && Lin(255, pow) == 1.0
  {
    PowOfOne(pow);
    assert Unit(255) == 1.0;
  }

  lemma LuminanceIsMonotone(c: Rgb, d: Rgb, pow: real -> real)
    requires IsPow24(pow) && NoneDarker(c, d)
    ensures RelativeLuminance(c, pow) <= RelativeLuminance(d, pow)
  {
    hide Lin;
    LinIsMonotone(c.r, d.r, pow);
    LinIsMonotone(c.g, d.g, pow);
    LinIsMonotone(c.b, d.b, pow);
  }

  /** Black has luminance 0, white 1, and every colour lies between. */
  lemma LuminanceRange(c: Rgb, pow: real -> real)
    requires IsPow24(pow)
    ensures RelativeLuminance(Rgb(0, 0, 0), pow) == 0.0
    ensures RelativeLuminance(Rgb(255, 255, 255), pow) == 1.0
    ensures 0.0 <= RelativeLuminance(c, pow) <= 1.0
  {
    hide Lin;
    LinEnds(pow);
    LuminanceIsMonotone(Rgb(0, 0, 0), c, pow);
    LuminanceIsMonotone(c, Rgb(255, 255, 255), pow);
  }

  /** Green outshines red and red outshines blue at the same byte, and full they
      are 0.7152, 0.2126 and 0.0722 of white. */
  lemma PrimaryShares(v: Byte, pow: real -> real)
    requires IsPow24(pow)
    ensures RelativeLuminance(Rgb(255, 0, 0), pow) == 0.2126
    ensures RelativeLuminance(Rgb(0, 255, 0), pow) == 0.7152
    ensures RelativeLuminance(Rgb(0, 0, 255), pow) == 0.0722
    ensures v > 0 ==> RelativeLuminance(Rgb(0, v, 0), pow) > RelativeLuminance(Rgb(v, 0, 0), pow)
    ensures v > 0 ==> RelativeLuminance(Rgb(v, 0, 0), pow) > RelativeLuminance(Rgb(0, 0, v), pow) > 0.0
  {
    hide Lin;
    LinEnds(pow);
    if v > 0 {
      LinIsMonotone(1, v, pow);
      LinOfOne(pow);
    }
  }

  /** The gamma expansion of the contrast guidelines, byte by byte: a straight
      line up to 10, and above that the 2.4th power. */
  lemma LinOfByte(c: Byte, pow: real -> real)
    requires IsPow24(pow)
    ensures c <= 10 ==> Lin(c, pow) * 12.92 * 255.0 == c as real
    ensures c > 10 ==> Lin(c, pow) >= 0.0 && Power(Lin(c, pow), 5) == Power((c as real / 255.0 + 0.055) / 1.055, 12)
  {
    hide Power;
    var u := Unit(c);
    assert c <= 10 ==> u <= 0.0393;
    assert c > 10 ==> u > 0.0431;
    assert c > 10 ==> 0.0 <= (u + GAMMA_OFFSET) / GAMMA_SCALE <= 1.0;
  }

  lemma LinOfOne(pow: real -> real)
    ensures Lin(1, pow) > 0.0
  {
  }

  /** The luminance of a hue and saturation at a lightness. */
  function At(hue: real, saturation: real, lightness: real, pow: real -> real): real {
    RelativeLuminance(FromHsl(hue, saturation, lightness), pow)
  }

  /** Luminance never falls as lightness rises, which is what both bisections rest on. */
  lemma AtIsMonotone(hue: real, saturation: real, l1: real, l2: real, pow: real -> real)
    requires IsPow24(pow) && 0.0 <= saturation <= 1.0 && l1 <= l2
    ensures 0.0 <= At(hue, saturation, l1, pow) <= At(hue, saturation, l2, pow) <= 1.0
  {
    hide RelativeLuminance, FromHsl;
    FromHslIsMonotone(hue, saturation, l1, l2);
    LuminanceIsMonotone(FromHsl(hue, saturation, l1), FromHsl(hue, saturation, l2), pow);
    LuminanceRange(FromHsl(hue, saturation, l1), pow);
    LuminanceRange(FromHsl(hue, saturation, l2), pow);
  }

  // ------------------------------------------------------------------ contrast

  function Contrast(a: Rgb, b: Rgb, pow: real -> real): (r: real)
    requires IsPow24(pow)
    ensures r >= 1.0
  {
    LuminanceRange(a, pow);
    LuminanceRange(b, pow);
    RatioAtLeastOne(RelativeLuminance(a, pow), RelativeLuminance(b, pow));
    Ratio(RelativeLuminance(a, pow), RelativeLuminance(b, pow))
  }

  /** From 1, of a colour and itself, to 21, of black and white. */
  lemma ContrastScale(c: Rgb, d: Rgb, pow: real -> real)
    requires IsPow24(pow)
    ensures Contrast(Rgb(0, 0, 0), Rgb(255, 255, 255), pow) == 21.0
    ensures Contrast(c, c, pow) == 1.0 && Contrast(c, d, pow) == Contrast(d, c, pow) <= 21.0
  {
    hide RelativeLuminance;
    LuminanceRange(c, pow);
    LuminanceRange(d, pow);
    var a, b := RelativeLuminance(c, pow), RelativeLuminance(d, pow);
    RatioOrder(a, b, 21.0);
    QuotientOrder(a + CONTRAST_OFFSET, b + CONTRAST_OFFSET, 21.0);
    QuotientOrder(b + CONTRAST_OFFSET, a + CONTRAST_OFFSET, 21.0);
    QuotientOrder(a + CONTRAST_OFFSET, a + CONTRAST_OFFSET, 1.0);
    QuotientOrder(1.0 + CONTRAST_OFFSET, 0.0 + CONTRAST_OFFSET, 21.0);
  }

  /** Ratio and threshold, without the division. */
  lemma RatioOrder(a: real, b: real, m: real)
    requires a >= 0.0 && b >= 0.0
    ensures a >= b ==> (Ratio(a, b) >= m <==> a + CONTRAST_OFFSET >= m * (b + CONTRAST_OFFSET))
    ensures a <= b ==> (Ratio(a, b) >= m <==> b + CONTRAST_OFFSET >= m * (a + CONTRAST_OFFSET))
    ensures Ratio(a, b) == Ratio(b, a)
  {
    QuotientOrder(a + CONTRAST_OFFSET, b + CONTRAST_OFFSET, m);
    QuotientOrder(b + CONTRAST_OFFSET, a + CONTRAST_OFFSET, m);
  }

  /** Darker than something already on the dark side of the background contrasts more. */
  lemma RatioGrowsDownward(a: real, a': real, b: real, m: real)
    requires 0.0 <= a <= a' <= b && m >= 0.0 && Ratio(a', b) >= m
    ensures Ratio(a, b) >= m
  {
    RatioOrder(a, b, m);
    RatioOrder(a', b, m);
    ProductSign(m, a' - a);
    assert m * (a' - a) == m * (a' + CONTRAST_OFFSET) - m * (a + CONTRAST_OFFSET);
  }

  lemma RatioGrowsUpward(a: real, a': real, b: real, m: real)
    requires 0.0 <= b <= a <= a' && Ratio(a, b) >= m
    ensures Ratio(a', b) >= m
  {
    RatioOrder(a, b, m);
    RatioOrder(a', b, m);
  }

  lemma RatioAtLeastOne(a: real, b: real)
    requires a >= 0.0 && b >= 0.0
    ensures Ratio(a, b) >= 1.0
  {
    RatioOrder(a, b, 1.0);
  }

  // ------------------------------------------------- bisecting for a contrast

  const LIGHTNESS_STEPS := 20

  function Halved(width: real, steps: nat): real {
    if steps == 0 then width else Halved(width, steps - 1) / 2.0
  }

  /** Whether the hue and saturation reach the ratio at this lightness. */
  ghost predicate Passes(hue: real, saturation: real, lightness: real, bg: Rgb, minRatio: real, pow: real -> real)
    requires IsPow24(pow)
  {
    Contrast(FromHsl(hue, saturation, lightness), bg, pow) >= minRatio
  }

  /** Passing does not stop on the way from the original towards the far end. */
  ghost predicate OneSided(hue: real, saturation: real, lo: real, hi: real, bg: Rgb, light: bool, minRatio: real,
          pow: real -> real)
    requires IsPow24(pow)
  {
    forall x, y :: lo <= x <= y <= hi ==>
      var px, py := Passes(hue, saturation, x, bg, minRatio, pow), Passes(hue, saturation, y, bg, minRatio, pow);
      if light then py ==> px else px ==> py
  }

  /** No passing lightness of the interval is closer to the original than `found` by more than `slack`. */
  ghost predicate Closest(hue: real, saturation: real, lo: real, hi: real, bg: Rgb, light: bool, minRatio: real,
          pow: real -> real, found: real, slack: real)
    requires IsPow24(pow)
  {
    forall x :: lo <= x <= hi && Passes(hue, saturation, x, bg, minRatio, pow) ==>
      if light then x <= found + slack else x >= found - slack
  }

  lemma HalvedSteps(width: real)
    ensures Halved(width, LIGHTNESS_STEPS) == width / 1048576.0
    ensures Halved(width, LUMINANCE_STEPS) == width / 262144.0
  {
    assert Halved(width, 1) == width / 2.0;
    assert Halved(width, 2) == width / 4.0;
    assert Halved(width, 4) == width / 16.0;
    assert Halved(width, 6) == width / 64.0;
    assert Halved(width, 8) == width / 256.0;
    assert Halved(width, 10) == width / 1024.0;
    assert Halved(width, 12) == width / 4096.0;
    assert Halved(width, 14) == width / 16384.0;
    assert Halved(width, 16) == width / 65536.0;
    assert Halved(width, 18) == width / 262144.0;
  }

  method BisectLightness(hue: real, saturation: real, from: real, to: real, bg: Rgb, minRatio: real, pow: real -> real)
    returns (best: Option<real>)
    requires IsPow24(pow)
    ensures from > to ==> best == None
    ensures best.Some? ==> from <= best.value <= to && Passes(hue, saturation, best.value, bg, minRatio, pow)
    ensures from <= to && OneSided(hue, saturation, from, to, bg, BgIsLight(bg, pow), minRatio, pow) ==>
      var farEnd := if BgIsLight(bg, pow) then from else to;
      Closest(hue, saturation, from, to, bg, BgIsLight(bg, pow), minRatio, pow,
              if best.Some? then best.value else farEnd, Halved(to - from, LIGHTNESS_STEPS))
  {
    hide RelativeLuminance, FromHsl, Contrast;
    if from > to {
      return None;
    }
    var light := BgIsLight(bg, pow);
    var lo, hi := from, to;
    best := None;
    var i := 0;
    while i < LIGHTNESS_STEPS
      invariant i <= LIGHTNESS_STEPS
      invariant from <= lo <= hi <= to && hi - lo == Halved(to - from, i)
      invariant best.Some? ==> Passes(hue, saturation, best.value, bg, minRatio, pow)
      invariant (if best.Some? then best.value else if light then from else to) == if light then lo else hi
      invariant OneSided(hue, saturation, from, to, bg, light, minRatio, pow) ==>
        forall x :: from <= x <= to && Passes(hue, saturation, x, bg, minRatio, pow) ==>
          if light then x <= hi else x >= lo
    {
      var mid := (lo + hi) / 2.0;
      var candidate := FromHsl(hue, saturation, mid);
      assert Passes(hue, saturation, mid, bg, minRatio, pow) <==> Contrast(candidate, bg, pow) >= minRatio;
      if Contrast(candidate, bg, pow) >= minRatio {
        best := Some(mid);
        if light {
          lo := mid;
        } else {
          hi := mid;
        }
      } else if light {
        hi := mid;
      } else {
        lo := mid;
      }
      i := i + 1;
    }
  }

  // ---------------------------------------------------- fixing a single colour

  const MIN_ADJUSTED_LIGHTNESS := 0.16
  const MAX_ADJUSTED_LIGHTNESS := 0.92

  /** A colour that fails the ratio makes passing one-sided on the way to
      either end of the lightness range. */
  lemma FailureIsOneSided(fg: Rgb, bg: Rgb, end: real, minRatio: real, pow: real -> real)
    requires IsPow24(pow)
    requires Contrast(fg, bg, pow) < minRatio
    ensures var h := HslOf(fg);
            && OneSided(h.hue, h.saturation, end, h.lightness, bg, true, minRatio, pow)
            && OneSided(h.hue, h.saturation, h.lightness, end, bg, false, minRatio, pow)
  {
    var h, b, f := HslOf(fg), RelativeLuminance(bg, pow), RelativeLuminance(fg, pow);
    FromHslInvertsHsl(fg);
    HslInRange(fg);
    hide RelativeLuminance, FromHsl, Ratio, HslOf;
    assert At(h.hue, h.saturation, h.lightness, pow) == f;
    LuminanceRange(fg, pow);
    LuminanceRange(bg, pow);
    forall x, y | end <= x <= y <= h.lightness && Passes(h.hue, h.saturation, y, bg, minRatio, pow)
      ensures Passes(h.hue, h.saturation, x, bg, minRatio, pow)
    {
      AtIsMonotone(h.hue, h.saturation, x, y, pow);
      AtIsMonotone(h.hue, h.saturation, y, h.lightness, pow);
      var lx, ly := At(h.hue, h.saturation, x, pow), At(h.hue, h.saturation, y, pow);
      if ly >= b {
        RatioGrowsUpward(ly, f, b, minRatio);
        assert false;
      }
      RatioGrowsDownward(lx, ly, b, minRatio);
    }
    forall x, y | h.lightness <= x <= y <= end && Passes(h.hue, h.saturation, x, bg, minRatio, pow)
      ensures Passes(h.hue, h.saturation, y, bg, minRatio, pow)
    {
      AtIsMonotone(h.hue, h.saturation, x, y, pow);
      AtIsMonotone(h.hue, h.saturation, h.lightness, x, pow);
      var lx, ly := At(h.hue, h.saturation, x, pow), At(h.hue, h.saturation, y, pow);
      if lx <= b {
        RatioGrowsDownward(f, lx, b, minRatio);
        assert false;
      }
      RatioGrowsUpward(lx, ly, b, minRatio);
    }
  }

  /** The interval `ensure_contrast` searches: away from the original. */
  ghost function SearchFrom(fg: Rgb, bg: Rgb, pow: real -> real): real {
    if BgIsLight(bg, pow) then MIN_ADJUSTED_LIGHTNESS else HslOf(fg).lightness
  }

  ghost function SearchTo(fg: Rgb, bg: Rgb, pow: real -> real): real {
    if BgIsLight(bg, pow) then HslOf(fg).lightness else MAX_ADJUSTED_LIGHTNESS
  }

  method EnsureContrast(fg: Rgb, bg: Rgb, minRatio: real, pow: real -> real) returns (fixed: Option<Rgb>)
    requires IsPow24(pow)
    ensures fixed.Some? ==> Contrast(fixed.value, bg, pow) >= minRatio
    ensures Contrast(fg, bg, pow) >= minRatio ==> fixed == Some(fg)
    ensures Contrast(fg, bg, pow) < minRatio ==>
      var h, b, light := HslOf(fg), bg, BgIsLight(bg, pow);
      var from, to := SearchFrom(fg, bg, pow), SearchTo(fg, bg, pow);
      && (from > to ==> fixed == None)
      && (fixed.Some? ==>
            exists l :: from <= l <= to && fixed.value == FromHsl(h.hue, h.saturation, l)
                        && Closest(h.hue, h.saturation, from, to, bg, light, minRatio, pow, l,
                                   Halved(to - from, LIGHTNESS_STEPS)))
      && (from <= to && fixed == None ==>
            Closest(h.hue, h.saturation, from, to, bg, light, minRatio, pow, if light then from else to,
                    Halved(to - from, LIGHTNESS_STEPS)))
  {
    hide RelativeLuminance, FromHsl, Contrast, Closest;
    if Contrast(fg, bg, pow) >= minRatio {
      return Some(fg);
    }
    var h := HslOf(fg);
    var lo, hi := if BgIsLight(bg, pow) then MIN_ADJUSTED_LIGHTNESS else h.lightness,
                  if BgIsLight(bg, pow) then h.lightness else MAX_ADJUSTED_LIGHTNESS;
    FailureIsOneSided(fg, bg, if BgIsLight(bg, pow) then lo else hi, minRatio, pow);
    var lightness := BisectLightness(h.hue, h.saturation, lo, hi, bg, minRatio, pow);
    if lightness == None {
      return None;
    }
    fixed := Some(FromHsl(h.hue, h.saturation, lightness.value));
  }

  // ------------------------------------------------- bisecting for a luminance

  const LUMINANCE_STEPS := 18
  const LUMINANCE_TOLERANCE := 0.0005

  /** `lightness` lies in a bracket no wider than `width` whose ends straddle the target. */
  ghost predicate Bracketed(hue: real, saturation: real, lightness: real, target: real, width: real,
          pow: real -> real)
  {
    exists low, high ::
      Straddles(hue, saturation, low, high, target, pow) && low <= lightness <= high && high - low <= width
  }

  /** Too dark below and too light above, as far as black and white allow: a
      target no colour has is approached from the end it lies beyond. */
  ghost predicate Straddles(hue: real, saturation: real, low: real, high: real, target: real, pow: real -> real) {
    && 0.0 <= low <= high <= 1.0
    && (if target < 0.0 then low == 0.0 else At(hue, saturation, low, pow) <= target)
    && (if target > 1.0 then high == 1.0 else target <= At(hue, saturation, high, pow))
  }

  /** The same hue and saturation at some lightness, close to the target
      luminance or caught in a bracket around it. */
  ghost predicate Reaches(original: Rgb, result: Rgb, target: real, pow: real -> real) {
    var h := HslOf(original);
    exists lightness :: 0.0 <= lightness <= 1.0 && result == FromHsl(h.hue, h.saturation, lightness)
      && (Abs(RelativeLuminance(result, pow) - target) < LUMINANCE_TOLERANCE
          || Bracketed(h.hue, h.saturation, lightness, target, Halved(1.0, LUMINANCE_STEPS), pow))
  }

  method AtLuminance(rgb: Rgb, target: real, pow: real -> real) returns (result: Rgb)
    requires IsPow24(pow)
    ensures Reaches(rgb, result, target, pow)
    ensures Abs(RelativeLuminance(rgb, pow) - target) < LUMINANCE_TOLERANCE ==> result == rgb
  {
    var current := RelativeLuminance(rgb, pow);
    FromHslInvertsHsl(rgb);
    HslInRange(rgb);
    hide RelativeLuminance, FromHsl, HslOf;
    var h := HslOf(rgb);
    if Abs(current - target) < LUMINANCE_TOLERANCE {
      return rgb;
    }
    LightnessEnds(h.hue, h.saturation);
    LuminanceRange(rgb, pow);
    var low, high := if target < current then 0.0 else h.lightness, if target < current then h.lightness else 1.0;
    var i := 0;
    while i < LUMINANCE_STEPS
      invariant i <= LUMINANCE_STEPS
      invariant high - low <= Halved(1.0, i)
      invariant Straddles(h.hue, h.saturation, low, high, target, pow)
    {
      var middle := (low + high) / 2.0;
      var candidate := FromHsl(h.hue, h.saturation, middle);
      var reached := RelativeLuminance(candidate, pow);
      LuminanceRange(candidate, pow);
      if Abs(reached - target) < LUMINANCE_TOLERANCE {
        return candidate;
      }
      if reached < target {
        low := middle;
      } else {
        high := middle;
      }
      i := i + 1;
    }
    var middle := (low + high) / 2.0;
    result := FromHsl(h.hue, h.saturation, middle);
    assert Bracketed(h.hue, h.saturation, middle, target, Halved(1.0, LUMINANCE_STEPS), pow);
  }
}

/** How near to its target `at_luminance` paints a colour
    (crates/agent/src/surface.rs): its bracket is narrower than a byte step. */
module Painting {
  import opened Utf8
  import opened Surface
  import opened Luminance

  /** No two colours a byte step apart in each channel are further apart in luminance. */
  const PAINT_STEP := 0.0112

  const BRACKET := 1.0 / 262144.0
  const BLACK := Rgb(0, 0, 0)
  const WHITE := Rgb(255, 255, 255)

  // ------------------------------------------------------- gamma is not too steep

  /** Products by name, for the solver to compare without multiplying out. */
  function Times(x: real, y: real): real {
    x * y
  }

  lemma Interchange(x: real, y: real, a: real, b: real)
    ensures Times(Times(x, y), Times(a, b)) == Times(Times(x, a), Times(y, b))
  {
  }

  lemma Associates(x: real, y: real, z: real)
    ensures Times(x, Times(y, z)) == Times(Times(x, y), z)
  {
  }

  lemma TimesOrder(x: real, y: real)
    requires 0.0 <= x && 0.0 <= y
    ensures 0.0 <= Times(x, y)
    ensures x <= 1.0 ==> Times(x, y) <= y
  {
    ProductSign(x, y);
    if x <= 1.0 {
      ProductSign(1.0 - x, y);
    }
  }

  lemma PowerStep(x: real, k: nat)
    ensures Power(x, 0) == 1.0
    ensures k > 0 ==> Power(x, k) == Times(x, Power(x, k - 1))
  {
  }

  lemma One(x: real)
    ensures Times(1.0, x) == x
  {
  }

  lemma {:induction false} PowerOfProduct(x: real, y: real, k: nat)
    ensures Power(Times(x, y), k) == Times(Power(x, k), Power(y, k))
  {
    hide Power, Times;
    PowerStep(Times(x, y), k);
    PowerStep(x, k);
    PowerStep(y, k);
    if k == 0 {
      One(1.0);
    } else {
      PowerOfProduct(x, y, k - 1);
      Interchange(x, y, Power(x, k - 1), Power(y, k - 1));
    }
  }

  lemma {:induction false} PowerOfSum(x: real, j: nat, k: nat)
    ensures Power(x, j + k) == Times(Power(x, j), Power(x, k))
  {
    hide Power, Times;
    PowerStep(x, j + k);
    PowerStep(x, j);
    if j == 0 {
      One(Power(x, k));
    } else {
      PowerOfSum(x, j - 1, k);
      Associates(x, Power(x, j - 1), Power(x, k));
    }
  }

  /** Higher powers of a fraction are smaller. */
  lemma PowersShrink(x: real, j: nat, k: nat)
    requires 0.0 <= x <= 1.0
    ensures Power(x, k + j) <= Power(x, j)
  {
    hide Power, Times;
    PowerOfSum(x, k, j);
    PowerOfOne(k);
    PowerOrder(x, 1.0, k);
    PowerOrder(x, 1.0, j);
    TimesOrder(Power(x, k), Power(x, j));
  }

  function Cube(x: real): real {
    Times(Times(x, x), x)
  }

  /** `x` to the 2.4 lies between its cube and its square. */
  lemma PowBounds(pow: real -> real, x: real)
    requires IsPow24(pow) && 0.0 <= x <= 1.0
    ensures Cube(x) <= pow(x) <= Times(x, x)
  {
    hide Power, Times;
    TimesOrder(x, x);
    TimesOrder(Times(x, x), x);
    PowerOfProduct(x, x, 5);
    PowerOfProduct(Times(x, x), x, 5);
    PowerOfSum(x, 5, 5);
    PowerOfSum(x, 10, 5);
    PowersShrink(x, 10, 2);
    PowersShrink(x, 12, 3);
    if pow(x) > Times(x, x) {
      PowerOrder(Times(x, x), pow(x), 5);
    }
    if pow(x) < Cube(x) {
      PowerOrder(pow(x), Cube(x), 5);
    }
  }

  lemma PowOfProduct(pow: real -> real, x: real, y: real)
    requires IsPow24(pow) && 0.0 <= x <= 1.0 && 0.0 <= y <= 1.0
    ensures pow(Times(x, y)) == Times(pow(x), pow(y))
  {
    hide Power, Times;
    TimesOrder(x, y);
    TimesOrder(pow(x), pow(y));
    PowerOfProduct(x, y, 12);
    PowerOfProduct(pow(x), pow(y), 5);
    var p, q := pow(Times(x, y)), Times(pow(x), pow(y));
    if p < q {
      PowerOrder(p, q, 5);
    } else if q < p {
      PowerOrder(q, p, 5);
    }
  }

  lemma CubeFalls(r: real)
    requires 0.0 <= r <= 1.0
    ensures 1.0 - Cube(r) <= 3.0 * (1.0 - r)
  {
    ProductsOrder(r, 1.0, r, 1.0);
    ProductSign(1.0 - r, 2.0 - r - r * r);
    assert (1.0 - r) * (2.0 - r - r * r) == 3.0 * (1.0 - r) - (1.0 - r * r * r);
  }

  /** Gamma expansion rises at most three times as fast as its argument. */
  lemma PowStep(pow: real -> real, a: real, b: real)
    requires IsPow24(pow) && 0.0 <= a <= b <= 1.0
    ensures pow(b) - pow(a) <= 3.0 * (b - a)
  {
    hide Power, Times, Cube;
    if a == b {
    } else {
      var r := a / b;
      Part(a, b);
      PowOfProduct(pow, b, r);
      PowBounds(pow, b);
      PowBounds(pow, r);
      TimesOrder(b, b);
      CubeFalls(r);
      Fall(pow(b), pow(r), b, r);
    }
  }

  lemma Part(a: real, b: real)
    requires 0.0 <= a <= b && 0.0 < b
    ensures 0.0 <= a / b <= 1.0 && Times(b, a / b) == a
  {
    QuotientOrder(a, b, 0.0);
    QuotientOrder(a, b, 1.0);
    DivideThenMultiply(a, b);
  }

  lemma Fall(y: real, p: real, b: real, r: real)
    requires 0.0 <= y <= b && r <= 1.0 && 1.0 - p <= 3.0 * (1.0 - r)
    ensures y - Times(y, p) <= 3.0 * (b - Times(b, r))
  {
    var d := 3.0 * (1.0 - r);
    ProductSign(y, d - (1.0 - p));
    ProductSign(b - y, d);
    assert y * (d - (1.0 - p)) == y * d - (y - y * p);
    assert (b - y) * d == b * d - y * d;
    assert b * d == 3.0 * (b - b * r);
  }

  lemma LinStep(c: Byte, pow: real -> real)
    requires IsPow24(pow) && c < 255
    ensures Lin(c + 1, pow) - Lin(c, pow) <= PAINT_STEP
  {
    hide IsPow24;
    var u, v := Unit(c), Unit(c + 1);
    assert v == u + 1.0 / 255.0;
    if v <= GAMMA_KNEE {
    } else {
      var x := (v + GAMMA_OFFSET) / GAMMA_SCALE;
      if u <= GAMMA_KNEE {
        assert c == 10;
        assert 0.0 <= x <= 0.1;
        PowBounds(pow, x);
        ProductsOrder(x, 0.1, x, 0.1);
      } else {
        PowStep(pow, (u + GAMMA_OFFSET) / GAMMA_SCALE, x);
      }
    }
  }

  predicate ByteAbove(x: Byte, y: Byte) {
    x <= y <= x + 1
  }

  /** At most one byte lighter in any channel. */
  predicate StepAbove(c: Rgb, d: Rgb) {
    ByteAbove(c.r, d.r) && ByteAbove(c.g, d.g) && ByteAbove(c.b, d.b)
  }

  lemma LuminanceStep(c: Rgb, d: Rgb, pow: real -> real)
    requires IsPow24(pow) && StepAbove(c, d)
    ensures RelativeLuminance(d, pow) - RelativeLuminance(c, pow) <= PAINT_STEP
  {
    hide Lin, IsPow24;
    if c.r < d.r { LinStep(c.r, pow); }
    if c.g < d.g { LinStep(c.g, pow); }
    if c.b < d.b { LinStep(c.b, pow); }
  }

  // ----------------------------------------------------- a bracket is a byte step

  lemma ToByteStep(x: real, y: real)
    requires 0.0 <= x <= y <= x + 2.0 * BRACKET
    ensures ByteAbove(ToByte(x), ToByte(y))
  {
    var a, b := x * CHANNEL_MAX, y * CHANNEL_MAX;
    assert 0.0 <= a <= b < a + 1.0;
  }

  lemma ToByteEnds(x: real)
    ensures 0.0 <= x <= 2.0 * BRACKET ==> ToByte(x) == 0
    ensures 1.0 - 2.0 * BRACKET <= x ==> ToByte(x) == 255
  {
    var a := x * CHANNEL_MAX;
    assert x <= 2.0 * BRACKET ==> a < 0.5;
    assert 1.0 - 2.0 * BRACKET <= x ==> a >= 254.5;
  }

  lemma OppositeLevels(weight: real, saturation: real, l: real)
    ensures Level(weight, saturation, l) + Level(1.0 - weight, saturation, l) == 2.0 * l
  {
    hide Chroma;
    var c := Chroma(saturation, l);
    assert (1.0 - weight) * c == c - weight * c;
  }

  lemma LevelEnds(weight: real, saturation: real)
    ensures Level(weight, saturation, 0.0) == 0.0 && Level(weight, saturation, 1.0) == 1.0
  {
    assert Chroma(saturation, 0.0) == 0.0 && Chroma(saturation, 1.0) == 0.0;
  }

  /** A channel rises at most twice as fast as the lightness. */
  lemma LevelStep(weight: real, saturation: real, l1: real, l2: real)
    requires 0.0 <= weight <= 1.0 && 0.0 <= saturation <= 1.0 && 0.0 <= l1 <= l2 <= 1.0
    ensures 0.0 <= Level(weight, saturation, l1) <= Level(weight, saturation, l2) <= 1.0
    ensures Level(weight, saturation, l2) <= Level(weight, saturation, l1) + 2.0 * (l2 - l1)
  {
    hide Level;
    OppositeLevels(weight, saturation, l1);
    OppositeLevels(weight, saturation, l2);
    LevelEnds(weight, saturation);
    LevelIsMonotone(1.0 - weight, saturation, l1, l2);
    LevelIsMonotone(weight, saturation, 0.0, l1);
    LevelIsMonotone(weight, saturation, l1, l2);
    LevelIsMonotone(weight, saturation, l2, 1.0);
  }

  lemma ChannelStep(weight: real, saturation: real, l1: real, l2: real)
    requires 0.0 <= weight <= 1.0 && 0.0 <= saturation <= 1.0 && 0.0 <= l1 <= l2 <= 1.0 && l2 - l1 <= BRACKET
    ensures ByteAbove(ToByte(Level(weight, saturation, l1)), ToByte(Level(weight, saturation, l2)))
    ensures l1 == 0.0 ==> ToByte(Level(weight, saturation, l2)) == 0
    ensures l2 == 1.0 ==> ToByte(Level(weight, saturation, l1)) == 255
  {
    hide Level, ToByte;
    LevelStep(weight, saturation, l1, l2);
    LevelEnds(weight, saturation);
    ToByteStep(Level(weight, saturation, l1), Level(weight, saturation, l2));
    ToByteEnds(Level(weight, saturation, l2));
    ToByteEnds(Level(weight, saturation, l1));
  }

  /** Two lightnesses of a bracket are a byte step apart; near the ends of the
      range they are black, or white. */
  lemma ColourStep(hue: real, saturation: real, l1: real, l2: real)
    requires 0.0 <= saturation <= 1.0 && 0.0 <= l1 <= l2 <= 1.0 && l2 - l1 <= BRACKET
    ensures StepAbove(FromHsl(hue, saturation, l1), FromHsl(hue, saturation, l2))
    ensures l1 == 0.0 ==> FromHsl(hue, saturation, l2) == BLACK
    ensures l2 == 1.0 ==> FromHsl(hue, saturation, l1) == WHITE
  {
    hide Rem, Wheel, Level, FromHslChannels, ToByte;
    var p := Rem(hue, FULL_TURN) / DEGREES_PER_SECTOR;
    var w := Wheel(p, 1.0);
    WheelScales(p, 1.0);
    ChannelsAreLevels(hue, saturation, l1);
    ChannelsAreLevels(hue, saturation, l2);
    ChannelStep(w.red, saturation, l1, l2);
    ChannelStep(w.green, saturation, l1, l2);
    ChannelStep(w.blue, saturation, l1, l2);
  }

  // --------------------------------------------------------------- what is painted

  /** The luminance a target asks for, on the scale there is. */
  function Clamped(target: real): real {
    Max(0.0, Min(target, 1.0))
  }

  /** A colour painted for a target lies within a byte step of it; beyond black
      or white it is all but black or white, and exactly so from the tolerance on. */
  ghost predicate PaintedFor(result: Rgb, target: real, pow: real -> real) {
    var l := RelativeLuminance(result, pow);
    && Abs(l - Clamped(target)) <= PAINT_STEP
    && (target < 0.0 ==> l < LUMINANCE_TOLERANCE)
    && (target > 1.0 ==> l > 1.0 - LUMINANCE_TOLERANCE)
    && (target <= -LUMINANCE_TOLERANCE ==> result == BLACK)
    && (target >= 1.0 + LUMINANCE_TOLERANCE ==> result == WHITE)
  }

  lemma BracketPaints(hue: real, saturation: real, l: real, target: real, pow: real -> real)
    requires IsPow24(pow) && 0.0 <= saturation <= 1.0
    requires Bracketed(hue, saturation, l, target, BRACKET, pow)
    ensures target < 0.0 ==> FromHsl(hue, saturation, l) == BLACK
    ensures target > 1.0 ==> FromHsl(hue, saturation, l) == WHITE
    ensures 0.0 <= target <= 1.0 ==> Abs(At(hue, saturation, l, pow) - target) <= PAINT_STEP
  {
    hide RelativeLuminance, FromHsl, StepAbove;
    var low, high :| Straddles(hue, saturation, low, high, target, pow) && low <= l <= high && high - low <= BRACKET;
    ColourStep(hue, saturation, low, l);
    ColourStep(hue, saturation, l, high);
    ColourStep(hue, saturation, low, high);
    LuminanceStep(FromHsl(hue, saturation, low), FromHsl(hue, saturation, high), pow);
    AtIsMonotone(hue, saturation, low, l, pow);
    AtIsMonotone(hue, saturation, l, high, pow);
  }

  lemma PaintedIsNear(original: Rgb, result: Rgb, target: real, pow: real -> real)
    requires IsPow24(pow) && Reaches(original, result, target, pow)
    ensures PaintedFor(result, target, pow)
  {
    hide RelativeLuminance, FromHsl, HslOf, Bracketed;
    var h := HslOf(original);
    HslInRange(original);
    HalvedSteps(1.0);
    LuminanceRange(result, pow);
    hide Halved;
    var l :| 0.0 <= l <= 1.0 && result == FromHsl(h.hue, h.saturation, l)
      && (Abs(RelativeLuminance(result, pow) - target) < LUMINANCE_TOLERANCE
          || Bracketed(h.hue, h.saturation, l, target, Halved(1.0, LUMINANCE_STEPS), pow));
    if Bracketed(h.hue, h.saturation, l, target, Halved(1.0, LUMINANCE_STEPS), pow) {
      BracketPaints(h.hue, h.saturation, l, target, pow);
    }
  }
}

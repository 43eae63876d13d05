/** The colour arithmetic of crates/agent/src/surface.rs, in exact reals. */
module Surface {
  import opened Utf8

  datatype Rgb = Rgb(r: Byte, g: Byte, b: Byte)

  datatype Hsl = Hsl(hue: real, saturation: real, lightness: real)

  /** Three channels, each 0 to 1. */
  datatype Channels = Channels(red: real, green: real, blue: real)

  const CHANNEL_MAX := 255.0
  const CHANNEL_TIE_EPSILON := 0.000001
  const CHROMA_EPSILON := 0.000001
  const FULL_TURN := 360.0
  const DEGREES_PER_SECTOR := 60.0

  function Max(a: real, b: real): real {
    if a >= b then a else b
  }

  function Min(a: real, b: real): real {
    if a <= b then a else b
  }

  function Abs(a: real): real {
    if a >= 0.0 then a else -a
  }

  /** `rem_euclid`; on a non-negative number, also Rust's `%`. */
  function Rem(x: real, m: real): real
    requires m > 0.0
  {
    x - m * (x / m).Floor as real
  }

  function Unit(c: Byte): real {
    c as real / CHANNEL_MAX
  }

  function Units(c: Rgb): Channels {
    Channels(Unit(c.r), Unit(c.g), Unit(c.b))
  }

  /** Half away from zero, as `f32::round`. */
  function Round(x: real): int {
    if x >= 0.0 then (x + 0.5).Floor else -(-x + 0.5).Floor
  }

  /** A channel to a byte, saturating. */
  function ToByte(channel: real): Byte {
    var scaled := Round(channel * CHANNEL_MAX);
    if scaled < 0 then 0 else if scaled > 255 then 255 else scaled
  }

  // ------------------------------------------------------------------ to HSL

  function Highest(c: Channels): real {
    Max(Max(c.red, c.green), c.blue)
  }

  function Lowest(c: Channels): real {
    Min(Min(c.red, c.green), c.blue)
  }

  function ToHsl(c: Channels): Hsl
    requires Highest(c) <= 1.0 && Lowest(c) >= 0.0
  {
    var highest, lowest := Highest(c), Lowest(c);
    var lightness := (highest + lowest) / 2.0;
    var span := highest - lowest;
    if span <= CHROMA_EPSILON then Hsl(0.0, 0.0, lightness)
    else
      var saturation := if lightness > 0.5 then span / (2.0 - highest - lowest) else span / (highest + lowest);
      var sixths :=
        if Abs(highest - c.red) < CHANNEL_TIE_EPSILON then Rem((c.green - c.blue) / span, 6.0)
        else if Abs(highest - c.green) < CHANNEL_TIE_EPSILON then (c.blue - c.red) / span + 2.0
        else (c.red - c.green) / span + 4.0;
      Hsl(sixths * DEGREES_PER_SECTOR, saturation, lightness)
  }

  function HslOf(c: Rgb): Hsl {
    UnitsInRange(c);
    ToHsl(Units(c))
  }

  lemma UnitsInRange(c: Rgb)
    ensures Highest(Units(c)) <= 1.0 && Lowest(Units(c)) >= 0.0
  {
  }

  // ---------------------------------------------------------------- from HSL

  function Chroma(saturation: real, lightness: real): real {
    (1.0 - Abs(2.0 * lightness - 1.0)) * saturation
  }

  function Rise(position: real, chroma: real): real {
    chroma * (1.0 - Abs(Rem(position, 2.0) - 1.0))
  }

  /** The three channels before the lift: full chroma, the rising one, and zero. */
  function Wheel(position: real, chroma: real): Channels {
    var rise := Rise(position, chroma);
    match position.Floor % 6
    case 0 => Channels(chroma, rise, 0.0)
    case 1 => Channels(rise, chroma, 0.0)
    case 2 => Channels(0.0, chroma, rise)
    case 3 => Channels(0.0, rise, chroma)
    case 4 => Channels(rise, 0.0, chroma)
    case _ => Channels(chroma, 0.0, rise)
  }

  function FromHslChannels(hue: real, saturation: real, lightness: real): Channels {
    var chroma := Chroma(saturation, lightness);
    var raw := Wheel(Rem(hue, FULL_TURN) / DEGREES_PER_SECTOR, chroma);
    var lift := lightness - chroma / 2.0;
    Channels(raw.red + lift, raw.green + lift, raw.blue + lift)
  }

  function FromHsl(hue: real, saturation: real, lightness: real): Rgb {
    var c := FromHslChannels(hue, saturation, lightness);
    Rgb(ToByte(c.red), ToByte(c.green), ToByte(c.blue))
  }

  // -------------------------------------------------------------- round trip

  /** Channels that are equal or further apart than the tie epsilons, as the
      channels of any two bytes are. */
  predicate Separated(c: Channels) {
    && Apart(c.red, c.green) && Apart(c.green, c.blue) && Apart(c.red, c.blue)
  }

  predicate Apart(x: real, y: real) {
    x == y || Abs(x - y) > CHROMA_EPSILON
  }

  lemma BytesAreSeparated(c: Rgb)
    ensures Separated(Units(c))
  {
    UnitsApart(c.r, c.g);
    UnitsApart(c.g, c.b);
    UnitsApart(c.r, c.b);
  }

  lemma UnitsApart(x: Byte, y: Byte)
    ensures Apart(Unit(x), Unit(y))
  {
    assert Unit(x) - Unit(y) == (x - y) as real / 255.0;
    if x > y {
      assert (x - y) as real >= 1.0;
    } else if x < y {
      assert (x - y) as real <= -1.0;
    }
  }

  lemma DivideThenMultiply(a: real, b: real)
    requires b != 0.0
    ensures a / b * b == a && b * (a / b) == a
  {
  }

  lemma ProductSign(a: real, b: real)
    requires a >= 0.0 && b >= 0.0
    ensures a * b >= 0.0
    ensures a > 0.0 && b > 0.0 ==> a * b > 0.0
  {
  }

  /** Multiplying by a positive number keeps the order of two numbers, and their equality. */
  lemma ProductOrder(x: real, y: real, m: real)
    requires m > 0.0
    ensures x < y <==> x * m < y * m
    ensures x == y <==> x * m == y * m
  {
    if x < y {
      ProductSign(y - x, m);
      assert (y - x) * m == y * m - x * m;
    } else if y < x {
      ProductSign(x - y, m);
      assert (x - y) * m == x * m - y * m;
    }
  }

  /** A quotient against any bound, by way of the product. */
  lemma QuotientOrder(a: real, b: real, y: real)
    requires b > 0.0
    ensures a / b < y <==> a < y * b
    ensures a / b == y <==> a == y * b
  {
    DivideThenMultiply(a, b);
    ProductOrder(a / b, y, b);
  }

  lemma QuotientBounds(a: real, b: real)
    requires b > 0.0 && -b <= a <= b
    ensures -1.0 <= a / b <= 1.0
    ensures a >= 0.0 <==> a / b >= 0.0
    ensures a == b <==> a / b == 1.0
    ensures a == -b <==> a / b == -1.0
  {
    QuotientOrder(a, b, 1.0);
    QuotientOrder(a, b, 0.0);
    QuotientOrder(a, b, -1.0);
  }

  /** A number of degrees below a full turn comes back as its sector position. */
  lemma PositionOfSixths(sixths: real)
    requires 0.0 <= sixths < 6.0
    ensures Rem(sixths * DEGREES_PER_SECTOR, FULL_TURN) / DEGREES_PER_SECTOR == sixths
  {
    assert (sixths * 60.0 / 360.0).Floor == 0;
  }

  lemma RemOf(x: real, m: real, k: int)
    requires m > 0.0 && k as real * m <= x < (k + 1) as real * m
    ensures Rem(x, m) == x - m * k as real
  {
    QuotientOrder(x, m, k as real);
    QuotientOrder(x, m, (k + 1) as real);
    assert (x / m).Floor == k;
  }

  /** Chroma is the span again, whichever half of the lightness range it is on. */
  lemma ChromaIsSpan(highest: real, lowest: real)
    requires 0.0 <= lowest < highest <= 1.0
    ensures var lightness := (highest + lowest) / 2.0;
            var span := highest - lowest;
            var saturation := if lightness > 0.5 then span / (2.0 - highest - lowest) else span / (highest + lowest);
            Chroma(saturation, lightness) == span
  {
    var lightness := (highest + lowest) / 2.0;
    if lightness > 0.5 {
      DivideThenMultiply(highest - lowest, 2.0 - highest - lowest);
      assert 1.0 - Abs(2.0 * lightness - 1.0) == 2.0 - highest - lowest;
    } else {
      DivideThenMultiply(highest - lowest, highest + lowest);
      assert 1.0 - Abs(2.0 * lightness - 1.0) == highest + lowest;
    }
  }

  lemma RiseOf(position: real, chroma: real, r: real)
    requires Rem(position, 2.0) == r
    ensures r <= 1.0 ==> Rise(position, chroma) == chroma * r
    ensures r >= 1.0 ==> Rise(position, chroma) == chroma * (2.0 - r)
  {
    hide Rem;
    assert 1.0 - Abs(r - 1.0) == if r <= 1.0 then r else 2.0 - r;
  }

  lemma Complement(chroma: real, x: real)
    ensures chroma * (2.0 - (1.0 + x)) == chroma - chroma * x
  {
  }

  /** The wheel at `k + x`, a fraction `x` of the way through sector `k`. */
  lemma WheelInSector(k: int, x: real, chroma: real)
    requires 0 <= k < 6 && 0.0 <= x < 1.0
    ensures (k as real + x).Floor == k
    ensures Rise(k as real + x, chroma) == if k % 2 == 0 then chroma * x else chroma - chroma * x
  {
    hide Rem, Rise;
    var turns := k / 2;
    assert k == 2 * turns + k % 2 && turns as real * 2.0 == (2 * turns) as real;
    RemOf(k as real + x, 2.0, turns);
    if k % 2 == 0 {
      RiseOf(k as real + x, chroma, x);
    } else {
      RiseOf(k as real + x, chroma, 1.0 + x);
      Complement(chroma, x);
    }
  }

  /** Where each colour falls on the wheel, and what the wheel gives back there. */
  lemma WheelInverts(c: Channels, sixths: real)
    requires 0.0 <= Lowest(c) < Highest(c) <= 1.0
    requires var span := Highest(c) - Lowest(c);
             sixths == if c.red == Highest(c) then Steered(c.green - c.blue, span, 0)
                       else if c.green == Highest(c) then Steered(c.blue - c.red, span, 2)
                       else Steered(c.red - c.green, span, 4)
    ensures 0.0 <= sixths < 6.0
    ensures var lo := Lowest(c);
            Wheel(sixths, Highest(c) - lo) == Channels(c.red - lo, c.green - lo, c.blue - lo)
  {
    hide Rem, Rise, Steered;
    var hi, lo := Highest(c), Lowest(c);
    var span := hi - lo;
    if c.red == hi {
      Steers(c.green - c.blue, span, 0);
    } else if c.green == hi {
      Steers(c.blue - c.red, span, 2);
    } else {
      Steers(c.red - c.green, span, 4);
    }
  }

  /** Where the quotient `d / span` steers around the primary at position `k`. */
  function Steered(d: real, span: real, k: int): real
    requires span > 0.0
  {
    if k == 0 then Rem(d / span, 6.0) else d / span + k as real
  }

  /** Forward, into sector `k`. */
  lemma SteersForward(d: real, span: real, k: int)
    requires 0.0 <= d < span && k in {0, 2, 4}
    ensures var p := Steered(d, span, k);
            0.0 <= p < 6.0 && p.Floor == k && Rise(p, span) == d
  {
    var q := d / span;
    DivideThenMultiply(d, span);
    QuotientBounds(d, span);
    RemOf(q, 6.0, 0);
    WheelInSector(k, q, span);
  }

  /** All the way, onto sector `k + 1`. */
  lemma SteersOnto(span: real, k: int)
    requires 0.0 < span && k in {0, 2, 4}
    ensures var p := Steered(span, span, k);
            0.0 <= p < 6.0 && p.Floor == k + 1 && Rise(p, span) == span
  {
    assert span / span == 1.0;
    RemOf(1.0, 6.0, 0);
    WheelInSector(k + 1, 0.0, span);
  }

  /** Back, into the sector before. */
  lemma SteersBack(d: real, span: real, k: int)
    requires -span <= d < 0.0 && k in {0, 2, 4}
    ensures var p := Steered(d, span, k);
            0.0 <= p < 6.0 && p.Floor == (k + 5) % 6 && Rise(p, span) == -d
  {
    hide Rem, Rise;
    var q := d / span;
    DivideThenMultiply(d, span);
    QuotientBounds(d, span);
    RemOf(q, 6.0, -1);
    var sector := (k + 5) % 6;
    assert sector == (if k == 0 then 5 else k - 1) && sector % 2 == 1;
    assert Steered(d, span, k) == sector as real + (q + 1.0);
    WheelInSector(sector, q + 1.0, span);
    OneMoreTime(span, q, d);
  }

  lemma OneMoreTime(span: real, q: real, d: real)
    requires span * q == d
    ensures span - span * (q + 1.0) == -d
  {
    assert span * (q + 1.0) == span * q + span;
  }

  lemma Steers(d: real, span: real, k: int)
    requires -span <= d <= span && 0.0 < span && k in {0, 2, 4}
    ensures var p := Steered(d, span, k);
            && 0.0 <= p < 6.0
            && (0.0 <= d < span ==> p.Floor == k && Rise(p, span) == d)
            && (d == span ==> p.Floor == k + 1 && Rise(p, span) == span)
            && (d < 0.0 ==> p.Floor == (k + 5) % 6 && Rise(p, span) == -d)
  {
    if d < 0.0 {
      SteersBack(d, span, k);
    } else if d < span {
      SteersForward(d, span, k);
    } else {
      SteersOnto(span, k);
    }
  }

  lemma GreyInverts(c: Channels)
    requires Highest(c) <= 1.0 && Lowest(c) >= 0.0 && Highest(c) == Lowest(c)
    ensures var h := ToHsl(c); FromHslChannels(h.hue, h.saturation, h.lightness) == c
  {
    hide Rem;
    var h := ToHsl(c);
    assert Chroma(h.saturation, h.lightness) == 0.0;
    GreyWheel(Rem(h.hue, FULL_TURN) / DEGREES_PER_SECTOR);
  }

  /** What the hue of a colour that is not grey is made of. */
  lemma HueIsSteered(c: Channels)
    requires Highest(c) <= 1.0 && Lowest(c) >= 0.0 && Separated(c) && Highest(c) != Lowest(c)
    ensures var h, span := ToHsl(c), Highest(c) - Lowest(c);
            && span > 0.0
            && h.hue / DEGREES_PER_SECTOR ==
               (if c.red == Highest(c) then Steered(c.green - c.blue, span, 0)
                else if c.green == Highest(c) then Steered(c.blue - c.red, span, 2)
                else Steered(c.red - c.green, span, 4))
            && h.lightness == (Highest(c) + Lowest(c)) / 2.0
            && h.saturation ==
               if h.lightness > 0.5 then span / (2.0 - Highest(c) - Lowest(c)) else span / (Highest(c) + Lowest(c))
  {
    hide Rem;
  }

  /** `from_hsl` undoes `hsl` on every channel triple the epsilons can tell apart. */
  lemma FromHslInvertsToHsl(c: Channels)
    requires Highest(c) <= 1.0 && Lowest(c) >= 0.0 && Separated(c)
    ensures var h := ToHsl(c); FromHslChannels(h.hue, h.saturation, h.lightness) == c
  {
    hide Rem, Wheel, Chroma, ToHsl, Separated, Steered, Highest, Lowest;
    if Highest(c) == Lowest(c) {
      GreyInverts(c);
    } else {
      HueIsSteered(c);
      LowestIsLowest(c);
      ChromaIsSpan(Highest(c), Lowest(c));
      var sixths := ToHsl(c).hue / DEGREES_PER_SECTOR;
      WheelInverts(c, sixths);
      PositionOfSixths(sixths);
      assert ToHsl(c).hue == sixths * DEGREES_PER_SECTOR;
    }
  }

  lemma LowestIsLowest(c: Channels)
    ensures Lowest(c) <= Highest(c)
  {
  }

  lemma GreyWheel(position: real)
    ensures Wheel(position, 0.0) == Channels(0.0, 0.0, 0.0)
  {
  }

  lemma ToByteInvertsUnit(c: Byte)
    ensures ToByte(Unit(c)) == c
  {
    assert Unit(c) * 255.0 == c as real;
    assert (c as real + 0.5).Floor == c;
  }

  /** Every 24-bit colour survives the trip through HSL. */
  lemma FromHslInvertsHsl(c: Rgb)
    ensures var h := HslOf(c); FromHsl(h.hue, h.saturation, h.lightness) == c
  {
    UnitsInRange(c);
    BytesAreSeparated(c);
    FromHslInvertsToHsl(Units(c));
    ToByteInvertsUnit(c.r);
    ToByteInvertsUnit(c.g);
    ToByteInvertsUnit(c.b);
  }

  /** The saturation and lightness of any colour are between 0 and 1. */
  lemma HslInRange(c: Rgb)
    ensures 0.0 <= HslOf(c).saturation <= 1.0 && 0.0 <= HslOf(c).lightness <= 1.0
  {
    UnitsInRange(c);
    BytesAreSeparated(c);
    var hi, lo := Highest(Units(c)), Lowest(Units(c));
    if hi != lo {
      if (hi + lo) / 2.0 > 0.5 {
        QuotientBounds(hi - lo, 2.0 - hi - lo);
      } else {
        QuotientBounds(hi - lo, hi + lo);
      }
    }
  }

  // ------------------------------------------------------- monotone in lightness

  /** How much of the chroma each channel gets at a position on the wheel. */
  lemma WheelScales(position: real, chroma: real)
    ensures var w := Wheel(position, 1.0);
            && 0.0 <= w.red <= 1.0 && 0.0 <= w.green <= 1.0 && 0.0 <= w.blue <= 1.0
            && Wheel(position, chroma) == Channels(w.red * chroma, w.green * chroma, w.blue * chroma)
  {
    RemBounds(position, 2.0);
  }

  lemma RemBounds(x: real, m: real)
    requires m > 0.0
    ensures 0.0 <= Rem(x, m) < m
  {
    var q := x / m;
    DivideThenMultiply(x, m);
    var f := q - q.Floor as real;
    assert 0.0 <= f < 1.0;
    assert Rem(x, m) == f * m;
  }

  /** One channel: a weight of the chroma over the lift. */
  function Level(weight: real, saturation: real, lightness: real): real {
    weight * Chroma(saturation, lightness) + (lightness - Chroma(saturation, lightness) / 2.0)
  }

  lemma LevelIsMonotone(weight: real, saturation: real, l1: real, l2: real)
    requires 0.0 <= weight <= 1.0 && 0.0 <= saturation <= 1.0 && l1 <= l2
    ensures Level(weight, saturation, l1) <= Level(weight, saturation, l2)
  {
    LevelSlopes(weight, saturation, l1);
    LevelSlopes(weight, saturation, l2);
    var up, down := 1.0 + (2.0 * weight - 1.0) * saturation, 1.0 - (2.0 * weight - 1.0) * saturation;
    SlopeBounds(weight, saturation);
    if l2 <= 0.5 {
      ProductSign(l2 - l1, up);
    } else if l1 >= 0.5 {
      ProductSign(l2 - l1, down);
    } else {
      ProductSign(0.5 - l1, up);
      ProductSign(l2 - 0.5, down);
    }
  }

  lemma SlopeBounds(weight: real, saturation: real)
    requires 0.0 <= weight <= 1.0 && 0.0 <= saturation <= 1.0
    ensures -1.0 <= (2.0 * weight - 1.0) * saturation <= 1.0
  {
    ProductSign(weight, saturation);
    ProductSign(1.0 - weight, saturation);
  }

  /** A channel is linear on each half of the lightness range. */
  lemma LevelSlopes(weight: real, saturation: real, l: real)
    ensures l <= 0.5 ==> Level(weight, saturation, l) == l * (1.0 + (2.0 * weight - 1.0) * saturation)
    ensures l >= 0.5 ==>
      Level(weight, saturation, l)
      == 0.5 * (1.0 + (2.0 * weight - 1.0) * saturation) + (l - 0.5) * (1.0 - (2.0 * weight - 1.0) * saturation)
  {
    var s, t := saturation, weight * saturation;
    if l <= 0.5 {
      assert Chroma(s, l) == 2.0 * l * s;
    } else {
      assert Chroma(s, l) == (2.0 - 2.0 * l) * s;
    }
  }

  predicate NoneDarker(a: Rgb, b: Rgb) {
    a.r <= b.r && a.g <= b.g && a.b <= b.b
  }

  lemma ToByteIsMonotone(x: real, y: real)
    requires x <= y
    ensures ToByte(x) <= ToByte(y)
  {
  }

  lemma ChannelsAreLevels(hue: real, saturation: real, l: real)
    ensures var w := Wheel(Rem(hue, FULL_TURN) / DEGREES_PER_SECTOR, 1.0);
            FromHslChannels(hue, saturation, l) ==
            Channels(Level(w.red, saturation, l), Level(w.green, saturation, l), Level(w.blue, saturation, l))
  {
    hide Rem, Wheel, Chroma;
    WheelScales(Rem(hue, FULL_TURN) / DEGREES_PER_SECTOR, Chroma(saturation, l));
  }

  /** For a fixed hue and saturation no channel falls as the lightness rises. */
  lemma FromHslIsMonotone(hue: real, saturation: real, l1: real, l2: real)
    requires 0.0 <= saturation <= 1.0 && l1 <= l2
    ensures NoneDarker(FromHsl(hue, saturation, l1), FromHsl(hue, saturation, l2))
  {
    hide Rem, Wheel, Level, FromHslChannels, ToByte;
    var p := Rem(hue, FULL_TURN) / DEGREES_PER_SECTOR;
    var w := Wheel(p, 1.0);
    WheelScales(p, 1.0);
    ChannelsAreLevels(hue, saturation, l1);
    ChannelsAreLevels(hue, saturation, l2);
    LevelIsMonotone(w.red, saturation, l1, l2);
    LevelIsMonotone(w.green, saturation, l1, l2);
    LevelIsMonotone(w.blue, saturation, l1, l2);
    var c1, c2 := FromHslChannels(hue, saturation, l1), FromHslChannels(hue, saturation, l2);
    ToByteIsMonotone(c1.red, c2.red);
    ToByteIsMonotone(c1.green, c2.green);
    ToByteIsMonotone(c1.blue, c2.blue);
  }

  /** The ends of the lightness range are black and white. */
  lemma LightnessEnds(hue: real, saturation: real)
    ensures FromHsl(hue, saturation, 0.0) == Rgb(0, 0, 0)
    ensures FromHsl(hue, saturation, 1.0) == Rgb(255, 255, 255)
  {
    var p := Rem(hue, FULL_TURN) / DEGREES_PER_SECTOR;
    assert Chroma(saturation, 0.0) == 0.0 && Chroma(saturation, 1.0) == 0.0;
    GreyWheel(p);
    assert (255.0 + 0.5).Floor == 255;
  }

  /** A channel is painted as the nearest byte, halves upwards; past the ends, as the end. */
  lemma ToByteIsNearest(x: real)
    ensures 0.0 <= x <= 1.0 ==> -0.5 < ToByte(x) as real - x * 255.0 <= 0.5
    ensures x <= 0.0 ==> ToByte(x) == 0
    ensures x >= 1.0 ==> ToByte(x) == 255
  {
    var y := x * 255.0;
    assert x <= 0.0 ==> y <= 0.0;
    assert x >= 1.0 ==> y >= 255.0;
    assert 0.0 <= x <= 1.0 ==> 0.0 <= y <= 255.0;
  }
}

/** Making all roles of a palette legible together (crates/agent/src/adapt.rs),
    by moving their luminances as one. */
module Adapt {
  import opened Wrappers
  import opened Utf8
  import opened Surface
  import opened Luminance
  import opened Painting
  import Ansi

  const ROLE_COUNT := 7
  const RATIO_MARGIN := 1.05
  const DARKEST_ROLE_FRACTION := 0.34
  const EPSILON := 0.00000011920928955078125 // f32::EPSILON, 2^-23

  // ------------------------------------------------------------------ the map

  /** The luminance a role must be at or below (light) or at or above (dark) to reach the ratio. */
  function Threshold(bg: real, light: bool, ratio: real): real
    requires ratio > 0.0
  {
    if light then (bg + CONTRAST_OFFSET) / ratio - CONTRAST_OFFSET
    else ratio * (bg + CONTRAST_OFFSET) - CONTRAST_OFFSET
  }

  /** Where the darkest and the brightest role of a palette go, and what decides it. */
  datatype Fit = Fit(bg: real, light: bool, minRatio: real, lo: real, hi: real) {
    ghost predicate Valid() {
      0.0 <= lo <= hi <= 1.0 && 0.0 <= bg <= 1.0 && minRatio >= 1.0
    }

    function Margined(): real
      requires minRatio > 0.0
    {
      Threshold(bg, light, minRatio * RATIO_MARGIN)
    }

    predicate AlreadyLegible()
      requires minRatio > 0.0
    {
      if light then hi <= Threshold(bg, light, minRatio) else lo >= Threshold(bg, light, minRatio)
    }

    function AdaptedLo(): real
      requires minRatio > 0.0
    {
      if light then Min(lo, Margined() * DARKEST_ROLE_FRACTION) else Margined()
    }

    function AdaptedHi(): real
      requires minRatio > 0.0
    {
      if light then Margined() else Max(hi, Margined() / DARKEST_ROLE_FRACTION)
    }

    function Span(): (r: real)
      ensures r > 0.0
    {
      Max(hi - lo, EPSILON)
    }

    function Target(luminance: real): real
      requires minRatio > 0.0
    {
      (luminance - lo) / Span() * (AdaptedHi() - AdaptedLo()) + AdaptedLo()
    }
  }

  // ------------------------------------------------------------ what it promises

  /** On the side the background asks for: darker than a light one, lighter than a dark one. */
  predicate RightSide(luminance: real, bg: real, light: bool) {
    if light then luminance <= bg else luminance >= bg
  }

  /** A luminance is past the threshold exactly when it is on the right side
      of the background and reaches the ratio there. */
  lemma ThresholdIsRatio(luminance: real, bg: real, light: bool, ratio: real)
    requires luminance >= 0.0 && bg >= 0.0 && ratio >= 1.0
    ensures (if light then luminance <= Threshold(bg, light, ratio) else luminance >= Threshold(bg, light, ratio))
            <==> RightSide(luminance, bg, light) && Ratio(luminance, bg) >= ratio
  {
    RatioOrder(luminance, bg, ratio);
    if light {
      QuotientOrder(bg + CONTRAST_OFFSET, ratio, luminance + CONTRAST_OFFSET);
      ProductSign(ratio - 1.0, luminance + CONTRAST_OFFSET);
      assert (ratio - 1.0) * (luminance + CONTRAST_OFFSET)
        == ratio * (luminance + CONTRAST_OFFSET) - (luminance + CONTRAST_OFFSET);
    } else {
      ProductSign(ratio - 1.0, bg + CONTRAST_OFFSET);
      assert (ratio - 1.0) * (bg + CONTRAST_OFFSET) == ratio * (bg + CONTRAST_OFFSET) - (bg + CONTRAST_OFFSET);
    }
  }

  /** A palette is left alone exactly when its every role, on the right side of
      the background, already reaches the ratio: the constrained end speaks for all. */
  lemma IdentityWhenLegible(f: Fit, luminances: seq<real>)
    requires f.Valid()
    requires forall l :: l in luminances ==> f.lo <= l <= f.hi
    requires f.lo in luminances && f.hi in luminances
    ensures f.AlreadyLegible() <==>
            forall l :: l in luminances ==> l >= 0.0 && RightSide(l, f.bg, f.light) && Ratio(l, f.bg) >= f.minRatio
  {
    hide Ratio, Threshold;
    forall l | l in luminances
      ensures (if f.light then l <= Threshold(f.bg, f.light, f.minRatio) else l >= Threshold(f.bg, f.light, f.minRatio))
              <==> RightSide(l, f.bg, f.light) && Ratio(l, f.bg) >= f.minRatio
    {
      ThresholdIsRatio(l, f.bg, f.light, f.minRatio);
    }
  }

  /** The slope of the map: positive, except on a light background too dim for
      the margined ratio, where it is flat or turned over. */
  lemma RangeOrder(f: Fit)
    requires f.Valid()
    ensures !f.light ==> f.Margined() > 0.0
    ensures f.light ==> f.Margined() > -CONTRAST_OFFSET
    ensures f.AdaptedLo() < f.AdaptedHi() <==> !f.light || f.Margined() > 0.0
    ensures f.AdaptedLo() == f.AdaptedHi() <==> f.light && f.Margined() == 0.0
  {
    var m := f.minRatio * RATIO_MARGIN;
    if f.light {
      QuotientOrder(f.bg + CONTRAST_OFFSET, m, 0.0);
    } else {
      ProductSign(m - 1.05, f.bg + CONTRAST_OFFSET);
      assert (m - 1.05) * (f.bg + CONTRAST_OFFSET) == m * (f.bg + CONTRAST_OFFSET) - 1.05 * (f.bg + CONTRAST_OFFSET);
    }
  }

  lemma ScaledDifference(x: real, y: real, s: real, d: real)
    ensures (y * d - x * d) * s == d * (y * s - x * s)
  {
    assert y * d - x * d == (y - x) * d;
    assert (y - x) * d * s == d * ((y - x) * s);
  }

  /** Relative spacing survives: differences of targets are differences of
      luminances, scaled by one factor for the whole palette. */
  lemma TargetIsAffine(f: Fit, a: real, b: real)
    requires f.Valid()
    ensures (f.Target(b) - f.Target(a)) * f.Span() == (f.AdaptedHi() - f.AdaptedLo()) * (b - a)
  {
    hide Fit.Margined, Fit.AdaptedHi, Fit.AdaptedLo, Fit.Span;
    var s, d := f.Span(), f.AdaptedHi() - f.AdaptedLo();
    DivideThenMultiply(a - f.lo, s);
    DivideThenMultiply(b - f.lo, s);
    var x, y := (a - f.lo) / s, (b - f.lo) / s;
    ScaledDifference(x, y, s, d);
    assert f.Target(b) - f.Target(a) == y * d - x * d;
    assert y * s - x * s == b - a;
  }

  /** The map keeps the order of any two roles exactly when the background is
      dark or leaves the margined threshold above zero. */
  lemma OrderIsKept(f: Fit, a: real, b: real)
    requires f.Valid() && a < b
    ensures f.Target(a) < f.Target(b) <==> !f.light || f.Margined() > 0.0
    ensures f.Target(a) == f.Target(b) <==> f.light && f.Margined() == 0.0
  {
    hide Fit.Target, Fit.Margined, Fit.AdaptedHi, Fit.AdaptedLo, Fit.Span;
    RangeOrder(f);
    TargetIsAffine(f, a, b);
    ProductOrder(0.0, f.Target(b) - f.Target(a), f.Span());
    ProductOrder(0.0, f.AdaptedHi() - f.AdaptedLo(), b - a);
  }

  lemma TargetEnds(f: Fit)
    requires f.Valid()
    ensures f.Target(f.lo) == f.AdaptedLo()
    ensures f.hi - f.lo >= EPSILON ==> f.Target(f.hi) == f.AdaptedHi()
  {
    hide Fit.Margined, Fit.AdaptedHi, Fit.AdaptedLo;
    var s, d := f.Span(), f.AdaptedHi() - f.AdaptedLo();
    QuotientOrder(f.lo - f.lo, s, 0.0);
    QuotientOrder(f.hi - f.lo, s, 1.0);
    hide Fit.Span;
    assert (f.lo - f.lo) / s * d == 0.0;
    assert (f.hi - f.lo) / s == 1.0 ==> (f.hi - f.lo) / s * d == d;
  }

  /** A role `width` of the way lands on the far end only if it is all the way, or there is no way to go. */
  lemma LandsOnEnd(landed: real, from: real, to: real, width: real, span: real)
    requires 0.0 < span && width < span && (landed - from) * span == (to - from) * width
    ensures landed == to <==> to == from
  {
    ProductOrder(landed - from, to - from, span);
    ProductOrder(to - from, 0.0, span - width);
    assert (to - from) * (span - width) == (to - from) * span - (to - from) * width;
  }

  /** The constrained end lands on the threshold: always on a dark background;
      on a light one exactly when the luminances span at least the epsilon, or
      the map is flat. */
  lemma ConstrainedEndLands(f: Fit)
    requires f.Valid()
    ensures !f.light ==> f.Target(f.lo) == f.Margined()
    ensures f.light ==> (f.Target(f.hi) == f.Margined() <==> f.hi - f.lo >= EPSILON || f.Margined() == 0.0)
  {
    hide Fit.Target, Fit.Margined, Fit.AdaptedLo, Fit.AdaptedHi;
    ConstrainedEnds(f);
    RangeOrder(f);
    TargetEnds(f);
    if f.light && f.hi - f.lo < EPSILON {
      TargetIsAffine(f, f.lo, f.hi);
      LandsOnEnd(f.Target(f.hi), f.AdaptedLo(), f.AdaptedHi(), f.hi - f.lo, EPSILON);
    }
  }

  lemma ConstrainedEnds(f: Fit)
    requires f.Valid()
    ensures if f.light then f.AdaptedHi() == f.Margined() else f.AdaptedLo() == f.Margined()
  {
    hide Fit.Margined;
  }

  /** Every target lies between the ends of the adapted range, whichever way round they are. */
  lemma TargetsAreBetween(f: Fit, l: real)
    requires f.Valid() && f.lo <= l <= f.hi
    ensures f.AdaptedLo() <= f.AdaptedHi() ==> f.AdaptedLo() <= f.Target(l) <= f.AdaptedHi()
    ensures f.AdaptedHi() <= f.AdaptedLo() ==> f.AdaptedHi() <= f.Target(l) <= f.AdaptedLo()
  {
    hide Fit.Margined, Fit.AdaptedHi, Fit.AdaptedLo;
    var q, d := (l - f.lo) / f.Span(), f.AdaptedHi() - f.AdaptedLo();
    QuotientOrder(l - f.lo, f.Span(), 0.0);
    QuotientOrder(l - f.lo, f.Span(), 1.0);
    hide Fit.Span;
    ProductsOrder(0.0, q, Abs(d), Abs(d));
    ProductsOrder(q, 1.0, Abs(d), Abs(d));
    assert q * d == if d >= 0.0 then q * Abs(d) else -(q * Abs(d));
    assert f.Target(l) == q * d + f.AdaptedLo();
  }

  /** While the map does not turn the order over, its ends speak for all. */
  lemma EndsBoundTargets(f: Fit)
    requires f.Valid() && f.AdaptedLo() <= f.AdaptedHi()
    ensures (forall l :: f.lo <= l <= f.hi ==> 0.0 <= f.Target(l) <= 1.0)
       <==> 0.0 <= f.AdaptedLo() && f.Target(f.hi) <= 1.0
  {
    hide Fit.Target, Fit.Margined, Fit.AdaptedHi, Fit.AdaptedLo, Fit.Span;
    RangeOrder(f);
    TargetEnds(f);
    forall l | f.lo <= l <= f.hi
      ensures f.AdaptedLo() <= f.Target(l) <= f.Target(f.hi)
    {
      TargetsAreBetween(f, l);
      if l < f.hi {
        OrderIsKept(f, l, f.hi);
      }
    }
  }

  /** Every target is a luminance some colour could have exactly when, on a
      light background, the margined threshold is not negative, and on a dark
      one the brightest role stays within white: for roles told apart by the
      epsilon, when the darkest role is sent no further than 0.34. */
  lemma TargetsAreLuminances(f: Fit)
    requires f.Valid()
    ensures (forall l :: f.lo <= l <= f.hi ==> 0.0 <= f.Target(l) <= 1.0) <==>
            if f.light then f.Margined() >= 0.0
            else (f.AdaptedHi() - f.Margined()) * (f.hi - f.lo) <= (1.0 - f.Margined()) * f.Span()
    ensures !f.light && f.hi - f.lo >= EPSILON ==>
            ((forall l :: f.lo <= l <= f.hi ==> 0.0 <= f.Target(l) <= 1.0) <==> f.Margined() <= DARKEST_ROLE_FRACTION)
  {
    hide Fit.Target, Fit.Margined, Fit.Span;
    RangeOrder(f);
    TargetEnds(f);
    if f.light {
      if f.Margined() >= 0.0 {
        EndsBoundTargets(f);
        TargetsAreBetween(f, f.hi);
        LightThresholdIsBelow(f);
      } else {
        assert f.Target(f.lo) < 0.0;
      }
    } else {
      EndsBoundTargets(f);
      TargetIsAffine(f, f.lo, f.hi);
      ProductOrder(f.Target(f.hi) - f.Margined(), 1.0 - f.Margined(), f.Span());
      QuotientOrder(f.Margined(), DARKEST_ROLE_FRACTION, 1.0);
    }
  }

  lemma LightThresholdIsBelow(f: Fit)
    requires f.Valid() && f.light
    ensures f.Margined() <= f.bg
  {
    var m := f.minRatio * RATIO_MARGIN;
    QuotientOrder(f.bg + CONTRAST_OFFSET, m, f.bg + CONTRAST_OFFSET);
    ProductSign(m - 1.0, f.bg + CONTRAST_OFFSET);
    assert (m - 1.0) * (f.bg + CONTRAST_OFFSET) == (f.bg + CONTRAST_OFFSET) * m - (f.bg + CONTRAST_OFFSET);
  }

  /** The map leads away from the background: no role is sent towards it. */
  ghost predicate LeadsAway(f: Fit)
    requires f.minRatio > 0.0
  {
    forall l :: f.lo <= l <= f.hi ==> if f.light then f.Target(l) <= l else f.Target(l) >= l
  }

  /** Where the two ends go: the constrained one to the margined threshold, and
      the other stays where it is exactly when that is far enough from the
      threshold, and else goes as far as that. */
  ghost predicate EndsWellApart(f: Fit)
    requires f.minRatio > 0.0
  {
    var threshold := Threshold(f.bg, f.light, f.minRatio * RATIO_MARGIN);
    if f.light then
      && f.Target(f.hi) == threshold
      && (f.Target(f.lo) == f.lo <==> f.lo <= 0.34 * threshold)
      && (f.lo > 0.34 * threshold ==> f.Target(f.lo) == 0.34 * threshold)
    else
      && f.Target(f.lo) == threshold
      && (f.Target(f.hi) == f.hi <==> f.hi * 0.34 >= threshold)
      && (f.hi * 0.34 < threshold ==> f.Target(f.hi) * 0.34 == threshold)
  }

  /** The margin asks for more than the ratio does. */
  lemma MarginAsksMore(f: Fit)
    requires f.Valid()
    ensures if f.light then f.Margined() <= Threshold(f.bg, true, f.minRatio)
            else f.Margined() >= Threshold(f.bg, false, f.minRatio)
  {
    var b := f.bg + CONTRAST_OFFSET;
    if f.light {
      DivideThenMultiply(b, f.minRatio);
      DivideThenMultiply(b, f.minRatio * RATIO_MARGIN);
      SmallerQuotient(b, f.minRatio, f.minRatio * RATIO_MARGIN);
    } else {
      ProductsOrder(f.minRatio, f.minRatio * RATIO_MARGIN, b, b);
    }
  }

  lemma SmallerQuotient(b: real, m: real, n: real)
    requires b > 0.0 && 0.0 < m <= n
    ensures b / n <= b / m
  {
    var q := b / m;
    DivideThenMultiply(b, m);
    QuotientOrder(b, m, 0.0);
    ProductsOrder(m, n, q, q);
    QuotientOrder(b, n, q);
  }

  lemma EndsStand(f: Fit)
    requires f.Valid() && f.hi - f.lo >= EPSILON
    ensures EndsWellApart(f)
  {
    hide Fit.Target, Threshold;
    TargetEnds(f);
    if !f.light {
      QuotientOrder(f.Margined(), DARKEST_ROLE_FRACTION, f.hi);
      DivideThenMultiply(f.Margined(), DARKEST_ROLE_FRACTION);
    }
  }

  /** What an affine map does between two ends is a blend of what it does to them. */
  lemma Blend(l: real, lo: real, hi: real, t: real, tlo: real, thi: real)
    requires (t - tlo) * (hi - lo) == (thi - tlo) * (l - lo)
    ensures (t - l) * (hi - lo) == (tlo - lo) * (hi - l) + (thi - hi) * (l - lo)
  {
    assert (t - l) * (hi - lo) == (t - tlo) * (hi - lo) + (tlo - l) * (hi - lo);
    assert (thi - tlo) * (l - lo) + (tlo - l) * (hi - lo) == (tlo - lo) * (hi - l) + (thi - hi) * (l - lo);
  }

  lemma BlendOfPositives(x: real, w: real, a: real, p: real, b: real, q: real)
    requires w > 0.0 && a >= 0.0 && p >= 0.0 && b >= 0.0 && q >= 0.0 && x * w == a * p + b * q
    ensures x >= 0.0
  {
    ProductSign(a, p);
    ProductSign(b, q);
    ProductOrder(x, 0.0, w);
  }

  lemma Negated(x: real, w: real, a: real, p: real, b: real, q: real)
    requires x * w == a * p + b * q
    ensures (-x) * w == (-a) * p + (-b) * q
  {
  }

  /** An affine map that moves no end of a range one way moves nothing in it that way. */
  lemma BetweenEnds(l: real, lo: real, hi: real, t: real, tlo: real, thi: real)
    requires lo <= l <= hi && lo < hi && (t - tlo) * (hi - lo) == (thi - tlo) * (l - lo)
    ensures tlo >= lo && thi >= hi ==> t >= l
    ensures tlo <= lo && thi <= hi ==> t <= l
  {
    Blend(l, lo, hi, t, tlo, thi);
    if tlo >= lo && thi >= hi {
      BlendOfPositives(t - l, hi - lo, tlo - lo, hi - l, thi - hi, l - lo);
    }
    if tlo <= lo && thi <= hi {
      Negated(t - l, hi - lo, tlo - lo, hi - l, thi - hi, l - lo);
      BlendOfPositives(-(t - l), hi - lo, -(tlo - lo), hi - l, -(thi - hi), l - lo);
    }
  }

  lemma EndsMoveAway(f: Fit)
    requires f.Valid() && !f.AlreadyLegible()
    ensures if f.light then f.AdaptedLo() <= f.lo && f.AdaptedHi() <= f.hi
            else f.AdaptedLo() >= f.lo && f.AdaptedHi() >= f.hi
  {
    hide Threshold;
    MarginAsksMore(f);
  }

  /** A palette that is not left alone is moved away from its background. */
  lemma AwayFromBackground(f: Fit)
    requires f.Valid() && !f.AlreadyLegible() && f.hi - f.lo >= EPSILON
    ensures LeadsAway(f)
  {
    hide Fit.Target, Fit.AdaptedHi, Fit.AdaptedLo, Fit.AlreadyLegible;
    EndsMoveAway(f);
    forall l | f.lo <= l <= f.hi
      ensures if f.light then f.Target(l) <= l else f.Target(l) >= l
    {
      TargetEnds(f);
      TargetIsAffine(f, f.lo, l);
      assert f.Span() == f.hi - f.lo;
      BetweenEnds(l, f.lo, f.hi, f.Target(l), f.AdaptedLo(), f.AdaptedHi());
    }
  }

  /** A target meets the margined ratio: past the threshold, on a scale that has no negative luminance. */
  ghost predicate Meets(f: Fit, target: real)
    requires f.Valid()
  {
    target >= 0.0 && RightSide(target, f.bg, f.light) && Ratio(target, f.bg) >= f.minRatio * RATIO_MARGIN
  }

  /** Every role's target meets 1.05 times the ratio exactly when the background
      is dark or the margined threshold is not negative. */
  lemma EveryTargetMeets(f: Fit)
    requires f.Valid()
    ensures (forall l :: f.lo <= l <= f.hi ==> Meets(f, f.Target(l))) <==> !f.light || f.Margined() >= 0.0
  {
    hide Fit.Target, Ratio, Fit.Span;
    RangeOrder(f);
    TargetEnds(f);
    if !f.light || f.Margined() >= 0.0 {
      forall l | f.lo <= l <= f.hi
        ensures Meets(f, f.Target(l))
      {
        TargetsAreBetween(f, l);
        ThresholdIsRatio(f.Target(l), f.bg, f.light, f.minRatio * RATIO_MARGIN);
      }
    } else {
      assert f.Target(f.lo) < 0.0;
      assert !Meets(f, f.Target(f.lo));
    }
  }

  // ---------------------------------------- how far below middle grey the threshold is

  lemma MiddleGreyLuminance(pow: real -> real)
    requires IsPow24(pow)
    ensures 0.18 < RelativeLuminance(Rgb(119, 119, 119), pow) < 0.18625
  {
    var x := (Unit(119) + GAMMA_OFFSET) / GAMMA_SCALE;
    assert 0.4944 <= x <= 0.4946;
    PowerOrder(0.4944, x, 12);
    PowerOrder(x, 0.4946, 12);
    MiddleGreyConstants();
    if pow(x) <= 0.18 {
      PowerOrder(pow(x), 0.18, 5);
    }
    if pow(x) >= 0.18625 {
      PowerOrder(0.18625, pow(x), 5);
    }
    assert Lin(119, pow) == pow(x);
  }

  lemma MiddleGreyConstants()
    ensures Power(0.18, 5) < Power(0.4944, 12) && Power(0.4946, 12) < Power(0.18625, 5)
  {
    assert Power(0.18, 3) == 0.005832;
    assert Power(0.18, 5) < 0.00019;
    assert Power(0.18625, 3) > 0.00646;
    assert Power(0.18625, 5) > 0.000224;
    assert Power(0.4944, 2) > 0.2444;
    assert Power(0.4944, 4) > 0.0597;
    assert Power(0.4944, 6) > 0.01459;
    assert Power(0.4944, 8) > 0.00356;
    assert Power(0.4944, 10) > 0.00087;
    assert Power(0.4944, 12) > 0.00021;
    assert Power(0.4946, 2) < 0.24463;
    assert Power(0.4946, 4) < 0.05985;
    assert Power(0.4946, 6) < 0.014642;
    assert Power(0.4946, 8) < 0.003582;
    assert Power(0.4946, 10) < 0.0008764;
    assert Power(0.4946, 12) < 0.0002145;
  }

  // ------------------------------------------------------------------- the method

  /** The colours of a theme's escapes, if every one of them is a colour. */
  ghost predicate Originals(escapes: seq<seq<Byte>>, colours: seq<Rgb>) {
    |colours| == |escapes| && forall i :: 0 <= i < |escapes| ==> Ansi.Accepted(escapes[i], colours[i])
  }

  /** The fit `adapt` computes: the extremes are attained by some role. */
  ghost predicate FitOf(f: Fit, colours: seq<Rgb>, bg: Rgb, minRatio: real, pow: real -> real) {
    && f.bg == RelativeLuminance(bg, pow) && f.light == BgIsLight(bg, pow) && f.minRatio == minRatio
    && (forall i :: 0 <= i < |colours| ==> f.lo <= RelativeLuminance(colours[i], pow) <= f.hi)
    && (exists i :: 0 <= i < |colours| && f.lo == RelativeLuminance(colours[i], pow))
    && (exists i :: 0 <= i < |colours| && f.hi == RelativeLuminance(colours[i], pow))
  }

  /** What `adapt` answers for these colours under this fit. */
  ghost predicate Adapted(f: Fit, colours: seq<Rgb>, out: seq<Rgb>, pow: real -> real)
    requires f.minRatio > 0.0
  {
    && |out| == |colours|
    && forall i :: 0 <= i < |colours| ==>
      if f.AlreadyLegible() then out[i] == colours[i]
      else Reaches(colours[i], out[i], f.Target(RelativeLuminance(colours[i], pow)), pow)
  }

  /** The lowest and the highest luminance of the palette. */
  method Extremes(colours: array<Rgb>, pow: real -> real) returns (lo: real, hi: real)
    requires colours.Length > 0
    ensures forall i :: 0 <= i < colours.Length ==> lo <= RelativeLuminance(colours[i], pow) <= hi
    ensures exists i :: 0 <= i < colours.Length && lo == RelativeLuminance(colours[i], pow)
    ensures exists i :: 0 <= i < colours.Length && hi == RelativeLuminance(colours[i], pow)
  {
    hide RelativeLuminance;
    lo, hi := RelativeLuminance(colours[0], pow), RelativeLuminance(colours[0], pow);
    var index := 0;
    while index < colours.Length
      invariant index <= colours.Length
      invariant forall i :: 0 <= i < index ==> lo <= RelativeLuminance(colours[i], pow) <= hi
      invariant exists i :: 0 <= i < colours.Length && lo == RelativeLuminance(colours[i], pow)
      invariant exists i :: 0 <= i < colours.Length && hi == RelativeLuminance(colours[i], pow)
    {
      var l := RelativeLuminance(colours[index], pow);
      lo, hi := Min(lo, l), Max(hi, l);
      index := index + 1;
    }
  }

  /** Map every colour by the fit, or none of them. */
  method MapColours(f: Fit, originals: array<Rgb>, pow: real -> real) returns (out: array<Rgb>)
    requires IsPow24(pow) && f.minRatio > 0.0
    ensures fresh(out) && Adapted(f, originals[..], out[..], pow)
  {
    hide RelativeLuminance, Reaches, Fit.Target, Fit.AlreadyLegible;
    out := new Rgb[originals.Length](_ => Rgb(0, 0, 0));
    var index := 0;
    if f.AlreadyLegible() {
      while index < originals.Length
        invariant index <= originals.Length
        invariant forall i :: 0 <= i < index ==> out[i] == originals[i]
      {
        out[index] := originals[index];
        index := index + 1;
      }
    } else {
      while index < originals.Length
        invariant index <= originals.Length
        invariant forall i :: 0 <= i < index ==>
          Reaches(originals[i], out[i], f.Target(RelativeLuminance(originals[i], pow)), pow)
      {
        var target := f.Target(RelativeLuminance(originals[index], pow));
        var reached := AtLuminance(originals[index], target, pow);
        out[index] := reached;
        index := index + 1;
      }
    }
  }

  // ------------------------------------------------------- what becomes of the roles

  /** Each role is painted for its target. */
  ghost predicate Painted(f: Fit, colours: seq<Rgb>, out: seq<Rgb>, pow: real -> real)
    requires f.minRatio > 0.0
  {
    && |out| == |colours|
    && forall i :: 0 <= i < |colours| ==> PaintedFor(out[i], f.Target(RelativeLuminance(colours[i], pow)), pow)
  }

  lemma AdaptedIsPainted(f: Fit, colours: seq<Rgb>, out: seq<Rgb>, pow: real -> real)
    requires IsPow24(pow) && f.minRatio > 0.0 && Adapted(f, colours, out, pow) && !f.AlreadyLegible()
    ensures Painted(f, colours, out, pow)
  {
    hide RelativeLuminance, Reaches, PaintedFor, Fit.Target, Fit.AlreadyLegible, IsPow24;
    forall i | 0 <= i < |colours|
      ensures PaintedFor(out[i], f.Target(RelativeLuminance(colours[i], pow)), pow)
    {
      PaintedIsNear(colours[i], out[i], f.Target(RelativeLuminance(colours[i], pow)), pow);
    }
  }

  /** The order of two roles survives to what is painted, as long as every
      target is a luminance and the map holds their targets two byte steps apart. */
  lemma PaintedOrderIsKept(f: Fit, colours: seq<Rgb>, out: seq<Rgb>, pow: real -> real, i: nat, j: nat)
    requires IsPow24(pow) && f.Valid() && Adapted(f, colours, out, pow) && !f.AlreadyLegible()
    requires i < |colours| && j < |colours|
    requires var a, b := RelativeLuminance(colours[i], pow), RelativeLuminance(colours[j], pow);
             && 0.0 <= f.Target(a) && f.Target(b) <= 1.0
             && (f.AdaptedHi() - f.AdaptedLo()) * (b - a) > 2.0 * PAINT_STEP * f.Span()
    ensures RelativeLuminance(out[i], pow) < RelativeLuminance(out[j], pow)
  {
    hide RelativeLuminance, Adapted, Fit.Target, Fit.AlreadyLegible, Fit.AdaptedHi, Fit.AdaptedLo, Fit.Span;
    AdaptedIsPainted(f, colours, out, pow);
    var a, b := RelativeLuminance(colours[i], pow), RelativeLuminance(colours[j], pow);
    TargetIsAffine(f, a, b);
    ProductOrder(2.0 * PAINT_STEP, f.Target(b) - f.Target(a), f.Span());
  }

  // -------------------------------------------------- backgrounds that wash it out

  /** A threshold below black sends every role below black. */
  lemma TargetsBelowBlack(f: Fit, l: real)
    requires f.Valid() && f.light && f.Margined() < 0.0 && f.lo <= l <= f.hi
    ensures f.Target(l) < 0.0
  {
    hide Fit.Target, Fit.Margined;
    RangeOrder(f);
    TargetsAreBetween(f, l);
  }

  /** On a light background whose margined threshold is negative, every role of
      a palette that is not left alone comes out all but black. */
  lemma DimLightBlackens(f: Fit, colours: seq<Rgb>, out: seq<Rgb>, bg: Rgb, minRatio: real, pow: real -> real)
    requires IsPow24(pow) && f.Valid() && FitOf(f, colours, bg, minRatio, pow) && Adapted(f, colours, out, pow)
    requires f.light && f.Margined() < 0.0 && !f.AlreadyLegible()
    ensures forall i :: 0 <= i < |out| ==> RelativeLuminance(out[i], pow) < LUMINANCE_TOLERANCE
  {
    hide RelativeLuminance, Reaches, Fit.Target, Fit.Margined, Fit.AlreadyLegible;
    AdaptedIsPainted(f, colours, out, pow);
    forall i | 0 <= i < |out|
      ensures RelativeLuminance(out[i], pow) < LUMINANCE_TOLERANCE
    {
      TargetsBelowBlack(f, RelativeLuminance(colours[i], pow));
    }
  }

  /** On a dark background every role sent past white comes out all but white,
      and some role is sent there once the darkest is sent past 0.34. */
  lemma DimDarkWhitens(f: Fit, colours: seq<Rgb>, out: seq<Rgb>, bg: Rgb, minRatio: real, pow: real -> real)
    requires IsPow24(pow) && f.Valid() && FitOf(f, colours, bg, minRatio, pow) && Adapted(f, colours, out, pow)
    requires !f.light && !f.AlreadyLegible()
    ensures forall i :: 0 <= i < |out| && f.Target(RelativeLuminance(colours[i], pow)) > 1.0 ==>
      RelativeLuminance(out[i], pow) > 1.0 - LUMINANCE_TOLERANCE
    ensures f.hi - f.lo >= EPSILON && f.Margined() > DARKEST_ROLE_FRACTION ==>
      exists i :: 0 <= i < |out| && RelativeLuminance(out[i], pow) > 1.0 - LUMINANCE_TOLERANCE
  {
    hide RelativeLuminance, Reaches, Fit.Target, Fit.Margined, Fit.AlreadyLegible;
    AdaptedIsPainted(f, colours, out, pow);
    TargetEnds(f);
    QuotientOrder(f.Margined(), DARKEST_ROLE_FRACTION, 1.0);
    var i :| 0 <= i < |colours| && f.hi == RelativeLuminance(colours[i], pow);
    if f.hi - f.lo >= EPSILON && f.Margined() > DARKEST_ROLE_FRACTION {
      assert f.Target(RelativeLuminance(colours[i], pow)) > 1.0;
      assert RelativeLuminance(out[i], pow) > 1.0 - LUMINANCE_TOLERANCE;
    }
  }

  /** Middle grey, `#777777`, is such a background at the usual ratio of 4.5:
      one role brighter than 0.003 is enough to turn the whole palette black,
      and the map that does it has turned the order of the roles over. */
  lemma MiddleGreyBlackens(f: Fit, colours: seq<Rgb>, out: seq<Rgb>, pow: real -> real)
    requires IsPow24(pow) && FitOf(f, colours, Rgb(119, 119, 119), 4.5, pow) && Adapted(f, colours, out, pow)
    requires exists i :: 0 <= i < |colours| && RelativeLuminance(colours[i], pow) >= 0.003
    ensures f.light && f.Valid() && !f.AlreadyLegible()
    ensures f.lo < f.hi ==> f.Target(f.lo) > f.Target(f.hi)
    ensures forall i :: 0 <= i < |out| ==> RelativeLuminance(out[i], pow) < LUMINANCE_TOLERANCE
  {
    hide RelativeLuminance, Fit.Target, Adapted;
    var bg := Rgb(119, 119, 119);
    MiddleGreyLuminance(pow);
    ExtremesInRange(f, colours, bg, 4.5, pow);
    assert f.Margined() < 0.0 && !f.AlreadyLegible() by {
      QuotientOrder(f.bg + CONTRAST_OFFSET, 4.5 * RATIO_MARGIN, CONTRAST_OFFSET);
      QuotientOrder(f.bg + CONTRAST_OFFSET, 4.5, CONTRAST_OFFSET + 0.003);
    }
    if f.lo < f.hi {
      OrderIsKept(f, f.lo, f.hi);
    }
    DimLightBlackens(f, colours, out, bg, 4.5, pow);
  }

  /** `#404040` is such a dark background at 4.5: in a palette that holds black,
      yellow and white, in rising luminance, yellow is painted white. */
  lemma DarkGreyWhitens(f: Fit, colours: seq<Rgb>, out: seq<Rgb>, pow: real -> real)
    requires IsPow24(pow) && FitOf(f, colours, Rgb(64, 64, 64), 4.5, pow) && Adapted(f, colours, out, pow)
    requires BLACK in colours && Rgb(255, 255, 0) in colours && WHITE in colours
    ensures !f.light && f.Valid() && !f.AlreadyLegible()
    ensures RelativeLuminance(Rgb(255, 255, 0), pow) < RelativeLuminance(WHITE, pow)
    ensures forall i :: 0 <= i < |colours| && colours[i] in {Rgb(255, 255, 0), WHITE} ==> out[i] == WHITE
  {
    hide RelativeLuminance, Fit.Target, Adapted, Fit.AlreadyLegible;
    ExtremesInRange(f, colours, Rgb(64, 64, 64), 4.5, pow);
    DarkGreyLuminance(pow);
    BlackToWhite(f, colours, Rgb(64, 64, 64), 4.5, pow);
    YellowLuminance(pow);
    DarkGreyTargets(f, RelativeLuminance(Rgb(255, 255, 0), pow));
    DarkGreyTargets(f, 1.0);
    AdaptedIsPainted(f, colours, out, pow);
  }

  /** With black and white among the roles, the luminances run from 0 to 1. */
  lemma BlackToWhite(f: Fit, colours: seq<Rgb>, bg: Rgb, minRatio: real, pow: real -> real)
    requires IsPow24(pow) && f.Valid() && FitOf(f, colours, bg, minRatio, pow)
    requires BLACK in colours && WHITE in colours
    ensures f.lo == 0.0 && f.hi == 1.0 && RelativeLuminance(WHITE, pow) == 1.0
  {
    hide RelativeLuminance;
    LuminanceRange(BLACK, pow);
    var i :| 0 <= i < |colours| && colours[i] == BLACK;
    var j :| 0 <= j < |colours| && colours[j] == WHITE;
    assert f.lo <= RelativeLuminance(colours[i], pow) && RelativeLuminance(colours[j], pow) <= f.hi;
  }

  lemma YellowLuminance(pow: real -> real)
    requires IsPow24(pow)
    ensures RelativeLuminance(Rgb(255, 255, 0), pow) == RED_LUMA + GREEN_LUMA
  {
    hide Lin;
    LinEnds(pow);
  }

  lemma DarkGreyTargets(f: Fit, l: real)
    requires f.Valid() && f.lo == 0.0 && f.hi == 1.0 && !f.light && f.minRatio == 4.5
    requires 0.04 < f.bg && 0.9 <= l <= 1.0
    ensures !f.AlreadyLegible() && f.Target(l) >= 1.0 + LUMINANCE_TOLERANCE
  {
    hide Fit.Target, Fit.AdaptedHi, Fit.AdaptedLo;
    DarkGreyRange(f);
    TargetEnds(f);
    TargetIsAffine(f, 0.0, l);
    ProductsOrder(1.94 * 0.375, f.AdaptedHi() - f.AdaptedLo(), 0.9, l);
  }

  lemma DarkGreyRange(f: Fit)
    requires f.Valid() && f.lo == 0.0 && f.hi == 1.0 && !f.light && f.minRatio == 4.5 && 0.04 < f.bg
    ensures 0.375 < f.Margined() == f.AdaptedLo() && f.AdaptedHi() - f.AdaptedLo() >= 1.94 * 0.375
  {
    QuotientOrder(f.Margined(), DARKEST_ROLE_FRACTION, 2.94 * f.Margined());
  }

  lemma DarkGreyLuminance(pow: real -> real)
    requires IsPow24(pow)
    ensures 0.04 < RelativeLuminance(Rgb(64, 64, 64), pow) < LIGHT_BACKGROUND_LUMINANCE
  {
    hide IsPow24;
    var x := (Unit(64) + GAMMA_OFFSET) / GAMMA_SCALE;
    assert 0.29 <= x <= 0.2901;
    DarkGreyPow(pow, x);
    assert Lin(64, pow) == pow(x);
  }

  lemma DarkGreyPow(pow: real -> real, x: real)
    requires IsPow24(pow) && 0.29 <= x <= 0.2901
    ensures 0.04 < pow(x) < LIGHT_BACKGROUND_LUMINANCE
  {
    PowerOrder(0.29, x, 12);
    DarkGreyConstants();
    if pow(x) <= 0.04 {
      PowerOrder(pow(x), 0.04, 5);
    }
    PowBounds(pow, x);
    ProductsOrder(x, 0.2901, x, 0.2901);
  }

  lemma DarkGreyConstants()
    ensures Power(0.04, 5) < Power(0.29, 12)
  {
    assert Power(0.04, 3) == 0.000064;
    assert Power(0.04, 5) == 0.0000001024;
    assert Power(0.29, 2) == 0.0841;
    assert Power(0.29, 4) > 0.00707;
    assert Power(0.29, 6) > 0.000594;
    assert Power(0.29, 8) > 0.0000499;
    assert Power(0.29, 10) > 0.00000419;
    assert Power(0.29, 12) > 0.000000352;
  }

  /** What a palette comes to on a background that leaves no room for it: left
      alone, or on a light one all but black, or on a dark one, unless all its
      roles are of one luminance, all but white in some role. */
  ghost predicate WashedOut(colours: seq<Rgb>, out: seq<Rgb>, bg: Rgb, minRatio: real, pow: real -> real)
    requires minRatio > 0.0
  {
    var threshold := Threshold(RelativeLuminance(bg, pow), BgIsLight(bg, pow), minRatio * RATIO_MARGIN);
    || out == colours
    || (if BgIsLight(bg, pow) then
          threshold < 0.0 ==> forall i :: 0 <= i < |out| ==> RelativeLuminance(out[i], pow) < LUMINANCE_TOLERANCE
        else
          threshold > DARKEST_ROLE_FRACTION && !OneLuminance(colours, pow) ==>
            exists i :: 0 <= i < |out| && RelativeLuminance(out[i], pow) > 1.0 - LUMINANCE_TOLERANCE)
  }

  /** No two roles are further apart than the epsilon. */
  ghost predicate OneLuminance(colours: seq<Rgb>, pow: real -> real) {
    forall i, j :: 0 <= i < |colours| && 0 <= j < |colours| ==>
      RelativeLuminance(colours[j], pow) - RelativeLuminance(colours[i], pow) < EPSILON
  }

  method AdaptPalette(escapes: seq<seq<Byte>>, bg: Rgb, minRatio: real, pow: real -> real) returns (r: Option<seq<Rgb>>)
    requires |escapes| == ROLE_COUNT && IsPow24(pow) && minRatio >= 1.0
    ensures r == None <==> exists i :: 0 <= i < ROLE_COUNT && !Ansi.IsColour(escapes[i])
    ensures r.Some? ==> exists colours, f: Fit ::
      && Originals(escapes, colours) && f.Valid() && FitOf(f, colours, bg, minRatio, pow)
      && Adapted(f, colours, r.value, pow) && (f.AlreadyLegible() || Painted(f, colours, r.value, pow))
      && (f.AlreadyLegible() || f.hi - f.lo < EPSILON || (LeadsAway(f) && EndsWellApart(f)))
      && WashedOut(colours, r.value, bg, minRatio, pow)
  {
    hide RelativeLuminance, Ansi.Accepted, Ansi.IsColour, Adapted, Painted, WashedOut, Fit.AlreadyLegible,
      LeadsAway, EndsWellApart;
    var originals := new Rgb[ROLE_COUNT](_ => Rgb(0, 0, 0));
    var index := 0;
    while index < ROLE_COUNT
      invariant index <= ROLE_COUNT
      invariant forall i :: 0 <= i < index ==> Ansi.IsColour(escapes[i]) && Ansi.Accepted(escapes[i], originals[i])
    {
      var c := Ansi.FromAnsi(escapes[index]);
      if c == None {
        return None;
      }
      originals[index] := c.value;
      index := index + 1;
    }
    ghost var colours := originals[..];
    assert Originals(escapes, colours);
    var lo, hi := Extremes(originals, pow);
    var f := Fit(RelativeLuminance(bg, pow), BgIsLight(bg, pow), minRatio, lo, hi);
    assert FitOf(f, colours, bg, minRatio, pow);
    ExtremesInRange(f, colours, bg, minRatio, pow);
    var out := MapColours(f, originals, pow);
    r := Some(out[..]);
    AdaptedWashesOut(f, colours, r.value, bg, minRatio, pow);
    if !f.AlreadyLegible() && f.hi - f.lo >= EPSILON {
      AwayFromBackground(f);
      EndsStand(f);
    }
  }

  lemma AdaptedWashesOut(f: Fit, colours: seq<Rgb>, out: seq<Rgb>, bg: Rgb, minRatio: real, pow: real -> real)
    requires IsPow24(pow) && f.Valid() && minRatio >= 1.0
    requires FitOf(f, colours, bg, minRatio, pow) && Adapted(f, colours, out, pow)
    ensures f.AlreadyLegible() || Painted(f, colours, out, pow)
    ensures WashedOut(colours, out, bg, minRatio, pow)
  {
    hide RelativeLuminance, BgIsLight, Threshold, Fit.AlreadyLegible, Fit.Target, Reaches, Painted;
    if f.AlreadyLegible() {
      assert out == colours;
    } else {
      AdaptedIsPainted(f, colours, out, pow);
      if f.light {
        if f.Margined() < 0.0 {
          DimLightBlackens(f, colours, out, bg, minRatio, pow);
        }
      } else {
        DimDarkWhitens(f, colours, out, bg, minRatio, pow);
        NarrowIsOneLuminance(f, colours, bg, minRatio, pow);
      }
    }
  }

  lemma NarrowIsOneLuminance(f: Fit, colours: seq<Rgb>, bg: Rgb, minRatio: real, pow: real -> real)
    requires FitOf(f, colours, bg, minRatio, pow)
    ensures OneLuminance(colours, pow) <==> f.hi - f.lo < EPSILON
  {
    hide RelativeLuminance;
    var i :| 0 <= i < |colours| && f.lo == RelativeLuminance(colours[i], pow);
    var j :| 0 <= j < |colours| && f.hi == RelativeLuminance(colours[j], pow);
    if OneLuminance(colours, pow) {
      assert RelativeLuminance(colours[j], pow) - RelativeLuminance(colours[i], pow) < EPSILON;
    }
  }

  lemma ExtremesInRange(f: Fit, colours: seq<Rgb>, bg: Rgb, minRatio: real, pow: real -> real)
    requires IsPow24(pow) && minRatio >= 1.0 && FitOf(f, colours, bg, minRatio, pow)
    ensures f.Valid()
  {
    hide RelativeLuminance;
    var i :| 0 <= i < |colours| && f.lo == RelativeLuminance(colours[i], pow);
    var j :| 0 <= j < |colours| && f.hi == RelativeLuminance(colours[j], pow);
    LuminanceRange(colours[i], pow);
    LuminanceRange(colours[j], pow);
    LuminanceRange(bg, pow);
  }
}

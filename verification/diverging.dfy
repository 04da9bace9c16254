/** The diverging colormap evaluator: two MSH endpoint colours, a data
    range [min, max] and a midpoint, and the evaluation that maps a data
    value to a colour by saturation levelling, hue correction, one-sided
    normalisation and linear interpolation in MSH. */
module DivergingColormap {
  import opened Transcendental
  import opened Colors
  import opened Conversions
  import opened Hue

  datatype Option<T> = None | Some(value: T)

  /** The evaluator's state. An endpoint is `None` until its setter has
      run: colormap.h leaves it uninitialised until then. */
  datatype Diverging = Diverging(low: Option<MSH>, high: Option<MSH>, min: real, max: real, midPoint: real)

  /** Both endpoints have been set, so the evaluator may be used. */
  predicate Configured(d: Diverging)
  {
    d.low.Some? && d.high.Some?
  }

  /** Saturation angle separating colourful endpoints from gray ones. */
  const SaturationThreshold: real := 0.05
  /** Least magnitude of the gray that separates two saturated endpoints. */
  const GrayFloor: real := 88.0

  /** A new evaluator over [min, max], with the midpoint halfway. */
  function New(min: real, max: real): (d: Diverging)
    ensures d.min == min && d.max == max
    ensures d.low.None? && d.high.None?
    ensures d.midPoint - min == max - d.midPoint
    ensures min <= max ==> min <= d.midPoint <= max
  {
    Diverging(None, None, min, max, (max + min) / 2.0)
  }

  /** Sets the low endpoint from a gamma-encoded RGB colour. */
  function SetLow(d: Diverging, r: real, g: real, b: real, mt: Math): (d': Diverging)
    ensures d'.low == Some(RgbToMsh(RGB(r, g, b), mt))
    ensures d'.high == d.high && d'.min == d.min && d'.max == d.max && d'.midPoint == d.midPoint
  {
    d.(low := Some(RgbToMsh(RGB(r, g, b), mt)))
  }

  /** Sets the high endpoint from a gamma-encoded RGB colour. */
  function SetHigh(d: Diverging, r: real, g: real, b: real, mt: Math): (d': Diverging)
    ensures d'.high == Some(RgbToMsh(RGB(r, g, b), mt))
    ensures d'.low == d.low && d'.min == d.min && d'.max == d.max && d'.midPoint == d.midPoint
  {
    d.(high := Some(RgbToMsh(RGB(r, g, b), mt)))
  }

  /** Moves the midpoint of the colormap. */
  function SetMidpoint(d: Diverging, midPoint: real): (d': Diverging)
    ensures d'.midPoint == midPoint
    ensures d'.low == d.low && d'.high == d.high && d'.min == d.min && d'.max == d.max
  {
    d.(midPoint := midPoint)
  }

  /** The setters touch disjoint fields, so their order does not matter,
      and after one call of each the evaluator is configured. */
  lemma SettersCommute(d: Diverging, lo: RGB, hi: RGB, midPoint: real, mt: Math)
    ensures SetHigh(SetLow(d, lo.r, lo.g, lo.b, mt), hi.r, hi.g, hi.b, mt)
         == SetLow(SetHigh(d, hi.r, hi.g, hi.b, mt), lo.r, lo.g, lo.b, mt)
    ensures SetMidpoint(SetLow(d, lo.r, lo.g, lo.b, mt), midPoint)
         == SetLow(SetMidpoint(d, midPoint), lo.r, lo.g, lo.b, mt)
    ensures SetMidpoint(SetHigh(d, hi.r, hi.g, hi.b, mt), midPoint)
         == SetHigh(SetMidpoint(d, midPoint), hi.r, hi.g, hi.b, mt)
    ensures Configured(SetHigh(SetLow(d, lo.r, lo.g, lo.b, mt), hi.r, hi.g, hi.b, mt))
  {
  }

  /** A pair of MSH endpoints, as held in the evaluation's local copies. */
  datatype Endpoints = Endpoints(low: MSH, high: MSH)

  predicate Saturated(c: MSH)
  {
    c.s > SaturationThreshold
  }

  /** The hue-correction test, strictly below the threshold: it is not
      the negation of `Saturated`, since s exactly 0.05 is neither. */
  predicate Unsaturated(c: MSH)
  {
    c.s < SaturationThreshold
  }

  /** The magnitude of the separating gray: the largest of 88 and the two
      endpoint magnitudes. */
  function GrayMagnitude(e: Endpoints): (mMid: real)
    ensures mMid >= GrayFloor && mMid >= e.low.m && mMid >= e.high.m
    ensures mMid == GrayFloor || mMid == e.low.m || mMid == e.high.m
  {
    Max(GrayFloor, Max(e.low.m, e.high.m))
  }

  /** Saturation levelling: when both endpoints are saturated, the endpoint
      on the far side of the midpoint from `value` is replaced by a gray of
      magnitude `GrayMagnitude`. */
  function LevelSaturation(e: Endpoints, value: real, midPoint: real): (o: Endpoints)
    ensures o.low == e.low || o.high == e.high
    ensures !(Saturated(e.low) && Saturated(e.high)) ==> o == e
    ensures Saturated(e.low) && Saturated(e.high) && value < midPoint ==>
              o.low == e.low && o.high == MSH(GrayMagnitude(e), 0.0, 0.0)
    ensures Saturated(e.low) && Saturated(e.high) && midPoint <= value ==>
              o.high == e.high && o.low == MSH(GrayMagnitude(e), 0.0, 0.0)
  {
    if Saturated(e.low) && Saturated(e.high) then
      var gray := MSH(GrayMagnitude(e), 0.0, 0.0);
      if value < midPoint then Endpoints(e.low, gray) else Endpoints(gray, e.high)
    else e
  }

  /** The hue correction of `AdjustHues` can be computed: the spin divisor
      is nonzero for the pair it would be applied to. */
  predicate HuesDefined(e: Endpoints, mt: Math)
  {
    && (Unsaturated(e.low) && Saturated(e.high) ==> SpinDefined(e.high, e.low.m, mt))
    && (Unsaturated(e.high) && Saturated(e.low) ==> SpinDefined(e.low, e.high.m, mt))
  }

  /** Hue correction: when exactly one endpoint is unsaturated (strictly
      below 0.05) and the other saturated (strictly above 0.05), the
      unsaturated one takes the hue `AdjustHue` computes from the other. */
  function AdjustHues(e: Endpoints, mt: Math): (o: Endpoints)
    requires HuesDefined(e, mt)
    ensures o.low.m == e.low.m && o.low.s == e.low.s && o.high.m == e.high.m && o.high.s == e.high.s
    ensures o.low == e.low || o.high == e.high
    ensures o.low.h != e.low.h ==> Unsaturated(e.low) && Saturated(e.high)
    ensures o.high.h != e.high.h ==> Unsaturated(e.high) && Saturated(e.low)
    ensures Unsaturated(e.low) && Saturated(e.high) ==> o.low.h == AdjustHue(e.high, e.low.m, mt)
    ensures Unsaturated(e.high) && Saturated(e.low) ==> o.high.h == AdjustHue(e.low, e.high.m, mt)
    ensures e.low.s == SaturationThreshold || e.high.s == SaturationThreshold ==> o == e
  {
    if Unsaturated(e.low) && Saturated(e.high) then
      Endpoints(e.low.(h := AdjustHue(e.high, e.low.m, mt)), e.high)
    else if Unsaturated(e.high) && Saturated(e.low) then
      Endpoints(e.low, e.high.(h := AdjustHue(e.low, e.high.m, mt)))
    else e
  }

  /** The blend factor: `value` rescaled against the half of the range it
      falls in, then clamped to [0, 1]. */
  function Normalize(value: real, min: real, midPoint: real, max: real): (t: real)
    requires value < midPoint ==> midPoint != min
    requires midPoint <= value ==> max != midPoint
    ensures 0.0 <= t <= 1.0
    ensures min < midPoint < max && value <= min ==> t == 0.0
    ensures min < midPoint < max && max <= value ==> t == 1.0
    ensures value == midPoint ==> t == 0.0
  {
    RawBlendAtEnds(value, min, midPoint, max);
    Max(0.0, Min(1.0, RawBlend(value, min, midPoint, max)))
  }

  /** The blend factor before clamping. */
  function RawBlend(value: real, min: real, midPoint: real, max: real): real
    requires value < midPoint ==> midPoint != min
    requires midPoint <= value ==> max != midPoint
  {
    if value < midPoint then (value - min) / (midPoint - min)
    else (value - midPoint) / (max - midPoint)
  }

  lemma RawBlendAtEnds(value: real, min: real, midPoint: real, max: real)
    requires value < midPoint ==> midPoint != min
    requires midPoint <= value ==> max != midPoint
    ensures min < midPoint < max && value <= min ==> RawBlend(value, min, midPoint, max) <= 0.0
    ensures min < midPoint < max && max <= value ==> RawBlend(value, min, midPoint, max) >= 1.0
    ensures value == midPoint ==> RawBlend(value, min, midPoint, max) == 0.0
  {
    if min < midPoint < max && value <= min {
      DivNonNegative(min - value, midPoint - min);
      assert (value - min) / (midPoint - min) == -((min - value) / (midPoint - min));
    }
    if min < midPoint < max && max <= value {
      DivAtLeastOne(value - midPoint, max - midPoint);
    }
  }

  /** Inside either half of the range the blend factor grows strictly with
      the value. */
  lemma NormalizeStrictlyMonotone(a: real, b: real, min: real, midPoint: real, max: real)
    requires min < midPoint < max
    requires (min <= a < b < midPoint) || (midPoint <= a < b <= max)
    ensures Normalize(a, min, midPoint, max) < Normalize(b, min, midPoint, max)
  {
    if b < midPoint {
      var w := midPoint - min;
      assert (a - min) / w < (b - min) / w by { DivStrictlyMonotone(a - min, b - min, w); }
      assert (b - min) / w < 1.0 by { DivBelowOne(b - min, w); }
      assert 0.0 <= (a - min) / w by { DivNonNegative(a - min, w); }
    } else {
      var w := max - midPoint;
      assert (a - midPoint) / w < (b - midPoint) / w by { DivStrictlyMonotone(a - midPoint, b - midPoint, w); }
      assert (b - midPoint) / w <= 1.0 by { DivAtMostOne(b - midPoint, w); }
      assert 0.0 <= (a - midPoint) / w by { DivNonNegative(a - midPoint, w); }
    }
  }

  /** One component of the blend, `t * v + (1 - t) * u`. */
  function Mix(u: real, v: real, t: real): (r: real)
    requires 0.0 <= t <= 1.0
    ensures Min(u, v) <= r <= Max(u, v)
    ensures t == 0.0 ==> r == u
    ensures t == 1.0 ==> r == v
    ensures u == v ==> r == u
  {
    MixBetween(u, v, t);
    t * v + (1.0 - t) * u
  }

  lemma MixBetween(u: real, v: real, t: real)
    requires 0.0 <= t <= 1.0
    ensures Min(u, v) <= t * v + (1.0 - t) * u <= Max(u, v)
  {
    var r := t * v + (1.0 - t) * u;
    assert r - u == t * (v - u);
    assert v - r == (1.0 - t) * (v - u);
    if u <= v {
      NonNegativeProduct(t, v - u);
      NonNegativeProduct(1.0 - t, v - u);
    } else {
      NonNegativeProduct(t, u - v);
      NonNegativeProduct(1.0 - t, u - v);
      assert u - r == t * (u - v);
      assert r - v == (1.0 - t) * (u - v);
    }
  }

  /** Component-wise linear interpolation in MSH from `lo` (t = 0) to `hi` (t = 1). */
  function Lerp(lo: MSH, hi: MSH, t: real): (o: MSH)
    requires 0.0 <= t <= 1.0
    ensures Min(lo.m, hi.m) <= o.m <= Max(lo.m, hi.m)
    ensures Min(lo.s, hi.s) <= o.s <= Max(lo.s, hi.s)
    ensures Min(lo.h, hi.h) <= o.h <= Max(lo.h, hi.h)
    ensures t == 0.0 ==> o == lo
    ensures t == 1.0 ==> o == hi
    ensures lo == hi ==> o == lo
  {
    MSH(Mix(lo.m, hi.m, t), Mix(lo.s, hi.s, t), Mix(lo.h, hi.h, t))
  }

  /** The stored endpoints as a pair. */
  function Stored(d: Diverging): Endpoints
    requires Configured(d)
  {
    Endpoints(d.low.value, d.high.value)
  }

  /** Whether evaluation inserts the levelling gray: both stored endpoints
      are saturated. */
  predicate GrayInserted(d: Diverging)
    requires Configured(d)
  {
    Saturated(d.low.value) && Saturated(d.high.value)
  }

  /** The evaluation of `value` is defined: both endpoints are set, the
      division on the side of the midpoint `value` falls is by a nonzero
      width, and the hue spin's divisor is nonzero where it is needed. */
  predicate Evaluable(d: Diverging, value: real, mt: Math)
  {
    && Configured(d)
    && (value < d.midPoint ==> d.midPoint != d.min)
    && (d.midPoint <= value ==> d.max != d.midPoint)
    && HuesDefined(LevelSaturation(Stored(d), value, d.midPoint), mt)
  }

  /** The endpoints the evaluation of `value` interpolates between: the
      local copies after levelling and hue correction. */
  function Adjusted(d: Diverging, value: real, mt: Math): Endpoints
    requires Evaluable(d, value, mt)
  {
    AdjustHues(LevelSaturation(Stored(d), value, d.midPoint), mt)
  }

  /** The MSH colour `value` maps to, before the conversion to RGB. */
  function ColormapMsh(d: Diverging, value: real, mt: Math): (o: MSH)
    requires Evaluable(d, value, mt)
    ensures Min(d.low.value.m, d.high.value.m) <= o.m <= GrayMagnitude(Stored(d))
    ensures Min(0.0, Min(d.low.value.s, d.high.value.s)) <= o.s <= Max(d.low.value.s, d.high.value.s)
  {
    var e := Adjusted(d, value, mt);
    var t := Normalize(value, d.min, d.midPoint, d.max);
    Lerp(e.low, e.high, t)
  }

  /** `Diverging::colormap`: the RGB colour `value` maps to. */
  function Colormap(d: Diverging, value: real, mt: Math): (rgb: RGB)
    requires Evaluable(d, value, mt)
    ensures MaxChannel(rgb) <= 1.0
  {
    MshToRgb(ColormapMsh(d, value, mt), mt)
  }

  /** A value at or below `min` gives exactly the adjusted low endpoint,
      and a value at or above `max` exactly the adjusted high endpoint. */
  lemma ColormapAtEnds(d: Diverging, value: real, mt: Math)
    requires Evaluable(d, value, mt)
    requires d.min < d.midPoint < d.max
    ensures value <= d.min ==> ColormapMsh(d, value, mt) == Adjusted(d, value, mt).low
    ensures d.max <= value ==> ColormapMsh(d, value, mt) == Adjusted(d, value, mt).high
  {
  }

  /** The midpoint itself falls in the upper half and gets blend factor 0,
      so it maps to the adjusted low endpoint. */
  lemma ColormapAtMidpoint(d: Diverging, mt: Math)
    requires Evaluable(d, d.midPoint, mt)
    ensures ColormapMsh(d, d.midPoint, mt) == Adjusted(d, d.midPoint, mt).low
  {
  }

  /** With both endpoints saturated, the endpoint across the midpoint
      from `value` becomes the levelling gray and then takes the hue spun
      from the endpoint that was kept; the kept endpoint is untouched. */
  lemma SaturatedPairLevelled(d: Diverging, value: real, mt: Math)
    requires Evaluable(d, value, mt)
    requires GrayInserted(d)
    ensures var mMid := GrayMagnitude(Stored(d));
            var e := Adjusted(d, value, mt);
            if value < d.midPoint then
              SpinDefined(d.low.value, mMid, mt) &&
              e == Endpoints(d.low.value, MSH(mMid, 0.0, AdjustHue(d.low.value, mMid, mt)))
            else
              SpinDefined(d.high.value, mMid, mt) &&
              e == Endpoints(MSH(mMid, 0.0, AdjustHue(d.high.value, mMid, mt)), d.high.value)
  {
    var lv := LevelSaturation(Stored(d), value, d.midPoint);
    if value < d.midPoint {
      assert Unsaturated(lv.high) && Saturated(lv.low);
    } else {
      assert Unsaturated(lv.low) && Saturated(lv.high);
    }
  }

  /** With both endpoints saturated, the midpoint maps to a gray of the
      levelling magnitude whose hue is spun from the high endpoint. */
  lemma SaturatedPairMeetsAtGray(d: Diverging, mt: Math)
    requires Evaluable(d, d.midPoint, mt)
    requires GrayInserted(d)
    ensures var mMid := GrayMagnitude(Stored(d));
            SpinDefined(d.high.value, mMid, mt) &&
            ColormapMsh(d, d.midPoint, mt) == MSH(mMid, 0.0, AdjustHue(d.high.value, mMid, mt))
  {
    SaturatedPairLevelled(d, d.midPoint, mt);
  }

  /** With neither endpoint saturated, nothing is levelled or spun: the
      ends of the range reproduce the stored endpoints exactly. */
  lemma NeitherSaturatedEndpointsReproduced(d: Diverging, value: real, mt: Math)
    requires Evaluable(d, value, mt)
    requires d.min < d.midPoint < d.max
    requires !Saturated(d.low.value) && !Saturated(d.high.value)
    ensures Adjusted(d, value, mt) == Stored(d)
    ensures value <= d.min ==> ColormapMsh(d, value, mt) == d.low.value
    ensures d.max <= value ==> ColormapMsh(d, value, mt) == d.high.value
  {
    ColormapAtEnds(d, value, mt);
  }

  /** Equal endpoints that are not saturated give the same colour for every value. */
  lemma SameUnlevelledColourIsConstant(d: Diverging, value: real, mt: Math)
    requires Evaluable(d, value, mt)
    requires d.low == d.high && !Saturated(d.low.value)
    ensures ColormapMsh(d, value, mt) == d.low.value
  {
  }

  /** Equal endpoints that are saturated do not give a constant colormap:
      levelling turns the midpoint gray. */
  lemma SameSaturatedColourTurnsGray(d: Diverging, mt: Math)
    requires Evaluable(d, d.midPoint, mt)
    requires d.low == d.high && Saturated(d.low.value)
    ensures ColormapMsh(d, d.midPoint, mt).s == 0.0
    ensures ColormapMsh(d, d.midPoint, mt) != d.low.value
  {
    SaturatedPairMeetsAtGray(d, mt);
  }

  /** Without the levelling gray, the local endpoints do not depend on the
      value being evaluated. */
  lemma AdjustedIndependentOfValue(d: Diverging, v: real, w: real, mt: Math)
    requires Evaluable(d, v, mt) && Evaluable(d, w, mt)
    requires !GrayInserted(d)
    ensures Adjusted(d, v, mt) == Adjusted(d, w, mt)
  {
  }

  /** As written, the blend factor falls from nearly 1 to 0 at the midpoint:
      just below it, the factor is 1 minus the distance to the midpoint
      relative to the lower half. */
  lemma NormalizeJumpsAtMidpoint(v: real, min: real, midPoint: real, max: real)
    requires min <= v < midPoint < max
    ensures Normalize(midPoint, min, midPoint, max) == 0.0
    ensures Normalize(v, min, midPoint, max) == 1.0 - (midPoint - v) / (midPoint - min)
  {
    var w := midPoint - min;
    DivNonNegative(v - min, w);
    DivBelowOne(v - min, w);
    assert (v - min) / w == 1.0 - (midPoint - v) / w by {
      assert (v - min) / w + (midPoint - v) / w == w / w;
      assert w / w == 1.0;
    }
  }

  /** As written, an endpoint pair that is not levelled is traversed twice,
      once in each half: just below the midpoint the colour is almost the
      adjusted high endpoint, at the midpoint it is the adjusted low one. */
  lemma UnlevelledPairJumpsAtMidpoint(d: Diverging, v: real, mt: Math)
    requires Evaluable(d, v, mt) && Evaluable(d, d.midPoint, mt)
    requires !GrayInserted(d)
    requires d.min <= v < d.midPoint < d.max
    ensures var e := Adjusted(d, d.midPoint, mt);
            var t := Normalize(v, d.min, d.midPoint, d.max);
            && ColormapMsh(d, d.midPoint, mt) == e.low
            && t == 1.0 - (d.midPoint - v) / (d.midPoint - d.min)
            && ColormapMsh(d, v, mt) == Lerp(e.low, e.high, t)
  {
    var e := Adjusted(d, d.midPoint, mt);
    AdjustedIndependentOfValue(d, v, d.midPoint, mt);
    NormalizeJumpsAtMidpoint(v, d.min, d.midPoint, d.max);
    ColormapMshBlends(d, v, mt);
    ColormapMshBlends(d, d.midPoint, mt);
  }

  /** The colour is the blend of the adjusted endpoints by the blend factor. */
  lemma ColormapMshBlends(d: Diverging, value: real, mt: Math)
    requires Evaluable(d, value, mt)
    ensures var e := Adjusted(d, value, mt);
            ColormapMsh(d, value, mt) == Lerp(e.low, e.high, Normalize(value, d.min, d.midPoint, d.max))
  {
  }

  /** A concrete pair showing the jump: from black to a gray of magnitude
      100 on [0, 1] with midpoint 0.5, the value 0.49 maps to magnitude 98
      but the midpoint maps to magnitude 0. */
  lemma UnlevelledPairJumpExample(mt: Math)
    ensures var d := Diverging(Some(MSH(0.0, 0.0, 0.0)), Some(MSH(100.0, 0.0, 0.0)), 0.0, 1.0, 0.5);
            && Evaluable(d, 0.49, mt) && Evaluable(d, 0.5, mt)
            && ColormapMsh(d, 0.49, mt).m == 98.0
            && ColormapMsh(d, 0.5, mt).m == 0.0
  {
    var d := Diverging(Some(MSH(0.0, 0.0, 0.0)), Some(MSH(100.0, 0.0, 0.0)), 0.0, 1.0, 0.5);
    assert Adjusted(d, 0.49, mt) == Stored(d);
    assert Normalize(0.49, 0.0, 0.5, 1.0) == 0.98;
  }

  /** With both endpoints saturated the colour is continuous at the
      midpoint: the colour the lower half tends to (its blend factor 1
      endpoint) and the midpoint's colour are grays of the same magnitude
      with saturation 0, so they are the same CIELAB colour given exact
      sin 0 and cos 0, whatever their hues. */
  lemma SaturatedPairContinuousAtMidpoint(d: Diverging, v: real, mt: Math)
    requires Evaluable(d, v, mt) && Evaluable(d, d.midPoint, mt)
    requires GrayInserted(d)
    requires v < d.midPoint
    requires ExactAtZero(mt)
    ensures var below := Adjusted(d, v, mt).high;
            var at := ColormapMsh(d, d.midPoint, mt);
            && below.m == at.m == GrayMagnitude(Stored(d))
            && below.s == at.s == 0.0
            && MshToLab(below, mt) == MshToLab(at, mt)
            && MshToRgb(below, mt) == MshToRgb(at, mt)
  {
    SaturatedPairLevelled(d, v, mt);
    SaturatedPairMeetsAtGray(d, mt);
  }

  /** The blend factor as evidently intended: the range is split at the
      midpoint into two one-sided normalisations only when the levelling
      gray is inserted. Otherwise each half covers half of the colour path,
      so the midpoint maps to the middle of the path. */
  function CorrectedBlend(value: real, min: real, midPoint: real, max: real, grayInserted: bool): (t: real)
    requires value < midPoint ==> midPoint != min
    requires midPoint <= value ==> max != midPoint
    ensures 0.0 <= t <= 1.0
    ensures grayInserted ==> t == Normalize(value, min, midPoint, max)
    ensures !grayInserted && value == midPoint ==> t == 0.5
  {
    if grayInserted then Normalize(value, min, midPoint, max)
    else
      var u := if value < midPoint then 0.5 * ((value - min) / (midPoint - min))
               else (ZeroQuotient(value - midPoint, max - midPoint);
                     0.5 + 0.5 * ((value - midPoint) / (max - midPoint)));
      Max(0.0, Min(1.0, u))
  }

  /** Without the gray, the corrected blend factor is continuous at the
      midpoint: on either side, its distance from the midpoint's factor
      0.5 is proportional to the distance from the midpoint. */
  lemma CorrectedBlendContinuous(v: real, min: real, midPoint: real, max: real)
    requires min < midPoint < max
    requires min <= v <= max
    ensures v < midPoint ==>
              CorrectedBlend(midPoint, min, midPoint, max, false) - CorrectedBlend(v, min, midPoint, max, false)
              == (midPoint - v) / (2.0 * (midPoint - min))
    ensures midPoint <= v ==>
              CorrectedBlend(v, min, midPoint, max, false) - CorrectedBlend(midPoint, min, midPoint, max, false)
              == (v - midPoint) / (2.0 * (max - midPoint))
  {
    if v < midPoint {
      HalfStepBelow(v, min, midPoint);
    } else {
      HalfStepAbove(v, midPoint, max);
    }
  }

  /** Half of the one-sided position of v below the midpoint falls short of
      one half by half the relative distance to the midpoint. */
  lemma HalfStepBelow(v: real, min: real, midPoint: real)
    requires min <= v < midPoint
    ensures 0.0 <= (v - min) / (midPoint - min) <= 1.0
    ensures 0.5 - 0.5 * ((v - min) / (midPoint - min)) == (midPoint - v) / (2.0 * (midPoint - min))
  {
    var w := midPoint - min;
    DivNonNegative(v - min, w);
    DivBelowOne(v - min, w);
    assert (v - min) / w + (midPoint - v) / w == w / w;
    assert w / w == 1.0;
    assert (midPoint - v) / (2.0 * w) == 0.5 * ((midPoint - v) / w);
  }

  /** Half of the one-sided position of v above the midpoint is half the
      relative distance from the midpoint. */
  lemma HalfStepAbove(v: real, midPoint: real, max: real)
    requires midPoint <= v <= max && midPoint < max
    ensures 0.0 <= (v - midPoint) / (max - midPoint) <= 1.0
    ensures 0.5 * ((v - midPoint) / (max - midPoint)) == (v - midPoint) / (2.0 * (max - midPoint))
  {
    var w := max - midPoint;
    DivNonNegative(v - midPoint, w);
    DivAtMostOne(v - midPoint, w);
  }

  /** With the midpoint halfway, the corrected blend factor is the plain
      position of the value in [min, max]. */
  lemma CorrectedBlendOverWholeRange(v: real, min: real, max: real)
    requires min < max
    requires min <= v <= max
    ensures CorrectedBlend(v, min, (min + max) / 2.0, max, false) == (v - min) / (max - min)
  {
    var mid := (min + max) / 2.0;
    var r := max - min;
    assert mid - min == r / 2.0 && max - mid == r / 2.0;
    DivNonNegative(v - min, r);
    DivAtMostOne(v - min, r);
    if v < mid {
      DivByHalf(v - min, r);
    } else {
      DivByHalf(v - mid, r);
      DivSum(v - mid, mid - min, r);
      HalfOver(r);
    }
  }

  /** The MSH colour `value` maps to with the corrected blend factor. */
  function ColormapMshCorrected(d: Diverging, value: real, mt: Math): (o: MSH)
    requires Evaluable(d, value, mt)
    ensures GrayInserted(d) ==> o == ColormapMsh(d, value, mt)
    ensures Min(d.low.value.m, d.high.value.m) <= o.m <= GrayMagnitude(Stored(d))
  {
    var e := Adjusted(d, value, mt);
    Lerp(e.low, e.high, CorrectedBlend(value, d.min, d.midPoint, d.max, GrayInserted(d)))
  }

  /** The RGB colour `value` maps to with the corrected blend factor. */
  function ColormapCorrected(d: Diverging, value: real, mt: Math): (rgb: RGB)
    requires Evaluable(d, value, mt)
    ensures MaxChannel(rgb) <= 1.0
    ensures GrayInserted(d) ==> rgb == Colormap(d, value, mt)
  {
    MshToRgb(ColormapMshCorrected(d, value, mt), mt)
  }

  /** Without the gray, the corrected colormap is continuous at the
      midpoint: each MSH component differs from the midpoint's by the
      endpoints' difference times a factor proportional to the distance
      from the midpoint. */
  lemma CorrectedColormapContinuousAtMidpoint(d: Diverging, v: real, mt: Math)
    requires Evaluable(d, v, mt) && Evaluable(d, d.midPoint, mt)
    requires !GrayInserted(d)
    requires d.min <= v < d.midPoint < d.max
    ensures var e := Adjusted(d, d.midPoint, mt);
            var k := (d.midPoint - v) / (2.0 * (d.midPoint - d.min));
            StepAlong(ColormapMshCorrected(d, v, mt), ColormapMshCorrected(d, d.midPoint, mt), e.low, e.high, k)
  {
    var e := Adjusted(d, d.midPoint, mt);
    AdjustedIndependentOfValue(d, v, d.midPoint, mt);
    CorrectedBlendContinuous(v, d.min, d.midPoint, d.max);
    var ta := CorrectedBlend(d.midPoint, d.min, d.midPoint, d.max, false);
    var tb := CorrectedBlend(v, d.min, d.midPoint, d.max, false);
    CorrectedBlends(d, d.midPoint, mt);
    CorrectedBlends(d, v, mt);
    LerpDifference(e.low, e.high, ta, tb, ta - tb);
  }

  /** `to` is `from` moved by `k` times the step from `lo` to `hi`, in
      each MSH component. */
  predicate StepAlong(from: MSH, to: MSH, lo: MSH, hi: MSH, k: real)
  {
    && to.m - from.m == k * (hi.m - lo.m)
    && to.s - from.s == k * (hi.s - lo.s)
    && to.h - from.h == k * (hi.h - lo.h)
  }

  /** Two blends of the same pair differ, component by component, by the
      difference of their factors times the difference of the ends. */
  lemma LerpDifference(lo: MSH, hi: MSH, ta: real, tb: real, k: real)
    requires 0.0 <= ta <= 1.0 && 0.0 <= tb <= 1.0
    requires ta - tb == k
    ensures StepAlong(Lerp(lo, hi, tb), Lerp(lo, hi, ta), lo, hi, k)
  {
    MixDifference(lo.m, hi.m, ta, tb);
    MixDifference(lo.s, hi.s, ta, tb);
    MixDifference(lo.h, hi.h, ta, tb);
  }

  /** The corrected colour is the blend of the adjusted endpoints by the
      corrected blend factor. */
  lemma CorrectedBlends(d: Diverging, value: real, mt: Math)
    requires Evaluable(d, value, mt)
    ensures var e := Adjusted(d, value, mt);
            var t := CorrectedBlend(value, d.min, d.midPoint, d.max, GrayInserted(d));
            ColormapMshCorrected(d, value, mt) == Lerp(e.low, e.high, t)
  {
  }

  /** Two blends of the same pair differ by the difference of their factors
      times the difference of the ends. */
  lemma MixDifference(u: real, v: real, ta: real, tb: real)
    requires 0.0 <= ta <= 1.0 && 0.0 <= tb <= 1.0
    ensures Mix(u, v, ta) - Mix(u, v, tb) == (ta - tb) * (v - u)
  {
  }
}

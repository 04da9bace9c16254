/** The hue correction applied when a saturated colour is blended towards
    an unsaturated one: the unsaturated end takes a hue spun away from the
    saturated end's hue, so that the blend does not drift visibly in hue. */
module Hue {
  import opened Transcendental
  import opened Colors

  /** Hues above this angle (-60 degrees) are spun forwards, the others backwards. */
  const SpinPivot: real := -Pi / 3.0

  /** The spin divisor `m * sin(s)` is nonzero whenever the spin is needed,
      that is whenever the saturated colour is darker than the target. */
  predicate SpinDefined(msh: MSH, unsaturatedM: real, mt: Math)
  {
    msh.m >= unsaturatedM || msh.m * mt.sin(msh.s) != 0.0
  }

  /** The amount of hue spin, s * sqrt(M^2 - m^2) / (m * sin s). */
  function Spin(msh: MSH, unsaturatedM: real, mt: Math): real
    requires msh.m * mt.sin(msh.s) != 0.0
  {
    msh.s * mt.sqrt(unsaturatedM * unsaturatedM - msh.m * msh.m) / (msh.m * mt.sin(msh.s))
  }

  /** The hue to give an unsaturated colour of magnitude `unsaturatedM`
      that is blended towards the saturated colour `msh`. */
  function AdjustHue(msh: MSH, unsaturatedM: real, mt: Math): (h: real)
    requires SpinDefined(msh, unsaturatedM, mt)
    ensures msh.m >= unsaturatedM ==> h == msh.h
    ensures msh.m < unsaturatedM && msh.h > SpinPivot ==> h - msh.h == Spin(msh, unsaturatedM, mt)
    ensures msh.m < unsaturatedM && msh.h <= SpinPivot ==> msh.h - h == Spin(msh, unsaturatedM, mt)
  {
    if msh.m >= unsaturatedM then msh.h
    else
      var spin := Spin(msh, unsaturatedM, mt);
      if msh.h > SpinPivot then msh.h + spin else msh.h - spin
  }

  /** The hue is left alone exactly when the saturated colour is at least
      as bright as the target or the spin happens to be zero. */
  lemma AdjustHueUnchangedIff(msh: MSH, unsaturatedM: real, mt: Math)
    requires SpinDefined(msh, unsaturatedM, mt)
    ensures AdjustHue(msh, unsaturatedM, mt) == msh.h <==>
              msh.m >= unsaturatedM || Spin(msh, unsaturatedM, mt) == 0.0
  {
  }

  /** For a genuinely saturated colour (positive magnitude, angle and sine)
      darker than the target, the spin is positive, so the hue always moves,
      and it moves forwards exactly when the hue lies above -60 degrees. */
  lemma AdjustHueDirection(msh: MSH, unsaturatedM: real, mt: Math)
    requires SqrtIsRoot(mt)
    requires 0.0 < msh.m < unsaturatedM
    requires 0.0 < msh.s && 0.0 < mt.sin(msh.s)
    ensures msh.m * mt.sin(msh.s) != 0.0 && Spin(msh, unsaturatedM, mt) > 0.0
    ensures AdjustHue(msh, unsaturatedM, mt) > msh.h <==> msh.h > SpinPivot
    ensures AdjustHue(msh, unsaturatedM, mt) != msh.h
  {
  }
}

# Diverging colormaps in MSH space, modelled in Dafny

This project models `libcolormap/colormap.h`, a small C++ header that
implements Moreland's "Diverging Color Maps for Scientific Visualization".
It converts colours between gamma-encoded sRGB, CIE XYZ, CIE L\*a\*b\*
(CIELAB) and MSH (the polar form of CIELAB: magnitude, saturation angle,
hue angle). Its `Diverging` evaluator maps a data value to a colour in four
steps: it levels the saturation of the two endpoint colours, corrects the hue
of an unsaturated endpoint, normalises the value on its side of the midpoint,
and interpolates linearly in MSH.

Everything is modelled over Dafny `real`. The C maths functions (`pow`,
`sqrt`, `acos`, `atan2`, `sin`, `cos`) are not defined. Every conversion
takes a `Transcendental.Math` record that holds them as function values, so
each property below holds whatever those functions compute. A few lemmas need
an exact identity of the real functions, and they ask for it by name:
`ExactAtZero` (sin 0 = 0, cos 0 = 1, acos 1 = 0), `SqrtIsRoot` (sqrt is the
non-negative root) or `PowCubes` (`pow(y, 3.0)` is y³).

Files and modules:

- `math.dfy` (`Transcendental`): the `Math` record, `Pi`, the identity
  predicates and small real-arithmetic lemmas.
- `colors.dfy` (`Colors`): the four colour types, the D65 reference white,
  and `std::max`/`std::min`.
- `transfer.dfy` (`Transfer`): the sRGB transfer function and the CIELAB
  companding function, each with its power branch and linear branch.
- `conversions.dfy` (`Conversions`): the conversion graph and the two
  composite conversions.
- `hue.dfy` (`Hue`): `adjustHue`.
- `diverging.dfy` (`DivergingColormap`): the evaluator's state, its
  constructor and setters, and `colormap` split into its steps.

The evaluator is a value. The constructor and the setters return an updated
`Diverging`, and `Colormap` returns only an RGB colour. An endpoint is
`None` until its setter has run, because the source leaves it uninitialised.
`Colormap` requires `Evaluable`. That predicate says three things: both
endpoints are set; the width it divides by on the value's side of the
midpoint is nonzero; and the hue-spin divisor `m·sin(s)` is nonzero wherever
the spin is taken.

Four behaviours of the code worth knowing, each of which the model keeps:

- Hue correction needs an endpoint with `s < 0.05`, strictly
  (`colormap.h:368`). An endpoint with `s` exactly 0.05 is neither corrected
  nor used to correct the other.
- `XYZ::toRGB` does not floor channels at 0, because the `std::max(0.0, ·)`
  results are thrown away (`colormap.h:117-119`). Negative channels
  therefore survive.
- Equal endpoints do not always give a constant colormap
  (`colormap.h:350-365`). When they are saturated, levelling turns the
  midpoint gray (`SameSaturatedColourTurnsGray`). The colormap is constant
  only for equal endpoints that are not saturated (s ≤ 0.05).
- The blend factor rises strictly only inside each half of the range
  (`colormap.h:373-376`). The midpoint itself falls in the upper half, so its
  factor is 0 (`ColormapAtMidpoint`), while just below the midpoint it is
  nearly 1 (`NormalizeJumpsAtMidpoint`). With two saturated endpoints the
  colour (not the blend factor) is still continuous there, given exact sin 0
  and cos 0: both halves meet at grays of the same magnitude with saturation
  0, even though their MSH hues differ (`SaturatedPairContinuousAtMidpoint`).
  With any other pair whose adjusted endpoints differ, the colour jumps back
  at the midpoint; see "Findings". Equal endpoints with s ≤ 0.05 give a
  constant colour and so no jump (`SameUnlevelledColourIsConstant`).

The branch thresholds do not line up exactly:

- sRGB: the encoder's linear segment ends at 0.0031308 and the decoder's at
  0.04045 = 12.92 × 0.0031308049…. The narrow window (0.040449936, 0.04045]
  is decoded linearly but re-encoded through `pow` (`SrgbThresholdGap`).
- CIELAB: the linear branch ends at f = 7.787 × 0.008856 + 16/116 ≈ 0.2068927,
  but the inverse function's cube test lets f up to ∛0.008856 ≈ 0.2068930
  through linearly (`LabThresholdGap`).

Neither gap is a defect of this library. Both constants come from the
published standards.

## Model

| member | source | states |
|---|---|---|
| Transfer.SrgbEncode | libcolormap/colormap.h:94-107 | on the linear segment (c ≤ 0.0031308) the encoded value stays on the decoder's linear segment (≤ 0.04045) and keeps its sign; above it, the result is the power branch |
| Transfer.SrgbDecode | libcolormap/colormap.h:171-184 | on the linear segment (c ≤ 0.04045) the linear value is at most 0.04045/12.92 and keeps its sign; above it, the result is the power branch |
| Transfer.SrgbLinearRoundTrip | libcolormap/colormap.h:94-107 | decoding undoes encoding exactly for every c ≤ 0.0031308, whatever `pow` is |
| Transfer.SrgbEncodedRoundTrip | libcolormap/colormap.h:171-184 | encoding undoes decoding exactly for every encoded c ≤ 12.92 × 0.0031308 |
| Transfer.SrgbThresholdGap | libcolormap/colormap.h:171-174 | the encoded value 0.04045 is decoded linearly to a value above 0.0031308, so re-encoding takes the power branch |
| Transfer.LabF | libcolormap/colormap.h:131-144 | the linear branch (t ≤ 0.008856) yields at most the knee 7.787·0.008856 + 16/116; above the threshold the result is `pow(t, 1/3)` |
| Transfer.LabFInv | libcolormap/colormap.h:216-229 | the branch is chosen on `pow(f, 3)`; the cube branch returns a value above 0.008856, and the linear branch returns the t that the forward linear branch maps to f |
| Transfer.LabLinearRoundTrip | libcolormap/colormap.h:131-144 | if `pow(·,3)` cubes, the inverse undoes f exactly on f's linear segment, because its cube test picks the linear branch too |
| Transfer.LabKneeRoundTrip | libcolormap/colormap.h:216-229 | if `pow(·,3)` cubes, f undoes the inverse exactly for every f up to the knee |
| Transfer.LabThresholdGap | libcolormap/colormap.h:216-219 | f = 0.2068928 lies above the knee, yet the inverse treats it linearly and lands above 0.008856, so f itself then takes the power branch |
| Colors.MaxChannel | libcolormap/colormap.h:110 | the result is at least every channel and equal to one of them |
| Conversions.Rescale | libcolormap/colormap.h:109-121 | no output channel exceeds 1; the largest is exactly 1 when the input's largest exceeded 1; otherwise the input passes through unchanged; every channel is divided by the same factor max(1, M); negative channels stay negative (the floors have no effect) |
| Conversions.RescaleIdempotent | libcolormap/colormap.h:109-121 | rescaling an already rescaled colour changes nothing |
| Conversions.XyzToRgb | libcolormap/colormap.h:86-122 | no output channel exceeds 1; when every linear channel is at most 0.0031308, the output is 12.92 × the matrix product, with no rescale |
| Conversions.RgbToXyz | libcolormap/colormap.h:163-193 | on the decoder's linear segment, luminance Y is the sRGB luminance weighting of the channels divided by 12.92; black maps to XYZ zero |
| Conversions.XyzToLab | libcolormap/colormap.h:124-152 | a colour on the neutral axis (x/Xr = y/Yr = z/Zr) gets a = b = 0; dark colours (y/Yr ≤ 0.008856) get L = 903.292·y/Yr |
| Conversions.LabToXyz | libcolormap/colormap.h:209-236 | a colour with a = b = 0 lands on the neutral axis x/Xr = y/Yr = z/Zr |
| Conversions.XyzLabLinearRoundTrip | libcolormap/colormap.h:124-152 | if `pow(·,3)` cubes, XYZ → CIELAB → XYZ is the identity on colours whose normalised components all lie on the linear segment |
| Conversions.LabXyzLinearRoundTrip | libcolormap/colormap.h:209-236 | if `pow(·,3)` cubes, CIELAB → XYZ → CIELAB is the identity when all three intermediate f values lie below the knee |
| Conversions.LabToMsh | libcolormap/colormap.h:238-249 | m is sqrt(l²+a²+b²); m ≤ 0.001 forces s = 0 and h = 0; s ≤ 0.001 forces h = 0; beyond the guards, s = acos(l/m) and h = atan2(b, a) |
| Conversions.MshToLab | libcolormap/colormap.h:261-270 | zero magnitude gives CIELAB zero; with exact sin 0 and cos 0, a colour with s = 0 gives (m, 0, 0); (a, b) always points along the hue, a·sin h = b·cos h |
| Conversions.AchromaticLabRoundTrip | libcolormap/colormap.h:238-249 | with exact identities, a gray (l, 0, 0) with l ≥ 0 becomes MSH (l, 0, 0) and converts back to itself |
| Conversions.AchromaticMshRoundTrip | libcolormap/colormap.h:261-270 | with exact identities, a gray MSH (m, 0, h) with m ≥ 0 comes back from CIELAB as (m, 0, 0), dropping the hue |
| Conversions.RgbToMsh | libcolormap/colormap.h:195-198 | the composite keeps the near-zero guards: m ≤ 0.001 gives s = h = 0, and s ≤ 0.001 gives h = 0 |
| Conversions.MshToRgb | libcolormap/colormap.h:272-275 | the composite never yields a channel above 1 |
| Conversions.BlackRoundTrip | libcolormap/colormap.h:195-198 | with exact roots and cubes, black maps to the MSH origin, and every MSH colour of zero magnitude maps back to black |
| Hue.AdjustHue | libcolormap/colormap.h:285-299 | the hue is returned unchanged when m ≥ the target magnitude; otherwise it moves by exactly the spin, forwards when h > −π/3 and backwards when it is not |
| Hue.AdjustHueUnchangedIff | libcolormap/colormap.h:288-298 | the hue is unchanged exactly when m ≥ the target magnitude or the spin is zero |
| Hue.AdjustHueDirection | libcolormap/colormap.h:292-297 | for 0 < m < target, s > 0 and sin s > 0, the spin is positive and the hue always changes; it increases exactly when h > −π/3 |
| DivergingColormap.New | libcolormap/colormap.h:312-315 | stores min and max, leaves both endpoints unset, and puts the midpoint equidistant from min and max (inside [min, max] when min ≤ max) |
| DivergingColormap.SetLow | libcolormap/colormap.h:318-323 | the low endpoint becomes the MSH form of the given RGB; every other field is unchanged |
| DivergingColormap.SetHigh | libcolormap/colormap.h:326-331 | the high endpoint becomes the MSH form of the given RGB; every other field is unchanged |
| DivergingColormap.SetMidpoint | libcolormap/colormap.h:334-338 | only the midpoint changes |
| DivergingColormap.SettersCommute | libcolormap/colormap.h:318-338 | the setters commute with one another, and setting both endpoints configures the evaluator |
| DivergingColormap.GrayMagnitude | libcolormap/colormap.h:352 | the gray magnitude is at least 88 and at least both endpoint magnitudes, and equals one of the three |
| DivergingColormap.LevelSaturation | libcolormap/colormap.h:350-365 | at most one endpoint changes; nothing changes unless both saturations exceed 0.05; otherwise a value below the midpoint turns high into the gray (mMid, 0, 0) and keeps low, and any other value does the reverse |
| DivergingColormap.AdjustHues | libcolormap/colormap.h:367-371 | only hues change, and at most one of them; the low hue changes only if low.s < 0.05 < high.s, and then it becomes `AdjustHue(high, low.m)`; the high hue behaves symmetrically; an endpoint with s exactly 0.05 leaves both unchanged |
| DivergingColormap.Normalize | libcolormap/colormap.h:373-378 | the blend factor lies in [0, 1]; given min < midpoint < max, it is 0 at or below min and 1 at or above max; it is 0 at the midpoint |
| DivergingColormap.NormalizeStrictlyMonotone | libcolormap/colormap.h:373-376 | inside [min, midpoint) and inside [midpoint, max], a larger value gets a strictly larger blend factor |
| DivergingColormap.Mix | libcolormap/colormap.h:382-384 | an interpolated component lies between the two endpoint components; it is the first at t = 0 and the second at t = 1 |
| DivergingColormap.Lerp | libcolormap/colormap.h:380-384 | each of m, s and h lies between the endpoints' components; t = 0 gives exactly the low endpoint, t = 1 exactly the high one, and equal endpoints give that endpoint |
| DivergingColormap.ColormapMsh | libcolormap/colormap.h:344-384 | the interpolated magnitude lies between the smaller stored magnitude and the gray magnitude; the saturation never exceeds the larger stored saturation |
| DivergingColormap.Colormap | libcolormap/colormap.h:344-387 | no output channel exceeds 1 |
| DivergingColormap.ColormapAtEnds | libcolormap/colormap.h:373-384 | given min < midpoint < max, a value at or below min gives exactly the adjusted low endpoint, and a value at or above max exactly the adjusted high one |
| DivergingColormap.ColormapAtMidpoint | libcolormap/colormap.h:373-384 | the midpoint maps to the adjusted low endpoint |
| DivergingColormap.SaturatedPairLevelled | libcolormap/colormap.h:350-371 | with both endpoints saturated and a value below the midpoint, low is kept and high becomes (mMid, 0, AdjustHue(low, mMid)); at or above the midpoint, the mirror image holds |
| DivergingColormap.SaturatedPairMeetsAtGray | libcolormap/colormap.h:350-384 | with both endpoints saturated, the midpoint maps to the gray (mMid, 0, AdjustHue(high, mMid)) |
| DivergingColormap.NeitherSaturatedEndpointsReproduced | libcolormap/colormap.h:347-384 | if neither endpoint is saturated, nothing is levelled or spun, and min and max reproduce the stored endpoints exactly |
| DivergingColormap.SameUnlevelledColourIsConstant | libcolormap/colormap.h:347-384 | equal endpoints that are not saturated (s ≤ 0.05) give that same colour for every value |
| DivergingColormap.SameSaturatedColourTurnsGray | libcolormap/colormap.h:350-384 | equal saturated endpoints do not give a constant colormap: the midpoint has saturation 0 |
| DivergingColormap.AdjustedIndependentOfValue | libcolormap/colormap.h:350-371 | when the gray is not inserted, the adjusted endpoints are the same for every value |
| DivergingColormap.NormalizeJumpsAtMidpoint | libcolormap/colormap.h:373-376 | for min ≤ v < midpoint < max, the midpoint's blend factor is 0 while v's is 1 − (midpoint − v)/(midpoint − min), which tends to 1 as v approaches the midpoint |
| DivergingColormap.UnlevelledPairJumpsAtMidpoint | libcolormap/colormap.h:347-384 | as written, without the gray the midpoint maps to the adjusted low endpoint, while a value just below it maps to the blend with factor 1 − (midpoint − v)/(midpoint − min), almost the adjusted high endpoint |
| DivergingColormap.UnlevelledPairJumpExample | libcolormap/colormap.h:373-384 | as written, black to the gray of magnitude 100 on [0, 1] with midpoint 0.5 maps 0.49 to magnitude 98 and 0.5 to magnitude 0 |
| DivergingColormap.SaturatedPairContinuousAtMidpoint | libcolormap/colormap.h:350-384 | with both endpoints saturated, the end of the lower half and the midpoint are grays of the same magnitude mMid with s = 0, and, given exact sin 0 and cos 0, the same CIELAB and RGB colour |
| DivergingColormap.LerpDifference | libcolormap/colormap.h:380-384 | two blends of the same endpoints differ, in each of m, s and h, by the difference of their factors times the endpoints' difference |
| DivergingColormap.CorrectedBlend | libcolormap/colormap.h:373-378 | the corrected blend factor lies in [0, 1]; it is the source's factor when the gray is inserted, and 0.5 at the midpoint when it is not |
| DivergingColormap.CorrectedBlendContinuous | libcolormap/colormap.h:373-378 | without the gray, the corrected factor differs from the midpoint's by (midpoint − v)/(2(midpoint − min)) below it and by (v − midpoint)/(2(max − midpoint)) above it, so it is continuous there |
| DivergingColormap.CorrectedBlendOverWholeRange | libcolormap/colormap.h:373-378 | without the gray and with the midpoint halfway, the corrected factor is the plain position (v − min)/(max − min) |
| DivergingColormap.ColormapMshCorrected | libcolormap/colormap.h:344-384 | the corrected MSH colour equals the source's whenever the gray is inserted, and its magnitude stays between the smaller stored magnitude and the gray magnitude |
| DivergingColormap.ColormapCorrected | libcolormap/colormap.h:344-387 | no output channel exceeds 1, and the colour equals the source's whenever the gray is inserted |
| DivergingColormap.CorrectedColormapContinuousAtMidpoint | libcolormap/colormap.h:373-384 | without the gray, the corrected colour just below the midpoint differs from the midpoint's, in each MSH component, by (midpoint − v)/(2(midpoint − min)) times the endpoints' difference |

## Findings

`Colormap` and `ColormapMsh` model the code as written. `ColormapCorrected`
and `ColormapMshCorrected` model the evidently intended behaviour. In
Moreland's algorithm the value is split into two halves only together with
the inserted gray. The two definitions agree whenever the gray is inserted,
which is the case for every saturated endpoint pair.

| source | as written | input that shows it | evidently intended | confidence | as-written member | corrected member |
|---|---|---|---|---|---|---|
| libcolormap/colormap.h:373-376 | the value is normalised on its side of the midpoint even when no gray is inserted, so the lower half runs the whole path from low to high and the midpoint restarts at low | low MSH (0, 0, 0), high MSH (100, 0, 0), range [0, 1], midpoint 0.5: 0.49 gives magnitude 98, 0.5 gives magnitude 0 | split the range at the midpoint only when the gray is inserted; otherwise each half covers half of the path, so the colour is continuous at the midpoint | medium, not executed | DivergingColormap.UnlevelledPairJumpExample | DivergingColormap.CorrectedColormapContinuousAtMidpoint |

## Left out

- The transcendental functions and their accuracy. `pow`, `sqrt`, `acos`, `atan2`, `sin` and `cos` are parameters. The power branches, the full round trips (RGB → MSH → RGB, and CIELAB ↔ XYZ off the linear segments) and IEEE rounding are not modelled.
- Floating point: NaN, infinities and rounding. A division by zero in the source gives an infinity or NaN; here it is excluded by `Evaluable` and `SpinDefined`. For a zero-width half of the range this excludes more than necessary: the clamp at `colormap.h:378` turns −inf into 0 and +inf or NaN into 1 (`std::min(1.0, NaN)` is 1.0), so the source still returns an endpoint colour. Only a zero spin divisor (`colormap.h:293`) lets NaN reach the result.
- The values of the 3×3 matrices and of the reference white. They appear as real literals, but no property depends on them.
- `colormap` leaving the stored fields untouched. This holds by construction, because the evaluator is an immutable value and `Colormap` returns only an RGB colour.
- Calling `colormap` before `setLow`/`setHigh`. The source reads uninitialised memory; here it is excluded by the precondition `Configured`.
- The `operator<<` overloads and `MSH::print`. They only format to streams.
- `main.cc`, the demonstration driver. It samples 33 values per colormap and prints LaTeX/pgfplots blocks, which is I/O only.

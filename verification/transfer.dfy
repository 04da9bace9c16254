/** The piecewise per-channel nonlinearities of the conversions: the sRGB
    transfer function in both directions and the CIE L*a*b* companding
    function in both directions. Each is a power branch (left to the
    supplied `pow`) and a linear branch, selected by a threshold. */
module Transfer {
  import opened Transcendental

  /** Largest linear value the sRGB encoder treats linearly. */
  const SrgbLinearLimit: real := 0.0031308
  /** Largest encoded value the sRGB decoder treats linearly. */
  const SrgbEncodedLimit: real := 0.04045
  /** Largest normalised tristimulus value the CIELAB function treats linearly. */
  const LabLinearLimit: real := 0.008856
  /** Image of `LabLinearLimit` under the linear CIELAB branch. */
  const LabKnee: real := 7.787 * LabLinearLimit + 16.0 / 116.0

  /** Gamma-encodes one linear sRGB channel. */
  function SrgbEncode(c: real, mt: Math): (e: real)
    ensures c <= SrgbLinearLimit ==> e <= SrgbEncodedLimit && (e < 0.0 <==> c < 0.0)
    ensures c > SrgbLinearLimit ==> e == 1.055 * mt.pow(c, 1.0 / 2.4) - 0.055
  {
    if c > SrgbLinearLimit then 1.055 * mt.pow(c, 1.0 / 2.4) - 0.055
    else c * 12.92
  }

  /** Decodes one gamma-encoded sRGB channel to linear light. */
  function SrgbDecode(c: real, mt: Math): (lin: real)
    ensures c <= SrgbEncodedLimit ==> lin <= SrgbEncodedLimit / 12.92 && (lin < 0.0 <==> c < 0.0)
    ensures c > SrgbEncodedLimit ==> lin == mt.pow((c + 0.055) / 1.055, 2.4)
  {
    if c > SrgbEncodedLimit then mt.pow((c + 0.055) / 1.055, 2.4)
    else c / 12.92
  }

  /** On the encoder's linear segment, decoding undoes encoding exactly,
      whatever `pow` is: the encoded value stays on the decoder's linear
      segment. */
  lemma SrgbLinearRoundTrip(c: real, mt: Math)
    requires c <= SrgbLinearLimit
    ensures SrgbDecode(SrgbEncode(c, mt), mt) == c
  {
    assert SrgbEncode(c, mt) == c * 12.92;
  }

  /** Encoding undoes decoding exactly for encoded values up to
      12.92 * 0.0031308 = 0.040449936. */
  lemma SrgbEncodedRoundTrip(c: real, mt: Math)
    requires c <= 12.92 * SrgbLinearLimit
    ensures SrgbEncode(SrgbDecode(c, mt), mt) == c
  {
    assert SrgbDecode(c, mt) == c / 12.92;
  }

  /** The two sRGB thresholds do not meet: 0.04045 is decoded linearly to
      0.04045 / 12.92 = 0.0031308049..., which lies above the encoder's
      threshold, so re-encoding goes through the power branch. */
  lemma SrgbThresholdGap(mt: Math)
    ensures SrgbEncodedLimit / 12.92 > SrgbLinearLimit
    ensures SrgbEncode(SrgbDecode(SrgbEncodedLimit, mt), mt)
         == 1.055 * mt.pow(SrgbEncodedLimit / 12.92, 1.0 / 2.4) - 0.055
  {
  }

  /** The CIELAB companding function f(t). */
  function LabF(t: real, mt: Math): (f: real)
    ensures t <= LabLinearLimit ==> f <= LabKnee
    ensures t > LabLinearLimit ==> f == mt.pow(t, 1.0 / 3.0)
  {
    if t > LabLinearLimit then mt.pow(t, 1.0 / 3.0)
    else 7.787 * t + 16.0 / 116.0
  }

  /** The inverse companding function, branching on the cube of its argument. */
  function LabFInv(f: real, mt: Math): (t: real)
    ensures mt.pow(f, 3.0) > LabLinearLimit ==> t == mt.pow(f, 3.0) && t > LabLinearLimit
    ensures mt.pow(f, 3.0) <= LabLinearLimit ==> 7.787 * t + 16.0 / 116.0 == f
  {
    if mt.pow(f, 3.0) > LabLinearLimit then mt.pow(f, 3.0)
    else (f - 16.0 / 116.0) / 7.787
  }

  /** The knee lies below the cube root of the threshold. */
  lemma KneeCubeBelowLimit(f: real)
    requires f <= LabKnee
    ensures f * f * f < LabLinearLimit
  {
    CubeMonotone(f, LabKnee);
    assert LabKnee * LabKnee * LabKnee < LabLinearLimit;
  }

  /** On the linear segment of f, the inverse takes its linear branch too
      and recovers the input exactly, given that `pow(y, 3.0)` cubes. */
  lemma {:induction false} LabLinearRoundTrip(t: real, mt: Math)
    requires PowCubes(mt)
    requires t <= LabLinearLimit
    ensures LabFInv(LabF(t, mt), mt) == t
  {
    var f := LabF(t, mt);
    KneeCubeBelowLimit(f);
    assert mt.pow(f, 3.0) == f * f * f;
  }

  /** Below the knee, f undoes its inverse exactly, given that
      `pow(y, 3.0)` cubes. */
  lemma {:induction false} LabKneeRoundTrip(f: real, mt: Math)
    requires PowCubes(mt)
    requires f <= LabKnee
    ensures LabF(LabFInv(f, mt), mt) == f
  {
    KneeCubeBelowLimit(f);
    assert mt.pow(f, 3.0) == f * f * f;
    var t := LabFInv(f, mt);
    assert 7.787 * t + 16.0 / 116.0 == f;
    assert t <= LabLinearLimit;
  }

  /** The two CIELAB branch tests do not meet either: f = 0.2068928 lies
      above the knee, yet its cube is below the threshold, so the inverse
      takes the linear branch and lands above the threshold, where f takes
      the power branch. */
  lemma LabThresholdGap(mt: Math)
    requires PowCubes(mt)
    ensures 0.2068928 > LabKnee
    ensures LabFInv(0.2068928, mt) > LabLinearLimit
    ensures LabF(LabFInv(0.2068928, mt), mt) == mt.pow(LabFInv(0.2068928, mt), 1.0 / 3.0)
  {
    assert mt.pow(0.2068928, 3.0) == 0.2068928 * 0.2068928 * 0.2068928;
  }
}

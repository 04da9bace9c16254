/** The conversion graph RGB <-> XYZ <-> CIELAB <-> MSH and the two
    composite conversions RGB -> MSH and MSH -> RGB, which always route
    through the whole chain. */
module Conversions {
  import opened Transcendental
  import opened Colors
  import opened Transfer

  /** Overflow handling at the end of XYZ -> RGB: when the largest channel
      exceeds 1 every channel is divided by it, which keeps the ratios
      between channels. The three `std::max(0.0, ...)` calls that follow in
      colormap.h discard their results, so negative channels survive. */
  function Rescale(c: RGB): (o: RGB)
    ensures MaxChannel(o) <= 1.0
    ensures MaxChannel(c) > 1.0 ==> MaxChannel(o) == 1.0
    ensures MaxChannel(c) <= 1.0 ==> o == c
    ensures var k := Max(1.0, MaxChannel(c));
            o.r * k == c.r && o.g * k == c.g && o.b * k == c.b
    ensures (o.r < 0.0 <==> c.r < 0.0) && (o.g < 0.0 <==> c.g < 0.0) && (o.b < 0.0 <==> c.b < 0.0)
  {
    var top := MaxChannel(c);
    if top > 1.0 then
      var o := RGB(c.r / top, c.g / top, c.b / top);
      ScaledBelowOne(c.r, top);
      ScaledBelowOne(c.g, top);
      ScaledBelowOne(c.b, top);
      assert MaxChannel(o) == 1.0;
      o
    else c
  }

  lemma ScaledBelowOne(v: real, top: real)
    requires 0.0 < top && v <= top
    ensures v / top <= 1.0
    ensures v == top ==> v / top == 1.0
    ensures v < 0.0 <==> v / top < 0.0
    ensures v / top * top == v
  {
  }

  /** Rescaling twice is rescaling once. */
  lemma RescaleIdempotent(c: RGB)
    ensures Rescale(Rescale(c)) == Rescale(c)
  {
  }

  /** XYZ -> RGB: the inverse sRGB matrix, the sRGB gamma encoding per
      channel, then the overflow rescale. */
  function XyzToRgb(c: XYZ, mt: Math): (o: RGB)
    ensures MaxChannel(o) <= 1.0
    ensures var r := c.x * 3.24063 + c.y * -1.53721 + c.z * -0.498629;
            var g := c.x * -0.968931 + c.y * 1.87576 + c.z * 0.0415175;
            var b := c.x * 0.0557101 + c.y * -0.204021 + c.z * 1.0570;
            r <= SrgbLinearLimit && g <= SrgbLinearLimit && b <= SrgbLinearLimit ==>
              o == RGB(r * 12.92, g * 12.92, b * 12.92)
  {
    var r := c.x * 3.24063 + c.y * -1.53721 + c.z * -0.498629;
    var g := c.x * -0.968931 + c.y * 1.87576 + c.z * 0.0415175;
    var b := c.x * 0.0557101 + c.y * -0.204021 + c.z * 1.0570;
    Rescale(RGB(SrgbEncode(r, mt), SrgbEncode(g, mt), SrgbEncode(b, mt)))
  }

  /** RGB -> XYZ: sRGB decoding per channel, then the sRGB D65 matrix. */
  function RgbToXyz(c: RGB, mt: Math): (o: XYZ)
    ensures c.r <= SrgbEncodedLimit && c.g <= SrgbEncodedLimit && c.b <= SrgbEncodedLimit ==>
              o.y * 12.92 == c.r * 0.2126 + c.g * 0.7152 + c.b * 0.0722
    ensures c == RGB(0.0, 0.0, 0.0) ==> o == XYZ(0.0, 0.0, 0.0)
  {
    var r := SrgbDecode(c.r, mt);
    var g := SrgbDecode(c.g, mt);
    var b := SrgbDecode(c.b, mt);
    XYZ(r * 0.4124 + g * 0.3576 + b * 0.1805,
        r * 0.2126 + g * 0.7152 + b * 0.0722,
        r * 0.0193 + g * 0.1192 + b * 0.9505)
  }

  /** XYZ -> CIELAB relative to the D65 reference white. */
  function XyzToLab(c: XYZ, mt: Math): (o: CIELAB)
    ensures c.x / RefX == c.y / RefY == c.z / RefZ ==> o.a == 0.0 && o.b == 0.0
    ensures c.y / RefY <= LabLinearLimit ==> o.l == 903.292 * (c.y / RefY)
  {
    var fx := LabF(c.x / RefX, mt);
    var fy := LabF(c.y / RefY, mt);
    var fz := LabF(c.z / RefZ, mt);
    CIELAB(116.0 * fy - 16.0, 500.0 * (fx - fy), 200.0 * (fy - fz))
  }

  /** CIELAB -> XYZ, undoing the L, a, b combination and then f. */
  function LabToXyz(c: CIELAB, mt: Math): (o: XYZ)
    ensures c.a == 0.0 && c.b == 0.0 ==> o.x / RefX == o.y / RefY == o.z / RefZ
  {
    var fy := (c.l + 16.0) / 116.0;
    var fx := c.a / 500.0 + fy;
    var fz := fy - c.b / 200.0;
    XYZ(LabFInv(fx, mt) * RefX, LabFInv(fy, mt) * RefY, LabFInv(fz, mt) * RefZ)
  }

  /** Dark colours, whose normalised tristimulus values all lie on the
      linear segment of f, survive XYZ -> CIELAB -> XYZ exactly. */
  lemma {:induction false} XyzLabLinearRoundTrip(c: XYZ, mt: Math)
    requires PowCubes(mt)
    requires c.x / RefX <= LabLinearLimit && c.y / RefY <= LabLinearLimit && c.z / RefZ <= LabLinearLimit
    ensures LabToXyz(XyzToLab(c, mt), mt) == c
  {
    var fx := LabF(c.x / RefX, mt);
    var fy := LabF(c.y / RefY, mt);
    var fz := LabF(c.z / RefZ, mt);
    var lab := XyzToLab(c, mt);
    assert (lab.l + 16.0) / 116.0 == fy;
    assert lab.a / 500.0 + fy == fx;
    assert fy - lab.b / 200.0 == fz;
    LabLinearRoundTrip(c.x / RefX, mt);
    LabLinearRoundTrip(c.y / RefY, mt);
    LabLinearRoundTrip(c.z / RefZ, mt);
  }

  /** CIELAB values whose three intermediate f values lie below the knee
      survive CIELAB -> XYZ -> CIELAB exactly. */
  lemma {:induction false} LabXyzLinearRoundTrip(c: CIELAB, mt: Math)
    requires PowCubes(mt)
    requires var fy := (c.l + 16.0) / 116.0;
             fy <= LabKnee && c.a / 500.0 + fy <= LabKnee && fy - c.b / 200.0 <= LabKnee
    ensures XyzToLab(LabToXyz(c, mt), mt) == c
  {
    var fy := (c.l + 16.0) / 116.0;
    var fx := c.a / 500.0 + fy;
    var fz := fy - c.b / 200.0;
    var xyz := LabToXyz(c, mt);
    assert xyz.x / RefX == LabFInv(fx, mt);
    assert xyz.y / RefY == LabFInv(fy, mt);
    assert xyz.z / RefZ == LabFInv(fz, mt);
    LabKneeRoundTrip(fx, mt);
    LabKneeRoundTrip(fy, mt);
    LabKneeRoundTrip(fz, mt);
  }

  /** l^2 + a^2 + b^2, the squared Euclidean length of a CIELAB colour. */
  function SquaredNorm(c: CIELAB): real
  {
    Square(c.l) + Square(c.a) + Square(c.b)
  }

  /** CIELAB -> MSH with the two near-zero guards: no saturation angle for
      a magnitude of at most 0.001, and no hue for a saturation angle of at
      most 0.001. */
  function LabToMsh(c: CIELAB, mt: Math): (o: MSH)
    ensures o.m == mt.sqrt(SquaredNorm(c))
    ensures o.m <= 0.001 ==> o.s == 0.0 && o.h == 0.0
    ensures o.s <= 0.001 ==> o.h == 0.0
    ensures o.m > 0.001 ==> o.s == mt.acos(c.l / o.m)
    ensures o.s > 0.001 ==> o.h == mt.atan2(c.b, c.a)
  {
    var m := mt.sqrt(SquaredNorm(c));
    var s := if m > 0.001 then mt.acos(c.l / m) else 0.0;
    var h := if s > 0.001 then mt.atan2(c.b, c.a) else 0.0;
    MSH(m, s, h)
  }

  /** MSH -> CIELAB, the polar-to-Cartesian transform. */
  function MshToLab(c: MSH, mt: Math): (o: CIELAB)
    ensures c.m == 0.0 ==> o == CIELAB(0.0, 0.0, 0.0)
    ensures ExactAtZero(mt) && c.s == 0.0 ==> o == CIELAB(c.m, 0.0, 0.0)
    ensures o.a * mt.sin(c.h) == o.b * mt.cos(c.h)
  {
    CIELAB(c.m * mt.cos(c.s), c.m * mt.sin(c.s) * mt.cos(c.h), c.m * mt.sin(c.s) * mt.sin(c.h))
  }

  /** A gray CIELAB colour (l, 0, 0) with l >= 0 becomes the gray MSH
      colour (l, 0, 0) and comes back unchanged. The restriction to l >= 0
      is the conversion's own behaviour, not a convenience: for l < -0.001
      the magnitude is |l| and the saturation angle is acos(-1), so a
      negative gray is not achromatic in MSH. */
  lemma AchromaticLabRoundTrip(c: CIELAB, mt: Math)
    requires SqrtIsRoot(mt) && ExactAtZero(mt)
    requires c.a == 0.0 && c.b == 0.0 && 0.0 <= c.l
    ensures LabToMsh(c, mt) == MSH(c.l, 0.0, 0.0)
    ensures MshToLab(LabToMsh(c, mt), mt) == c
  {
    var l := c.l;
    assert SquaredNorm(c) == Square(l);
    SqrtOfSquare(mt, l);
    var o := LabToMsh(c, mt);
    assert o.m == l;
    if l > 0.001 {
      assert c.l / o.m == 1.0;
      assert o.s == mt.acos(1.0) == 0.0;
    }
    assert o.h == 0.0;
    assert o == MSH(l, 0.0, 0.0);
    assert MshToLab(o, mt) == CIELAB(l, 0.0, 0.0);
  }

  /** A gray MSH colour (m, 0, h) with m >= 0 loses its meaningless hue on
      the way through CIELAB and comes back as (m, 0, 0). */
  lemma AchromaticMshRoundTrip(c: MSH, mt: Math)
    requires SqrtIsRoot(mt) && ExactAtZero(mt)
    requires c.s == 0.0 && 0.0 <= c.m
    ensures LabToMsh(MshToLab(c, mt), mt) == MSH(c.m, 0.0, 0.0)
  {
    AchromaticLabRoundTrip(MshToLab(c, mt), mt);
  }

  /** RGB -> MSH through XYZ and CIELAB. */
  function RgbToMsh(c: RGB, mt: Math): (o: MSH)
    ensures o.m <= 0.001 ==> o.s == 0.0 && o.h == 0.0
    ensures o.s <= 0.001 ==> o.h == 0.0
  {
    LabToMsh(XyzToLab(RgbToXyz(c, mt), mt), mt)
  }

  /** MSH -> RGB through CIELAB and XYZ. */
  function MshToRgb(c: MSH, mt: Math): (o: RGB)
    ensures MaxChannel(o) <= 1.0
  {
    XyzToRgb(LabToXyz(MshToLab(c, mt), mt), mt)
  }

  /** Black goes to the MSH origin and back to black along the whole chain,
      given exact square roots and cubes. */
  lemma BlackRoundTrip(mt: Math)
    requires SqrtIsRoot(mt) && PowCubes(mt)
    ensures RgbToMsh(RGB(0.0, 0.0, 0.0), mt) == MSH(0.0, 0.0, 0.0)
    ensures forall s, h :: MshToRgb(MSH(0.0, s, h), mt) == RGB(0.0, 0.0, 0.0)
  {
    BlackToMshOrigin(mt);
    forall s, h ensures MshToRgb(MSH(0.0, s, h), mt) == RGB(0.0, 0.0, 0.0) {
      ZeroMagnitudeToBlack(mt, s, h);
    }
  }

  /** An MSH colour of zero magnitude is black, given exact cubes. */
  lemma ZeroMagnitudeToBlack(mt: Math, s: real, h: real)
    requires PowCubes(mt)
    ensures MshToRgb(MSH(0.0, s, h), mt) == RGB(0.0, 0.0, 0.0)
  {
    assert MshToLab(MSH(0.0, s, h), mt) == CIELAB(0.0, 0.0, 0.0);
    LabBlackToXyzBlack(mt);
    assert XyzToRgb(XYZ(0.0, 0.0, 0.0), mt) == RGB(0.0, 0.0, 0.0);
  }

  /** Black reaches the MSH origin, given exact square roots. */
  lemma BlackToMshOrigin(mt: Math)
    requires SqrtIsRoot(mt)
    ensures RgbToMsh(RGB(0.0, 0.0, 0.0), mt) == MSH(0.0, 0.0, 0.0)
  {
    var lab := XyzToLab(RgbToXyz(RGB(0.0, 0.0, 0.0), mt), mt);
    assert lab == CIELAB(0.0, 0.0, 0.0);
    assert SquaredNorm(lab) == Square(0.0);
    SqrtOfSquare(mt, 0.0);
  }

  /** CIELAB black is XYZ black, given exact cubes. */
  lemma LabBlackToXyzBlack(mt: Math)
    requires PowCubes(mt)
    ensures LabToXyz(CIELAB(0.0, 0.0, 0.0), mt) == XYZ(0.0, 0.0, 0.0)
  {
    var f := 16.0 / 116.0;
    assert mt.pow(f, 3.0) == f * f * f;
  }
}

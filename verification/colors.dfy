/** The four colour representations of the library (RGB, XYZ, CIELAB, MSH),
    each three real components, and the D65 reference white. */
module Colors {

  /** Gamma-encoded sRGB, nominally in [0,1] per channel. */
  datatype RGB = RGB(r: real, g: real, b: real)

  /** CIE 1931 tristimulus values, 2 degree observer, illuminant D65. */
  datatype XYZ = XYZ(x: real, y: real, z: real)

  /** CIE L*a*b* relative to the reference white. */
  datatype CIELAB = CIELAB(l: real, a: real, b: real)

  /** Polar CIELAB: magnitude, saturation angle and hue angle. */
  datatype MSH = MSH(m: real, s: real, h: real)

  const RefX: real := 0.95047
  const RefY: real := 1.000
  const RefZ: real := 1.08883

  /** `std::max` on two reals. */
  function Max(u: real, v: real): real
  {
    if u < v then v else u
  }

  /** `std::min` on two reals. */
  function Min(u: real, v: real): real
  {
    if v < u then v else u
  }

  /** The largest of the three channels, as `std::max(r, std::max(g, b))`. */
  function MaxChannel(c: RGB): (top: real)
    ensures top >= c.r && top >= c.g && top >= c.b
    ensures top == c.r || top == c.g || top == c.b
  {
    Max(c.r, Max(c.g, c.b))
  }
}

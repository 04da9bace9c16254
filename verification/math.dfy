/** The C maths library functions that the colour conversions call:
    `std::pow`, `std::sqrt`, `std::acos`, `std::atan2`, `std::sin` and
    `std::cos`.

    Nothing is assumed about their values. Every conversion takes a `Math`
    record holding whatever functions the caller supplies, so a property
    proved about a conversion holds for every choice of them. The few lemmas
    that need an exact identity of the real functions (sin 0 = 0, say) ask
    for it explicitly through one of the predicates below. */
module Transcendental {

  datatype Math = Math(
    pow: (real, real) -> real,
    sqrt: real -> real,
    acos: real -> real,
    atan2: (real, real) -> real,
    sin: real -> real,
    cos: real -> real)

  /** `M_PI` from <cmath>, to the digits the C headers give it. */
  const Pi: real := 3.14159265358979323846

  /** The exact values of sine, cosine and arc cosine on the achromatic axis. */
  predicate ExactAtZero(mt: Math)
  {
    mt.sin(0.0) == 0.0 && mt.cos(0.0) == 1.0 && mt.acos(1.0) == 0.0
  }

  function Square(x: real): real
  {
    x * x
  }

  /** `sqrt` is the non-negative square root on non-negative arguments. */
  ghost predicate SqrtIsRoot(mt: Math)
  {
    forall x :: 0.0 <= x ==> 0.0 <= mt.sqrt(x) && Square(mt.sqrt(x)) == x
  }

  /** `pow(y, 3.0)` is the cube of `y`. */
  ghost predicate PowCubes(mt: Math)
  {
    forall y :: mt.pow(y, 3.0) == y * y * y
  }

  /** The square root of a square is the number itself when it is not negative. */
  lemma SqrtOfSquare(mt: Math, v: real)
    requires SqrtIsRoot(mt)
    requires 0.0 <= v
    ensures mt.sqrt(Square(v)) == v
  {
    var w := mt.sqrt(Square(v));
    assert 0.0 <= w && Square(w) == Square(v);
    if w < v {
      SquareStrictlyMonotone(w, v);
    } else if v < w {
      SquareStrictlyMonotone(v, w);
    }
  }

  /** Squaring is strictly monotone on the non-negative reals. */
  lemma SquareStrictlyMonotone(u: real, v: real)
    requires 0.0 <= u < v
    ensures Square(u) < Square(v)
  {
    NonNegativeProduct(u, v - u);
    PositiveProduct(v, v - u);
    assert u * (v - u) == u * v - u * u;
    assert v * (v - u) == v * v - u * v;
  }

  lemma NonNegativeProduct(u: real, v: real)
    requires 0.0 <= u && 0.0 <= v
    ensures 0.0 <= u * v
  {
  }

  lemma PositiveProduct(u: real, v: real)
    requires 0.0 < u && 0.0 < v
    ensures 0.0 < u * v
  {
  }

  /** Cubing is monotone over the reals. */
  lemma CubeMonotone(u: real, v: real)
    requires u <= v
    ensures u * u * u <= v * v * v
  {
    var d := v - u;
    var p := u + v / 2.0;
    var q := p * p + 3.0 * (v * v) / 4.0;
    assert v * v * v - u * u * u == d * (u * u + u * v + v * v);
    assert u * u + u * v + v * v == q;
    SquareNonNegative(p);
    SquareNonNegative(v);
    assert 0.0 <= d && 0.0 <= q;
    assert 0.0 <= d * q;
  }

  lemma SquareNonNegative(x: real)
    ensures 0.0 <= x * x
  {
    if x < 0.0 {
      assert x * x == (-x) * (-x);
    }
  }

  // Facts about real quotients.

  lemma DivAtLeastOne(u: real, w: real)
    requires w <= u && 0.0 < w
    ensures u / w >= 1.0
  {
  }

  lemma DivStrictlyMonotone(u: real, v: real, w: real)
    requires u < v && 0.0 < w
    ensures u / w < v / w
  {
  }

  lemma DivNonNegative(u: real, w: real)
    requires 0.0 <= u && 0.0 < w
    ensures 0.0 <= u / w
  {
  }

  lemma ZeroQuotient(u: real, w: real)
    requires w != 0.0
    ensures u == 0.0 ==> u / w == 0.0
  {
  }

  lemma DivSum(a: real, b: real, w: real)
    requires w != 0.0
    ensures a / w + b / w == (a + b) / w
  {
  }

  lemma DivByHalf(x: real, r: real)
    requires r != 0.0
    ensures x / (r / 2.0) == 2.0 * (x / r)
  {
  }

  lemma HalfOver(r: real)
    requires r != 0.0
    ensures (r / 2.0) / r == 0.5
  {
  }

  lemma DivBelowOne(u: real, w: real)
    requires u < w && 0.0 < w
    ensures u / w < 1.0
  {
  }

  lemma DivAtMostOne(u: real, w: real)
    requires u <= w && 0.0 < w
    ensures u / w <= 1.0
  {
  }
}

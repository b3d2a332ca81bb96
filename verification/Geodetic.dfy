/**
  WGS84 geodetic positions in ECEF, and how they agree with the local frame: the
  ellipsoid is where the altitude is zero, and altitude runs against the frame's
  "down" column, which is the ellipsoid's normal.
 */
module Geodetic {
  import opened Rotations
  import opened NavFrames

  const A: real := 6378137.0
  const E2: real := 0.00669437999014
  const Q: real := 1.0 - E2

  /** The positive square root the source takes. */
  predicate IsRoot(root: real, lat: Angle) {
    root > 0.0 && Times(root, root) == 1.0 - Times(Times(E2, lat.s), lat.s)
  }

  /** The radius of curvature in the prime vertical. */
  function Radius(root: real): real
    requires root > 0.0
  {
    A / root
  }

  function GeodeticToEcef(lat: Angle, lon: Angle, alt: real, root: real): Vec
    requires IsRoot(root, lat)
  {
    var n := Radius(root);
    Vec(Times(Times(n + alt, lat.c), lon.c),
        Times(Times(n + alt, lat.c), lon.s),
        Times(Times(n, Q) + alt, lat.s))
  }

  function Down(lat: Angle, lon: Angle): Vec {
    var m := EcefFromNed(lat, lon);
    Vec(m.a.z, m.b.z, m.c.z)
  }

  /** How far a point is off the ellipsoid, in the equation of which the squared
      polar axis is Q times the squared equatorial one: positive outside. */
  function Excess(p: Vec): real {
    Times(Q, Times(p.x, p.x) + Times(p.y, p.y)) + Times(p.z, p.z) - Times(Q, Times(A, A))
  }

  /** Half the gradient of that equation's left side. */
  function Normal(p: Vec): Vec {
    Vec(Times(Q, p.x), Times(Q, p.y), p.z)
  }

  // ----- Altitude

  /** Altitude displaces a point along minus "down". */
  lemma AltitudeIsUp(lat: Angle, lon: Angle, alt: real, root: real)
    requires IsRoot(root, lat)
    ensures GeodeticToEcef(lat, lon, alt, root) ==
      Add(GeodeticToEcef(lat, lon, 0.0, root), Scale(-alt, Down(lat, lon)))
  {
    hide Times, Radius;
    var n := Radius(root);
    UpInComponent(n, alt, lat.c, lon.c);
    UpInComponent(n, alt, lat.c, lon.s);
    TimesOfSum(Times(n, Q), alt, lat.s);
    TimesOfNegative(-alt, lat.s);
    TimesOfNegative(alt, lat.s);
  }

  lemma UpInComponent(n: real, alt: real, c: real, k: real)
    ensures Times(Times(n + alt, c), k) == Times(Times(n, c), k) + Times(-alt, Times(-c, k))
  {
    hide Times;
    TimesOfSum(n, alt, c);
    TimesOfSum(Times(n, c), Times(alt, c), k);
    TimesOfTimes(alt, c, k);
    TimesOfNegative(c, k);
    TimesOfNegative(-alt, Times(c, k));
    TimesOfNegative(alt, Times(c, k));
  }

  /** On the ellipsoid, "down" is against the normal. */
  lemma DownIsNormal(lat: Angle, lon: Angle, root: real)
    requires IsRoot(root, lat)
    ensures Normal(GeodeticToEcef(lat, lon, 0.0, root)) == Scale(-Times(Radius(root), Q), Down(lat, lon))
  {
    hide Times, Radius;
    var n := Radius(root);
    NormalInComponent(n, lat.c, lon.c);
    NormalInComponent(n, lat.c, lon.s);
    TimesOfNegative(-Times(n, Q), lat.s);
    TimesOfNegative(Times(n, Q), lat.s);
  }

  /** So north and east are tangent to it. */
  lemma HorizonIsTangent(lat: Angle, lon: Angle, root: real)
    requires IsAngle(lat) && IsAngle(lon) && IsRoot(root, lat)
    ensures var normal, columns := Normal(GeodeticToEcef(lat, lon, 0.0, root)), Transpose(EcefFromNed(lat, lon));
      Dot(normal, columns.a) == 0.0 && Dot(normal, columns.b) == 0.0
  {
    hide Times, Dot, Radius, IsAngle, GeodeticToEcef, Normal, EcefFromNed;
    var columns, k := Transpose(EcefFromNed(lat, lon)), -Times(Radius(root), Q);
    DownIsNormal(lat, lon, root);
    FramesProper(lat, lon, lat, lat, lat);
    TransposeProper(EcefFromNed(lat, lon));
    assert columns.c == Down(lat, lon);
    DotCommutes(columns.c, columns.b);
    DotOfScaled(k, columns.c, columns.a);
    DotOfScaled(k, columns.c, columns.b);
    TimesOfUnits(k);
  }

  lemma NormalInComponent(n: real, c: real, k: real)
    ensures Times(Q, Times(Times(n, c), k)) == Times(-Times(n, Q), Times(-c, k))
  {
    hide Times;
    TimesOfTimes(n, c, k);
    TimesOfTimes(Q, n, Times(c, k));
    TimesCommutes(Q, n);
    TimesOfNegative(c, k);
    TimesOfNegative(-Times(n, Q), Times(c, k));
    TimesOfNegative(Times(n, Q), Times(c, k));
  }

  // ----- The ellipsoid

  lemma SquareOfProduct(a: real, b: real)
    ensures Times(Times(a, b), Times(a, b)) == Times(Times(a, a), Times(b, b))
  {
    hide Times;
    TimesOfTimes(a, b, Times(a, b));
    TimesCommutes(b, Times(a, b));
    TimesOfTimes(a, b, b);
    TimesOfTimes(a, a, Times(b, b));
  }

  lemma SquareOfSum(a: real, b: real)
    ensures Times(a + b, a + b) == Times(a, a) + 2.0 * Times(a, b) + Times(b, b)
  {
    hide Times;
    TimesOfSum(a, b, a + b);
    TimesOfSum(a, b, a);
    TimesOfSum(a, b, b);
    TimesCommutes(a, b);
  }

  /** The horizontal part of a position's square. */
  lemma HorizontalSquare(m: real, c: real, lon: Angle)
    requires IsAngle(lon)
    ensures var k := Times(m, c);
      Times(Times(k, lon.c), Times(k, lon.c)) + Times(Times(k, lon.s), Times(k, lon.s)) == Times(Times(m, m), Times(c, c))
  {
    hide Times;
    var k := Times(m, c);
    SquareOfProduct(k, lon.c);
    SquareOfProduct(k, lon.s);
    TimesOfSum(Times(lon.c, lon.c), Times(lon.s, lon.s), Times(k, k));
    TimesOfUnits(Times(k, k));
    SquareOfProduct(m, c);
  }

  lemma RadiusTimesRoot(root: real)
    requires root > 0.0
    ensures Times(Radius(root), root) == A && Radius(root) > 0.0
  {}

  // The terms without altitude: n^2 Q (c^2 + Q s^2) is Q A^2.
  lemma SurfaceTerms(n: real, lat: Angle, root: real)
    requires IsAngle(lat) && IsRoot(root, lat) && Times(n, root) == A
    ensures var c2, s2 := Times(lat.c, lat.c), Times(lat.s, lat.s);
      Times(Q, Times(Times(n, n), c2)) + Times(Times(Times(n, Q), Times(n, Q)), s2) == Times(Q, Times(A, A))
  {
    hide Times;
    var n2, c2, s2 := Times(n, n), Times(lat.c, lat.c), Times(lat.s, lat.s);
    TimesOfTimes(E2, lat.s, lat.s);
    TimesOfDifference(1.0, E2, s2);
    TimesOfUnits(s2);
    assert c2 + Times(Q, s2) == Times(root, root);
    TimesOfSum(c2, Times(Q, s2), n2);
    SquareOfProduct(n, root);
    assert Times(n2, c2) + Times(n2, Times(Q, s2)) == Times(A, A);
    TimesOfSum(Times(n2, c2), Times(n2, Times(Q, s2)), Q);
    SquareOfProduct(n, Q);
    MoveFactor(n2, s2);
  }

  lemma MoveFactor(n2: real, s2: real)
    ensures Times(Q, Times(n2, Times(Q, s2))) == Times(Times(n2, Times(Q, Q)), s2)
  {
    hide Times;
    TimesOfTimes(n2, Q, s2);
    TimesCommutes(Q, Times(Times(n2, Q), s2));
    TimesOfTimes(Times(n2, Q), s2, Q);
    TimesCommutes(s2, Q);
    TimesOfTimes(Times(n2, Q), Q, s2);
    TimesOfTimes(n2, Q, Q);
  }

  /** The weight of the squared altitude, between Q and 1. */
  function Weight(lat: Angle): real {
    Times(Q, Times(lat.c, lat.c)) + Times(lat.s, lat.s)
  }

  // The terms with altitude.
  lemma AltitudeTerms(n: real, alt: real, lat: Angle)
    requires IsAngle(lat)
    ensures var c2, s2 := Times(lat.c, lat.c), Times(lat.s, lat.s);
      Times(Q, Times(2.0 * Times(n, alt) + Times(alt, alt), c2))
        + Times(2.0 * Times(Times(n, Q), alt) + Times(alt, alt), s2)
      == Times(alt, 2.0 * Times(n, Q) + Times(alt, Weight(lat)))
  {
    hide Times;
    var c2, s2, nh, hh := Times(lat.c, lat.c), Times(lat.s, lat.s), Times(n, alt), Times(alt, alt);
    var nqh := Times(Times(n, Q), alt);
    TwiceAnd(nh, hh, c2);
    TwiceAnd(Times(nh, c2), Times(hh, c2), Q);
    TwiceAnd(nqh, hh, s2);
    assert Times(Q, Times(nh, c2)) == Times(nqh, c2) by {
      TimesOfTimes(Q, nh, c2);
      TimesOfTimes(Q, n, alt);
      TimesCommutes(Q, n);
    }
    TimesOfSum(c2, s2, nqh);
    TimesOfUnits(nqh);
    TwiceAnd(Times(n, Q), Times(alt, Weight(lat)), alt);
    TimesOfTimes(alt, alt, Weight(lat));
    TimesOfSum(Times(Q, c2), s2, hh);
    TimesOfTimes(Q, hh, c2);
    TimesOfTimes(hh, Q, c2);
    TimesCommutes(Q, hh);
    TimesCommutes(Q, Times(hh, c2));
  }

  lemma TwiceAnd(a: real, b: real, k: real)
    ensures Times(2.0 * a + b, k) == 2.0 * Times(a, k) + Times(b, k)
    ensures Times(k, 2.0 * a + b) == 2.0 * Times(k, a) + Times(k, b)
    ensures Times(k, a) == Times(a, k) && Times(k, b) == Times(b, k)
  {
    hide Times;
    assert 2.0 * a + b == (a + a) + b;
    TimesOfSum(a + a, b, k);
    TimesOfSum(a, a, k);
    TimesCommutes(a, k);
    TimesCommutes(b, k);
  }

  /** The excess of a geodetic position, as altitude times a factor. */
  lemma ExcessOfPosition(lat: Angle, lon: Angle, alt: real, root: real)
    requires IsAngle(lat) && IsAngle(lon) && IsRoot(root, lat)
    ensures Excess(GeodeticToEcef(lat, lon, alt, root)) ==
      Times(alt, 2.0 * Times(Radius(root), Q) + Times(alt, Weight(lat)))
  {
    hide Times, Radius, IsAngle, Weight;
    var n, c2, s2 := Radius(root), Times(lat.c, lat.c), Times(lat.s, lat.s);
    var nq := Times(n, Q);
    RadiusTimesRoot(root);
    HorizontalSquare(n + alt, lat.c, lon);
    SquareOfProduct(nq + alt, lat.s);
    SquareOfSum(n, alt);
    SquareOfSum(nq, alt);
    var p, q := 2.0 * Times(n, alt) + Times(alt, alt), 2.0 * Times(nq, alt) + Times(alt, alt);
    assert Times(n + alt, n + alt) == Times(n, n) + p;
    assert Times(nq + alt, nq + alt) == Times(nq, nq) + q;
    TimesOfSum(Times(n, n), p, c2);
    TimesOfSum(Times(Times(n, n), c2), Times(p, c2), Q);
    TimesOfSum(Times(nq, nq), q, s2);
    SurfaceTerms(n, lat, root);
    AltitudeTerms(n, alt, lat);
  }

  // ----- Inside, on and outside

  lemma NonnegativeProduct(a: real, b: real)
    requires a >= 0.0 && b >= 0.0
    ensures Times(a, b) >= 0.0
  {
    hide Times;
    if a > 0.0 && b > 0.0 {
      PositiveProduct(a, b);
    } else {
      TimesOfUnits(a);
      TimesOfUnits(b);
    }
  }

  lemma RadiusAtLeastA(lat: Angle, root: real)
    requires IsAngle(lat) && IsRoot(root, lat)
    ensures Radius(root) >= A
  {
    hide Times, Radius;
    var n := Radius(root);
    RadiusTimesRoot(root);
    SquarePositive(lat.s);
    TimesOfTimes(E2, lat.s, lat.s);
    NonnegativeProduct(E2, Times(lat.s, lat.s));
    if root > 1.0 {
      PositiveProduct(root, root - 1.0);
      TimesOfDifference(root, 1.0, root);
      TimesOfUnits(root);
    }
    NonnegativeProduct(n, 1.0 - root);
    TimesOfDifference(1.0, root, n);
    TimesOfUnits(n);
  }

  lemma WeightBounds(lat: Angle)
    requires IsAngle(lat)
    ensures 0.0 <= Weight(lat) <= 1.0
  {
    hide Times;
    var c2, s2 := Times(lat.c, lat.c), Times(lat.s, lat.s);
    SquarePositive(lat.c);
    SquarePositive(lat.s);
    NonnegativeProduct(Q, c2);
    NonnegativeProduct(E2, c2);
    TimesOfDifference(1.0, E2, c2);
    TimesOfUnits(c2);
  }

  lemma ScaledByQ(n: real)
    requires n >= A
    ensures 2.0 * Times(n, Q) > A
  {
    assert Times(n, Q) == n * Q;
  }

  // The factor that the excess has beside the altitude is positive.
  lemma FactorPositive(lat: Angle, alt: real, root: real)
    requires IsAngle(lat) && IsRoot(root, lat) && alt >= -A
    ensures 2.0 * Times(Radius(root), Q) + Times(alt, Weight(lat)) > 0.0
  {
    hide Times, Radius, IsAngle, Weight;
    var w := Weight(lat);
    RadiusAtLeastA(lat, root);
    ScaledByQ(Radius(root));
    WeightBounds(lat);
    if alt >= 0.0 {
      NonnegativeProduct(alt, w);
    } else {
      NonnegativeProduct(-alt, 1.0 - w);
      TimesOfDifference(1.0, w, -alt);
      TimesOfUnits(-alt);
      TimesOfNegative(alt, w);
    }
  }

  lemma SignOfProduct(a: real, b: real)
    requires b > 0.0
    ensures (Times(a, b) > 0.0 <==> a > 0.0) && (Times(a, b) == 0.0 <==> a == 0.0)
  {
    hide Times;
    if a > 0.0 {
      PositiveProduct(a, b);
    } else if a < 0.0 {
      PositiveProduct(-a, b);
      TimesOfNegative(a, b);
    } else {
      TimesOfUnits(b);
    }
  }

  lemma SignOfTimes(a: real, b: real)
    requires b <= 0.0 && a < 0.0
    ensures Times(a, b) >= 0.0
  {
    hide Times;
    NonnegativeProduct(-a, -b);
    TimesOfNegative(-a, b);
    TimesOfNegative(a, b);
  }

  /** A position is outside, on or inside the WGS84 ellipsoid as its altitude is
      positive, zero or negative. */
  ghost predicate SidesAgree(alt: real, excess: real) {
    (excess > 0.0 <==> alt > 0.0) && (excess == 0.0 <==> alt == 0.0)
  }

  /** They do exactly as long as the altitude lies above where the line through the
      position and the ellipsoid's normal meets the ellipsoid again. */
  lemma EllipsoidIffAltitude(lat: Angle, lon: Angle, alt: real, root: real)
    requires IsAngle(lat) && IsAngle(lon) && IsRoot(root, lat)
    ensures SidesAgree(alt, Excess(GeodeticToEcef(lat, lon, alt, root)))
      <==> Times(alt, Weight(lat)) > -2.0 * Times(Radius(root), Q)
  {
    hide Times, Radius, IsAngle, Weight, Excess, GeodeticToEcef;
    var b := 2.0 * Times(Radius(root), Q) + Times(alt, Weight(lat));
    ExcessOfPosition(lat, lon, alt, root);
    if b > 0.0 {
      SignOfProduct(alt, b);
    } else {
      if alt >= 0.0 {
        FactorPositive(lat, alt, root);
        assert false;
      }
      SignOfTimes(alt, b);
    }
  }

  /** Every altitude down to minus one equatorial radius does. */
  lemma DownToTheRadius(lat: Angle, lon: Angle, alt: real, root: real)
    requires IsAngle(lat) && IsAngle(lon) && IsRoot(root, lat) && alt >= -A
    ensures SidesAgree(alt, Excess(GeodeticToEcef(lat, lon, alt, root)))
  {
    hide Times, Radius, IsAngle, Weight, Excess, GeodeticToEcef, SidesAgree;
    EllipsoidIffAltitude(lat, lon, alt, root);
    FactorPositive(lat, alt, root);
  }

  // ----- Positions in meters

  /** On the equator a position is 6378137 m and its altitude from the Earth's axis. */
  lemma EquatorPosition(lat: Angle, lon: Angle, alt: real, root: real)
    requires lat == Angle(0.0, 1.0) && IsRoot(root, lat)
    ensures GeodeticToEcef(lat, lon, alt, root) ==
      Vec(Times(6378137.0 + alt, lon.c), Times(6378137.0 + alt, lon.s), 0.0)
  {
    hide Times;
    RootIsOne(lat, root);
    TimesOfUnits(Radius(root) + alt);
    TimesOfUnits(Times(Radius(root), Q) + alt);
  }

  lemma RootIsOne(lat: Angle, root: real)
    requires lat == Angle(0.0, 1.0) && IsRoot(root, lat)
    ensures root == 1.0 && Radius(root) == 6378137.0
  {
    assert root * root == 1.0;
    if root > 1.0 {
      SquareGrows(1.0, root);
      assert false;
    } else if root < 1.0 {
      SquareGrows(root, 1.0);
      assert false;
    }
  }

  lemma SquareGrows(a: real, b: real)
    requires 0.0 < a < b
    ensures a * a < b * b
  {
    assert a * a < a * b < b * b;
  }

  /** At the poles it is on the axis, 6356752.3142 m (to a tenth of a millimeter) and
      its altitude from the center. */
  lemma PolePosition(lat: Angle, lon: Angle, alt: real, root: real)
    requires (lat == Angle(1.0, 0.0) || lat == Angle(-1.0, 0.0)) && IsRoot(root, lat)
    ensures var p := GeodeticToEcef(lat, lon, alt, root);
      && p.x == 0.0 && p.y == 0.0
      && 6356752.3142 < Times(p.z, lat.s) - alt < 6356752.3143
  {
    hide Times, Radius;
    var n := Radius(root);
    TimesOfUnits(n + alt);
    TimesOfUnits(lon.c);
    TimesOfUnits(lon.s);
    BySign(Times(n, Q) + alt, lat.s);
    PolarRoot(lat, root);
    PolarAxis(root);
  }

  lemma BySign(a: real, s: real)
    requires s == 1.0 || s == -1.0
    ensures Times(Times(a, s), s) == a
  {}

  lemma PolarRoot(lat: Angle, root: real)
    requires (lat == Angle(1.0, 0.0) || lat == Angle(-1.0, 0.0)) && IsRoot(root, lat)
    ensures root > 0.0 && root * root == 0.99330562000986
  {}

  lemma PolarAxis(root: real)
    requires root > 0.0 && root * root == 0.99330562000986
    ensures 6356752.3142 < Times(Radius(root), Q) < 6356752.3143
  {
    SquareBounds(root, 0.9966471893282, 0.9966471893438);
    PolarProduct(root, Radius(root));
  }

  lemma SquareBounds(root: real, lo: real, hi: real)
    requires root > 0.0 && 0.0 < lo < hi && lo * lo < root * root < hi * hi
    ensures lo < root < hi
  {
    if root < lo {
      SquareGrows(root, lo);
      assert false;
    } else if hi < root {
      SquareGrows(hi, root);
      assert false;
    }
  }

  lemma PolarProduct(root: real, n: real)
    requires root > 0.0 && root * root == Q && n == A / root
    ensures Times(n, Q) == A * root
  {
    assert n * root == A;
    assert Times(n, Q) == n * (root * root) == (n * root) * root;
  }
}

/**
  The navigation frames of tools/giant_integration/ue5_to_giant.py over the
  reals: WGS84 geodetic to ECEF, local NED to ECEF, body to NED, and the camera
  rotation composed of them.  An angle is its sine and cosine; products are
  written with Times.
 */
module NavFrames {
  import opened Rotations

  datatype Angle = Angle(s: real, c: real)

  predicate IsAngle(a: Angle) {
    Times(a.s, a.s) + Times(a.c, a.c) == 1.0
  }

  // ----- Attitude

  /** Body to NED, yaw, pitch and roll in ZYX order. */
  function NedFromBody(y: Angle, p: Angle, r: Angle): Mat {
    Mat(Vec(Times(y.c, p.c),
            Times(Times(y.c, p.s), r.s) - Times(y.s, r.c),
            Times(Times(y.c, p.s), r.c) + Times(y.s, r.s)),
        Vec(Times(y.s, p.c),
            Times(Times(y.s, p.s), r.s) + Times(y.c, r.c),
            Times(Times(y.s, p.s), r.c) - Times(y.c, r.s)),
        Vec(-p.s, Times(p.c, r.s), Times(p.c, r.c)))
  }

  /** NED to ECEF: the columns are the unit vectors north, east and down. */
  function EcefFromNed(lat: Angle, lon: Angle): Mat {
    Mat(Vec(Times(-lat.s, lon.c), -lon.s, Times(-lat.c, lon.c)),
        Vec(Times(-lat.s, lon.s), lon.c, Times(-lat.c, lon.s)),
        Vec(lat.c, 0.0, -lat.s))
  }

  function AboutZ(a: Angle): Mat {
    Mat(Vec(a.c, -a.s, 0.0), Vec(a.s, a.c, 0.0), Vec(0.0, 0.0, 1.0))
  }

  function AboutY(a: Angle): Mat {
    Mat(Vec(a.c, 0.0, a.s), Vec(0.0, 1.0, 0.0), Vec(-a.s, 0.0, a.c))
  }

  function AboutX(a: Angle): Mat {
    Mat(Vec(1.0, 0.0, 0.0), Vec(0.0, a.c, -a.s), Vec(0.0, a.s, a.c))
  }

  lemma AngleProducts(a: Angle)
    ensures Times(-a.s, -a.s) == Times(a.s, a.s) && Times(a.s, a.c) == Times(a.c, a.s)
    ensures Times(-a.s, a.c) == -Times(a.c, a.s) == Times(a.c, -a.s)
    ensures Times(-a.s, a.s) == -Times(a.s, a.s) == Times(a.s, -a.s)
    ensures Times(a.s, 0.0) == Times(0.0, a.s) == Times(a.c, 0.0) == Times(0.0, a.c) == 0.0
    ensures Times(-a.s, 0.0) == Times(0.0, -a.s) == 0.0
    ensures Times(1.0, a.s) == a.s && Times(1.0, a.c) == a.c && Times(1.0, -a.s) == -a.s
    ensures Times(a.s, 1.0) == a.s && Times(a.c, 1.0) == a.c && Times(-a.s, 1.0) == -a.s
    ensures Times(1.0, 1.0) == 1.0 && Times(0.0, 0.0) == Times(1.0, 0.0) == Times(0.0, 1.0) == 0.0
  {
    hide Times;
    TimesOfNegative(-a.s, a.s);
    TimesOfNegative(a.s, a.s);
    TimesOfNegative(a.s, a.c);
    TimesOfNegative(a.c, a.s);
    TimesCommutes(a.s, a.c);
    TimesOfUnits(a.s);
    TimesOfUnits(a.c);
    TimesOfUnits(-a.s);
    TimesOfUnits(1.0);
    TimesOfUnits(0.0);
  }

  lemma AboutXRightHanded(a: Angle)
    requires IsAngle(a)
    ensures RightHanded(AboutX(a))
  {
    hide Times;
    AngleProducts(a);
  }

  lemma AboutYRightHanded(a: Angle)
    requires IsAngle(a)
    ensures RightHanded(AboutY(a))
  {
    hide Times;
    AngleProducts(a);
  }

  lemma AboutZRightHanded(a: Angle)
    requires IsAngle(a)
    ensures RightHanded(AboutZ(a))
  {
    hide Times;
    AngleProducts(a);
  }

  lemma AboutProper(a: Angle)
    requires IsAngle(a)
    ensures Proper(AboutX(a)) && Proper(AboutY(a)) && Proper(AboutZ(a))
  {
    hide RightHanded, Proper, AboutX, AboutY, AboutZ;
    AboutXRightHanded(a);
    AboutYRightHanded(a);
    AboutZRightHanded(a);
    ProperIsRightHanded(AboutX(a));
    ProperIsRightHanded(AboutY(a));
    ProperIsRightHanded(AboutZ(a));
  }

  lemma PitchThenRoll(p: Angle, r: Angle)
    ensures Mul(AboutY(p), AboutX(r)) ==
      Mat(Vec(p.c, Times(p.s, r.s), Times(p.s, r.c)),
          Vec(0.0, r.c, -r.s),
          Vec(-p.s, Times(p.c, r.s), Times(p.c, r.c)))
  {
    hide Times;
    AngleProducts(p);
    AngleProducts(r);
  }

  // Turning a matrix about Z weighs its first two rows.
  lemma TurnAboutZ(y: Angle, m: Mat)
    ensures Mul(AboutZ(y), m) ==
      Mat(Add(Scale(y.c, m.a), Scale(-y.s, m.b)), Add(Scale(y.s, m.a), Scale(y.c, m.b)), m.c)
  {
    hide Times;
    ScaleUnits(m.a);
    ScaleUnits(m.b);
    ScaleUnits(m.c);
  }

  lemma ScaleUnits(v: Vec)
    ensures Scale(0.0, v) == Vec(0.0, 0.0, 0.0) && Scale(1.0, v) == v
  {
    hide Times;
    TimesOfUnits(v.x);
    TimesOfUnits(v.y);
    TimesOfUnits(v.z);
  }

  lemma AttitudeIsZYX(y: Angle, p: Angle, r: Angle)
    ensures NedFromBody(y, p, r) == Mul(AboutZ(y), Mul(AboutY(p), AboutX(r)))
  {
    hide Times, AboutX, AboutY, AboutZ, Mul;
    PitchThenRoll(p, r);
    TurnAboutZ(y, Mul(AboutY(p), AboutX(r)));
    AngleProducts(y);
    TimesOfTimes(y.c, p.s, r.s);
    TimesOfTimes(y.c, p.s, r.c);
    TimesOfTimes(y.s, p.s, r.s);
    TimesOfTimes(y.s, p.s, r.c);
    TimesOfNegative(y.s, r.c);
    TimesOfNegative(y.c, r.s);
    TimesOfNegative(y.s, -r.s);
    TimesOfNegative(y.s, r.s);
  }

  /** The local frame at a place: turn to its longitude, then tilt by the latitude
      and a right angle. */
  lemma LocalFrameIsZY(lat: Angle, lon: Angle)
    ensures EcefFromNed(lat, lon) == Mul(AboutZ(lon), AboutY(Angle(-lat.c, -lat.s)))
  {
    hide Times, AboutZ, Mul;
    TurnAboutZ(lon, AboutY(Angle(-lat.c, -lat.s)));
    AngleProducts(lon);
    TimesOfNegative(lon.s, 1.0);
    TimesCommutes(lon.c, -lat.s);
    TimesCommutes(lon.c, -lat.c);
    TimesCommutes(lon.s, -lat.s);
    TimesCommutes(lon.s, -lat.c);
    TimesOfUnits(lat.c);
    TimesOfUnits(-lat.s);
    TimesOfUnits(-lat.c);
  }

  lemma TiltIsAngle(lat: Angle)
    requires IsAngle(lat)
    ensures IsAngle(Angle(-lat.c, -lat.s))
  {
    hide Times;
    TimesOfNegative(-lat.c, lat.c);
    TimesOfNegative(lat.c, lat.c);
    TimesOfNegative(-lat.s, lat.s);
    TimesOfNegative(lat.s, lat.s);
  }

  /** Both frame matrices are proper rotations. */
  lemma FramesProper(lat: Angle, lon: Angle, y: Angle, p: Angle, r: Angle)
    requires IsAngle(lat) && IsAngle(lon) && IsAngle(y) && IsAngle(p) && IsAngle(r)
    ensures Proper(EcefFromNed(lat, lon)) && Proper(NedFromBody(y, p, r))
  {
    hide Proper, IsAngle, AboutX, AboutY, AboutZ, Mul, EcefFromNed, NedFromBody;
    var tilt := Angle(-lat.c, -lat.s);
    LocalFrameIsZY(lat, lon);
    TiltIsAngle(lat);
    AboutProper(lon);
    AboutProper(tilt);
    MulProper(AboutZ(lon), AboutY(tilt));
    AttitudeIsZYX(y, p, r);
    AboutProper(y);
    AboutProper(p);
    AboutProper(r);
    MulProper(AboutY(p), AboutX(r));
    MulProper(AboutZ(y), Mul(AboutY(p), AboutX(r)));
  }

  // ----- Which way the axes point

  const AXIS_X: Vec := Vec(1.0, 0.0, 0.0)
  const AXIS_Y: Vec := Vec(0.0, 1.0, 0.0)
  const AXIS_Z: Vec := Vec(0.0, 0.0, 1.0)

  lemma ApplyAxes(m: Mat)
    ensures Apply(m, AXIS_X) == Vec(m.a.x, m.b.x, m.c.x)
    ensures Apply(m, AXIS_Y) == Vec(m.a.y, m.b.y, m.c.y)
    ensures Apply(m, AXIS_Z) == Vec(m.a.z, m.b.z, m.c.z)
  {
    hide Times;
    AxisProducts(m.a);
    AxisProducts(m.b);
    AxisProducts(m.c);
  }

  lemma AxisProducts(v: Vec)
    ensures Dot(v, AXIS_X) == v.x && Dot(v, AXIS_Y) == v.y && Dot(v, AXIS_Z) == v.z
  {
    hide Times;
    TimesOfUnits(v.x);
    TimesOfUnits(v.y);
    TimesOfUnits(v.z);
  }

  /** Yaw turns the nose from north to east, pitch lifts it, and roll lowers the right
      wing. */
  lemma TurnsOfBody(a: Angle, level: Angle)
    requires level == Angle(0.0, 1.0)
    ensures Apply(NedFromBody(a, level, level), AXIS_X) == Vec(a.c, a.s, 0.0)
    ensures Apply(NedFromBody(level, a, level), AXIS_X) == Vec(a.c, 0.0, -a.s)
    ensures Apply(NedFromBody(level, level, a), AXIS_Y) == Vec(0.0, a.c, a.s)
  {
    hide Times, Apply;
    ApplyAxes(NedFromBody(a, level, level));
    ApplyAxes(NedFromBody(level, a, level));
    ApplyAxes(NedFromBody(level, level, a));
    TimesOfUnits(a.c);
    TimesOfUnits(a.s);
    TimesOfUnits(0.0);
    TimesOfUnits(1.0);
  }

  /** Along the equator north is +Z, and east goes the way of increasing longitude. */
  lemma FrameOnEquator(lat: Angle, lon: Angle)
    requires lat == Angle(0.0, 1.0)
    ensures NedVelocityToEcef(lat, lon, AXIS_X) == AXIS_Z
    ensures NedVelocityToEcef(lat, lon, AXIS_Y) == Vec(-lon.s, lon.c, 0.0)
    ensures NedVelocityToEcef(lat, lon, AXIS_Z) == Vec(-lon.c, -lon.s, 0.0)
  {
    hide Times, Apply;
    ApplyAxes(EcefFromNed(lat, lon));
    TimesOfUnits(lon.c);
    TimesOfUnits(lon.s);
  }

  /** Along the prime meridian north goes the way of increasing latitude, and east is +Y. */
  lemma FrameOnMeridian(lat: Angle, lon: Angle)
    requires lon == Angle(0.0, 1.0)
    ensures NedVelocityToEcef(lat, lon, AXIS_X) == Vec(-lat.s, 0.0, lat.c)
    ensures NedVelocityToEcef(lat, lon, AXIS_Y) == AXIS_Y
    ensures NedVelocityToEcef(lat, lon, AXIS_Z) == Vec(-lat.c, 0.0, -lat.s)
  {
    hide Times, Apply;
    ApplyAxes(EcefFromNed(lat, lon));
    TimesOfUnits(-lat.c);
    TimesOfUnits(-lat.s);
  }

  // ----- The camera

  const NOSE: Mat := Mat(Vec(0.0, 1.0, 0.0), Vec(0.0, 0.0, 1.0), Vec(1.0, 0.0, 0.0))
  const NADIR: Mat := Mat(Vec(0.0, 1.0, 0.0), Vec(-1.0, 0.0, 0.0), Vec(0.0, 0.0, 1.0))

  lemma UnitProducts()
    ensures Times(0.0, 0.0) == Times(0.0, 1.0) == Times(1.0, 0.0) == Times(-1.0, 0.0) == Times(0.0, -1.0) == 0.0
    ensures Times(1.0, 1.0) == Times(-1.0, -1.0) == 1.0 && Times(1.0, -1.0) == Times(-1.0, 1.0) == -1.0
  {
    hide Times;
    TimesOfUnits(0.0);
    TimesOfUnits(1.0);
    TimesOfUnits(-1.0);
  }

  lemma MountProper(m: Mat)
    requires m == NOSE || m == NADIR
    ensures Proper(m)
  {
    hide Times;
    UnitProducts();
  }

  /** ECEF to camera; matrix products associate to the left. */
  function EcefToCamera(lat: Angle, lon: Angle, y: Angle, p: Angle, r: Angle, mount: Mat): Mat {
    Mul(Mul(mount, Transpose(NedFromBody(y, p, r))), Transpose(EcefFromNed(lat, lon)))
  }

  /** The composed camera matrix is a proper rotation, whatever the place and the
      attitude, for any mount that is one. */
  lemma CameraProper(lat: Angle, lon: Angle, y: Angle, p: Angle, r: Angle, mount: Mat)
    requires IsAngle(lat) && IsAngle(lon) && IsAngle(y) && IsAngle(p) && IsAngle(r) && Proper(mount)
    ensures Proper(EcefToCamera(lat, lon, y, p, r, mount))
  {
    hide Proper, IsAngle, Mul, Transpose, EcefFromNed, NedFromBody;
    FramesProper(lat, lon, y, p, r);
    TransposeProper(NedFromBody(y, p, r));
    TransposeProper(EcefFromNed(lat, lon));
    MulProper(mount, Transpose(NedFromBody(y, p, r)));
    MulProper(Mul(mount, Transpose(NedFromBody(y, p, r))), Transpose(EcefFromNed(lat, lon)));
  }

  /** Both mounts the module offers are. */
  lemma CamerasProper(lat: Angle, lon: Angle, y: Angle, p: Angle, r: Angle)
    requires IsAngle(lat) && IsAngle(lon) && IsAngle(y) && IsAngle(p) && IsAngle(r)
    ensures Proper(EcefToCamera(lat, lon, y, p, r, NOSE)) && Proper(EcefToCamera(lat, lon, y, p, r, NADIR))
  {
    hide Proper, IsAngle, EcefToCamera;
    MountProper(NOSE);
    MountProper(NADIR);
    CameraProper(lat, lon, y, p, r, NOSE);
    CameraProper(lat, lon, y, p, r, NADIR);
  }

  /** A body direction as seen from ECEF. */
  function EcefOfBody(lat: Angle, lon: Angle, y: Angle, p: Angle, r: Angle, v: Vec): Vec {
    Apply(EcefFromNed(lat, lon), Apply(NedFromBody(y, p, r), v))
  }

  /** The camera sees the ECEF image of a body direction where its mount puts that
      direction: place and attitude cancel. */
  lemma CameraSeesBody(lat: Angle, lon: Angle, y: Angle, p: Angle, r: Angle, mount: Mat, v: Vec)
    requires IsAngle(lat) && IsAngle(lon) && IsAngle(y) && IsAngle(p) && IsAngle(r)
    ensures Apply(EcefToCamera(lat, lon, y, p, r, mount), EcefOfBody(lat, lon, y, p, r, v)) == Apply(mount, v)
  {
    hide Proper, IsAngle, Mul, Transpose, EcefFromNed, NedFromBody, Apply;
    var e, b := EcefFromNed(lat, lon), NedFromBody(y, p, r);
    FramesProper(lat, lon, y, p, r);
    ApplyOfMul(Mul(mount, Transpose(b)), Transpose(e), Apply(e, Apply(b, v)));
    TransposeUndoes(e, Apply(b, v));
    ApplyOfMul(mount, Transpose(b), Apply(b, v));
    TransposeUndoes(b, v);
  }

  lemma MountAxes()
    ensures Apply(NOSE, AXIS_X) == AXIS_Z && Apply(NOSE, AXIS_Y) == AXIS_X && Apply(NOSE, AXIS_Z) == AXIS_Y
    ensures Apply(NADIR, AXIS_Z) == AXIS_Z && Apply(NADIR, AXIS_Y) == AXIS_X
    ensures Apply(NADIR, AXIS_X) == Vec(0.0, -1.0, 0.0)
  {
    hide Times;
    UnitProducts();
  }

  /** The nose camera looks along body +X, with body +Y to the right and +Z below; the
      nadir camera along body +Z, with body +Y to the right and +X above.  The ECEF
      images of the body's axes come out as exactly those camera axes. */
  lemma Boresights(lat: Angle, lon: Angle, y: Angle, p: Angle, r: Angle)
    requires IsAngle(lat) && IsAngle(lon) && IsAngle(y) && IsAngle(p) && IsAngle(r)
    ensures var nose, nadir := EcefToCamera(lat, lon, y, p, r, NOSE), EcefToCamera(lat, lon, y, p, r, NADIR);
      var forward, right, below :=
        EcefOfBody(lat, lon, y, p, r, AXIS_X), EcefOfBody(lat, lon, y, p, r, AXIS_Y), EcefOfBody(lat, lon, y, p, r, AXIS_Z);
      && Apply(nose, forward) == AXIS_Z && Apply(nose, right) == AXIS_X && Apply(nose, below) == AXIS_Y
      && Apply(nadir, below) == AXIS_Z && Apply(nadir, right) == AXIS_X && Apply(nadir, forward) == Vec(0.0, -1.0, 0.0)
  {
    hide IsAngle, EcefToCamera, EcefOfBody, Apply;
    forall v: Vec
      ensures Apply(EcefToCamera(lat, lon, y, p, r, NOSE), EcefOfBody(lat, lon, y, p, r, v)) == Apply(NOSE, v)
      ensures Apply(EcefToCamera(lat, lon, y, p, r, NADIR), EcefOfBody(lat, lon, y, p, r, v)) == Apply(NADIR, v)
    {
      CameraSeesBody(lat, lon, y, p, r, NOSE, v);
      CameraSeesBody(lat, lon, y, p, r, NADIR, v);
    }
    MountAxes();
  }

  // ----- Velocity

  function NedVelocityToEcef(lat: Angle, lon: Angle, v: Vec): Vec {
    Apply(EcefFromNed(lat, lon), v)
  }

  /** The speed is the same in both frames, and the NED velocity can be had back. */
  lemma VelocityKept(lat: Angle, lon: Angle, v: Vec)
    requires IsAngle(lat) && IsAngle(lon)
    ensures var w := NedVelocityToEcef(lat, lon, v);
      Dot(w, w) == Dot(v, v) && Apply(Transpose(EcefFromNed(lat, lon)), w) == v
  {
    hide Proper, IsAngle, Transpose, EcefFromNed, Apply, Dot;
    FramesProper(lat, lon, lat, lat, lat);
    ApplyKeepsDot(EcefFromNed(lat, lon), v, v);
    TransposeUndoes(EcefFromNed(lat, lon), v);
  }
}

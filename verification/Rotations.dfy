/**
  Vectors, matrices and proper rotations over the reals, by products of vectors
  rather than by components.
 */
module Rotations {

  datatype Vec = Vec(x: real, y: real, z: real)

  /** A matrix by its rows. */
  datatype Mat = Mat(a: Vec, b: Vec, c: Vec)

  /** A product under a name of its own, so that proofs may treat it by its laws. */
  function Times(a: real, b: real): real {
    a * b
  }

  function Dot(u: Vec, v: Vec): real {
    Times(u.x, v.x) + Times(u.y, v.y) + Times(u.z, v.z)
  }

  function Cross(u: Vec, v: Vec): Vec {
    Vec(Times(u.y, v.z) - Times(u.z, v.y), Times(u.z, v.x) - Times(u.x, v.z), Times(u.x, v.y) - Times(u.y, v.x))
  }

  function Add(u: Vec, v: Vec): Vec {
    Vec(u.x + v.x, u.y + v.y, u.z + v.z)
  }

  function Scale(k: real, v: Vec): Vec {
    Vec(Times(k, v.x), Times(k, v.y), Times(k, v.z))
  }

  function Transpose(m: Mat): Mat {
    Mat(Vec(m.a.x, m.b.x, m.c.x), Vec(m.a.y, m.b.y, m.c.y), Vec(m.a.z, m.b.z, m.c.z))
  }

  function Apply(m: Mat, v: Vec): Vec {
    Vec(Dot(m.a, v), Dot(m.b, v), Dot(m.c, v))
  }

  /** The rows of `m` with the components of `v` as weights. */
  function Combine(v: Vec, m: Mat): Vec {
    Add(Add(Scale(v.x, m.a), Scale(v.y, m.b)), Scale(v.z, m.c))
  }

  /** The product: each row of `m` weighs the rows of `n`. */
  function Mul(m: Mat, n: Mat): Mat {
    Mat(Combine(m.a, n), Combine(m.b, n), Combine(m.c, n))
  }

  function Det(m: Mat): real {
    Dot(m.a, Cross(m.b, m.c))
  }

  /** The rows are orthonormal. */
  predicate Orthonormal(m: Mat) {
    && Dot(m.a, m.a) == 1.0 && Dot(m.b, m.b) == 1.0 && Dot(m.c, m.c) == 1.0
    && Dot(m.a, m.b) == 0.0 && Dot(m.b, m.c) == 0.0 && Dot(m.c, m.a) == 0.0
  }

  predicate Proper(m: Mat) {
    Orthonormal(m) && Det(m) == 1.0
  }

  /** The same, stated so that products of rotations are easy: each row is the
      cross product of the other two. */
  predicate RightHanded(m: Mat) {
    && Orthonormal(m)
    && Cross(m.a, m.b) == m.c && Cross(m.b, m.c) == m.a && Cross(m.c, m.a) == m.b
  }

  // ----- The laws of products

  lemma TimesCommutes(a: real, b: real)
    ensures Times(a, b) == Times(b, a)
  {}

  lemma TimesOfSum(a: real, b: real, c: real)
    ensures Times(a + b, c) == Times(a, c) + Times(b, c) && Times(c, a + b) == Times(c, a) + Times(c, b)
  {}

  lemma TimesOfDifference(a: real, b: real, c: real)
    ensures Times(a - b, c) == Times(a, c) - Times(b, c) && Times(c, a - b) == Times(c, a) - Times(c, b)
  {}

  lemma TimesOfTimes(a: real, b: real, c: real)
    ensures Times(Times(a, b), c) == Times(a, Times(b, c))
  {}

  lemma TimesOfNegative(a: real, b: real)
    ensures Times(a, -b) == -Times(a, b) == Times(-a, b)
  {}

  lemma TimesOfUnits(a: real)
    ensures Times(1.0, a) == Times(a, 1.0) == a && Times(-1.0, a) == -a && Times(0.0, a) == Times(a, 0.0) == 0.0
  {}

  // ----- Vector algebra

  lemma DotCommutes(u: Vec, v: Vec)
    ensures Dot(u, v) == Dot(v, u)
  {
    hide Times;
    TimesCommutes(u.x, v.x);
    TimesCommutes(u.y, v.y);
    TimesCommutes(u.z, v.z);
  }

  lemma DotOfSum(u: Vec, v: Vec, w: Vec)
    ensures Dot(Add(u, v), w) == Dot(u, w) + Dot(v, w)
  {
    hide Times;
    TimesOfSum(u.x, v.x, w.x);
    TimesOfSum(u.y, v.y, w.y);
    TimesOfSum(u.z, v.z, w.z);
  }

  lemma DotOfScaled(k: real, u: Vec, w: Vec)
    ensures Dot(Scale(k, u), w) == Times(k, Dot(u, w))
  {
    hide Times;
    TimesOfTimes(k, u.x, w.x);
    TimesOfTimes(k, u.y, w.y);
    TimesOfTimes(k, u.z, w.z);
    TimesOfSum(Times(u.x, w.x) + Times(u.y, w.y), Times(u.z, w.z), k);
    TimesOfSum(Times(u.x, w.x), Times(u.y, w.y), k);
  }

  lemma DotOfCombine(v: Vec, m: Mat, w: Vec)
    ensures Dot(Combine(v, m), w) == Dot(v, Vec(Dot(m.a, w), Dot(m.b, w), Dot(m.c, w)))
  {
    hide Times, Add, Scale;
    DotOfSum(Add(Scale(v.x, m.a), Scale(v.y, m.b)), Scale(v.z, m.c), w);
    DotOfSum(Scale(v.x, m.a), Scale(v.y, m.b), w);
    DotOfScaled(v.x, m.a, w);
    DotOfScaled(v.y, m.b, w);
    DotOfScaled(v.z, m.c, w);
  }

  lemma DotWithUnits(v: Vec)
    ensures Dot(v, Vec(1.0, 0.0, 0.0)) == v.x && Dot(v, Vec(0.0, 1.0, 0.0)) == v.y && Dot(v, Vec(0.0, 0.0, 1.0)) == v.z
  {}

  lemma RowsOfCombine(m: Mat, v: Vec)
    requires Orthonormal(m)
    ensures Dot(Combine(v, m), m.a) == v.x && Dot(Combine(v, m), m.b) == v.y && Dot(Combine(v, m), m.c) == v.z
  {
    hide Combine, Dot;
    DotOfCombine(v, m, m.a);
    DotOfCombine(v, m, m.b);
    DotOfCombine(v, m, m.c);
    DotCommutes(m.a, m.b);
    DotCommutes(m.b, m.c);
    DotCommutes(m.c, m.a);
    DotWithUnits(v);
  }

  /** Weighing orthonormal rows keeps the dot product. */
  lemma CombineKeepsDot(m: Mat, u: Vec, v: Vec)
    requires Orthonormal(m)
    ensures Dot(Combine(u, m), Combine(v, m)) == Dot(u, v)
  {
    hide Combine, Dot;
    RowsOfCombine(m, v);
    DotOfCombine(u, m, Combine(v, m));
    DotCommutes(m.a, Combine(v, m));
    DotCommutes(m.b, Combine(v, m));
    DotCommutes(m.c, Combine(v, m));
  }

  lemma ScaleOfSum(k: real, u: Vec, v: Vec)
    ensures Scale(k, Add(u, v)) == Add(Scale(k, u), Scale(k, v))
  {
    hide Times;
    TimesOfSum(u.x, v.x, k);
    TimesOfSum(u.y, v.y, k);
    TimesOfSum(u.z, v.z, k);
  }

  lemma ScaleTwice(j: real, k: real, v: Vec)
    ensures Scale(j, Scale(k, v)) == Scale(Times(j, k), v)
  {
    hide Times;
    TimesOfTimes(j, k, v.x);
    TimesOfTimes(j, k, v.y);
    TimesOfTimes(j, k, v.z);
  }

  lemma ScaleDifference(i: real, j: real, v: Vec)
    ensures Scale(i - j, v) == Add(Scale(i, v), Scale(-j, v))
  {
    hide Times;
    TimesOfSum(i, -j, v.x);
    TimesOfSum(i, -j, v.y);
    TimesOfSum(i, -j, v.z);
    assert i - j == i + -j;
  }

  lemma CrossOfSum(u: Vec, v: Vec, w: Vec)
    ensures Cross(Add(u, v), w) == Add(Cross(u, w), Cross(v, w))
  {
    hide Times;
    TimesOfSum(u.x, v.x, w.y);
    TimesOfSum(u.x, v.x, w.z);
    TimesOfSum(u.y, v.y, w.x);
    TimesOfSum(u.y, v.y, w.z);
    TimesOfSum(u.z, v.z, w.x);
    TimesOfSum(u.z, v.z, w.y);
  }

  lemma CrossOfScaled(k: real, u: Vec, w: Vec)
    ensures Cross(Scale(k, u), w) == Scale(k, Cross(u, w))
  {
    hide Times;
    MinorOfScaled(k, u.y, w.z, u.z, w.y);
    MinorOfScaled(k, u.z, w.x, u.x, w.z);
    MinorOfScaled(k, u.x, w.y, u.y, w.x);
  }

  lemma MinorOfScaled(k: real, a: real, p: real, c: real, q: real)
    ensures Times(Times(k, a), p) - Times(Times(k, c), q) == Times(k, Times(a, p) - Times(c, q))
  {
    hide Times;
    TimesOfTimes(k, a, p);
    TimesOfTimes(k, c, q);
    TimesOfDifference(Times(a, p), Times(c, q), k);
  }

  lemma CrossTurns(u: Vec, v: Vec)
    ensures Cross(u, v) == Scale(-1.0, Cross(v, u))
  {
    hide Times;
    MinorTurns(u.y, v.z, u.z, v.y);
    MinorTurns(u.z, v.x, u.x, v.z);
    MinorTurns(u.x, v.y, u.y, v.x);
  }

  lemma MinorTurns(a: real, b: real, c: real, d: real)
    ensures Times(a, b) - Times(c, d) == Times(-1.0, Times(d, c) - Times(b, a))
  {
    hide Times;
    TimesCommutes(a, b);
    TimesCommutes(c, d);
    TimesOfUnits(Times(d, c) - Times(b, a));
  }

  lemma CrossOfSelf(u: Vec)
    ensures Cross(u, u) == Vec(0.0, 0.0, 0.0)
  {
    hide Times;
    TimesCommutes(u.x, u.y);
    TimesCommutes(u.y, u.z);
    TimesCommutes(u.z, u.x);
  }

  lemma CrossOfCombine(v: Vec, m: Mat, w: Vec)
    ensures Cross(Combine(v, m), w) == Combine(v, Mat(Cross(m.a, w), Cross(m.b, w), Cross(m.c, w)))
  {
    hide Cross, Add, Scale;
    CrossOfSum(Add(Scale(v.x, m.a), Scale(v.y, m.b)), Scale(v.z, m.c), w);
    CrossOfSum(Scale(v.x, m.a), Scale(v.y, m.b), w);
    CrossOfScaled(v.x, m.a, w);
    CrossOfScaled(v.y, m.b, w);
    CrossOfScaled(v.z, m.c, w);
  }

  lemma CrossRight(u: Vec, v: Vec, m: Mat)
    ensures Cross(u, Combine(v, m)) == Combine(v, Mat(Cross(u, m.a), Cross(u, m.b), Cross(u, m.c)))
  {
    hide Cross, Add, Scale;
    CrossTurns(u, Combine(v, m));
    CrossOfCombine(v, m, u);
    var p, q, r := Cross(m.a, u), Cross(m.b, u), Cross(m.c, u);
    ScaleOfSum(-1.0, Add(Scale(v.x, p), Scale(v.y, q)), Scale(v.z, r));
    ScaleOfSum(-1.0, Scale(v.x, p), Scale(v.y, q));
    TurnScaled(v.x, u, m.a);
    TurnScaled(v.y, u, m.b);
    TurnScaled(v.z, u, m.c);
  }

  lemma TurnScaled(k: real, u: Vec, w: Vec)
    ensures Scale(-1.0, Scale(k, Cross(w, u))) == Scale(k, Cross(u, w))
  {
    hide Cross, Scale, Times;
    CrossTurns(u, w);
    ScaleTwice(-1.0, k, Cross(w, u));
    ScaleTwice(k, -1.0, Cross(w, u));
    TimesCommutes(k, -1.0);
  }

  // The nine products of the rows with one another.
  lemma RowProducts(m: Mat)
    requires RightHanded(m)
    ensures Cross(m.a, m.a) == Cross(m.b, m.b) == Cross(m.c, m.c) == Vec(0.0, 0.0, 0.0)
    ensures Cross(m.b, m.a) == Scale(-1.0, m.c) && Cross(m.c, m.b) == Scale(-1.0, m.a)
    ensures Cross(m.a, m.c) == Scale(-1.0, m.b)
  {
    hide Cross, Scale, Orthonormal;
    CrossOfSelf(m.a);
    CrossOfSelf(m.b);
    CrossOfSelf(m.c);
    CrossTurns(m.b, m.a);
    CrossTurns(m.c, m.b);
    CrossTurns(m.a, m.c);
  }

  // A row crossed with a weighing of right-handed rows.
  lemma RowCrossCombine(m: Mat, v: Vec)
    requires RightHanded(m)
    ensures Cross(m.a, Combine(v, m)) == Add(Scale(v.y, m.c), Scale(-v.z, m.b))
    ensures Cross(m.b, Combine(v, m)) == Add(Scale(v.z, m.a), Scale(-v.x, m.c))
    ensures Cross(m.c, Combine(v, m)) == Add(Scale(v.x, m.b), Scale(-v.y, m.a))
  {
    hide Cross, Orthonormal, Scale;
    RowProducts(m);
    CrossRight(m.a, v, m);
    CrossRight(m.b, v, m);
    CrossRight(m.c, v, m);
    ScaleSpecial(v.x, m.c);
    ScaleSpecial(v.y, m.a);
    ScaleSpecial(v.z, m.b);
  }

  lemma ScaleSpecial(k: real, v: Vec)
    ensures Scale(k, Vec(0.0, 0.0, 0.0)) == Vec(0.0, 0.0, 0.0) && Scale(k, Scale(-1.0, v)) == Scale(-k, v)
  {
    hide Times, Scale;
    ScaleTwice(k, -1.0, v);
    TimesOfUnits(k);
    TimesCommutes(k, -1.0);
    ScaleZero(k);
  }

  lemma ScaleZero(k: real)
    ensures Scale(k, Vec(0.0, 0.0, 0.0)) == Vec(0.0, 0.0, 0.0)
  {}

  lemma ScalePair(k: real, i: real, p: Vec, j: real, q: Vec)
    ensures Scale(k, Add(Scale(i, p), Scale(-j, q))) == Add(Scale(Times(k, i), p), Scale(-Times(k, j), q))
  {
    hide Add, Scale, Times;
    ScaleOfSum(k, Scale(i, p), Scale(-j, q));
    ScaleTwice(k, i, p);
    ScaleTwice(k, -j, q);
    TimesOfNegative(k, j);
  }

  // The weighing of the three products above, rearranged row by row.
  lemma CombineThree(m: Mat, u: Vec, v: Vec)
    ensures Add(Add(Scale(u.x, Add(Scale(v.y, m.c), Scale(-v.z, m.b))),
                    Scale(u.y, Add(Scale(v.z, m.a), Scale(-v.x, m.c)))),
                Scale(u.z, Add(Scale(v.x, m.b), Scale(-v.y, m.a)))) == Combine(Cross(u, v), m)
  {
    hide Scale, Times;
    ScalePair(u.x, v.y, m.c, v.z, m.b);
    ScalePair(u.y, v.z, m.a, v.x, m.c);
    ScalePair(u.z, v.x, m.b, v.y, m.a);
    ScaleDifference(Times(u.y, v.z), Times(u.z, v.y), m.a);
    ScaleDifference(Times(u.z, v.x), Times(u.x, v.z), m.b);
    ScaleDifference(Times(u.x, v.y), Times(u.y, v.x), m.c);
  }

  /** Weighing right-handed rows keeps the cross product. */
  lemma CombineKeepsCross(m: Mat, u: Vec, v: Vec)
    requires RightHanded(m)
    ensures Cross(Combine(u, m), Combine(v, m)) == Combine(Cross(u, v), m)
  {
    hide Cross, Add, Scale, Orthonormal;
    CrossOfCombine(u, m, Combine(v, m));
    RowCrossCombine(m, v);
    CombineThree(m, u, v);
  }

  // ----- Proper rotations

  lemma CrossLength(u: Vec, v: Vec)
    ensures Dot(Cross(u, v), Cross(u, v)) == Dot(u, u) * Dot(v, v) - Dot(u, v) * Dot(u, v)
  {}

  lemma PositiveProduct(a: real, b: real)
    requires a > 0.0 && b > 0.0
    ensures Times(a, b) > 0.0
  {}

  lemma SquarePositive(x: real)
    ensures Times(x, x) >= 0.0 && (Times(x, x) == 0.0 ==> x == 0.0)
  {
    hide Times;
    if x > 0.0 {
      PositiveProduct(x, x);
    } else if x < 0.0 {
      PositiveProduct(-x, -x);
      TimesOfNegative(x, x);
      TimesOfNegative(-x, x);
    } else {
      TimesOfUnits(x);
    }
  }

  lemma AllZero(p: real, q: real, r: real)
    requires p >= 0.0 && q >= 0.0 && r >= 0.0 && p + q + r == 0.0
    ensures p == 0.0 && q == 0.0 && r == 0.0
  {}

  /** Unit vectors whose dot product is one are the same. */
  lemma UnitsEqual(u: Vec, v: Vec)
    requires Dot(u, u) == 1.0 && Dot(v, v) == 1.0 && Dot(u, v) == 1.0
    ensures u == v
  {
    hide Times;
    var x, y, z := u.x - v.x, u.y - v.y, u.z - v.z;
    SquareOfDifference(u.x, v.x);
    SquareOfDifference(u.y, v.y);
    SquareOfDifference(u.z, v.z);
    SquarePositive(x);
    SquarePositive(y);
    SquarePositive(z);
    AllZero(Times(x, x), Times(y, y), Times(z, z));
  }

  lemma SquareOfDifference(a: real, b: real)
    ensures Times(a - b, a - b) == Times(a, a) - 2.0 * Times(a, b) + Times(b, b)
  {
    hide Times;
    TimesOfDifference(a, b, a - b);
    TimesOfDifference(a, b, a);
    TimesOfDifference(a, b, b);
    TimesCommutes(a, b);
  }

  function Triple(a: real, b: real, c: real): real {
    Times(a, Times(b, c))
  }

  lemma TripleTurns(a: real, b: real, c: real)
    ensures Triple(a, b, c) == Triple(b, c, a)
  {
    hide Times;
    TimesCommutes(a, Times(b, c));
    TimesOfTimes(b, c, a);
  }

  lemma DotOfCross(u: Vec, v: Vec, w: Vec)
    ensures Dot(u, Cross(v, w)) ==
      Triple(u.x, v.y, w.z) - Triple(u.x, v.z, w.y) + Triple(u.y, v.z, w.x) - Triple(u.y, v.x, w.z)
      + Triple(u.z, v.x, w.y) - Triple(u.z, v.y, w.x)
  {
    hide Times;
    TimesOfDifference(Times(v.y, w.z), Times(v.z, w.y), u.x);
    TimesOfDifference(Times(v.z, w.x), Times(v.x, w.z), u.y);
    TimesOfDifference(Times(v.x, w.y), Times(v.y, w.x), u.z);
  }

  // The determinant may be taken along any row.
  lemma DotCrossTurns(u: Vec, v: Vec, w: Vec)
    ensures Dot(u, Cross(v, w)) == Dot(v, Cross(w, u))
  {
    hide Triple, Dot, Cross;
    DotOfCross(u, v, w);
    DotOfCross(v, w, u);
    TripleTurns(u.x, v.y, w.z);
    TripleTurns(u.x, v.z, w.y);
    TripleTurns(u.y, v.z, w.x);
    TripleTurns(u.y, v.x, w.z);
    TripleTurns(u.z, v.x, w.y);
    TripleTurns(u.z, v.y, w.x);
  }

  lemma DetTurns(m: Mat)
    ensures Det(m) == Dot(m.b, Cross(m.c, m.a)) == Dot(m.c, Cross(m.a, m.b))
  {
    hide Dot, Cross;
    DotCrossTurns(m.a, m.b, m.c);
    DotCrossTurns(m.b, m.c, m.a);
  }

  lemma ThirdRow(u: Vec, v: Vec, w: Vec)
    requires Dot(u, u) == 1.0 && Dot(v, v) == 1.0 && Dot(w, w) == 1.0 && Dot(u, v) == 0.0
    requires Dot(w, Cross(u, v)) == 1.0
    ensures Cross(u, v) == w
  {
    hide Dot, Cross;
    CrossLength(u, v);
    UnitsEqual(w, Cross(u, v));
  }

  /** A matrix is a proper rotation exactly when each of its rows is the cross
      product of the other two, and they are orthonormal. */
  lemma ProperIsRightHanded(m: Mat)
    ensures Proper(m) <==> RightHanded(m)
  {
    hide Dot, Cross;
    DetTurns(m);
    if Proper(m) {
      ThirdRow(m.a, m.b, m.c);
      ThirdRow(m.b, m.c, m.a);
      ThirdRow(m.c, m.a, m.b);
    }
  }

  /** Products of proper rotations are proper rotations. */
  lemma MulProper(m: Mat, n: Mat)
    requires Proper(m) && Proper(n)
    ensures Proper(Mul(m, n))
  {
    hide Dot, Cross, Combine, Det;
    ProperIsRightHanded(m);
    ProperIsRightHanded(n);
    CombineKeepsDot(n, m.a, m.a);
    CombineKeepsDot(n, m.b, m.b);
    CombineKeepsDot(n, m.c, m.c);
    CombineKeepsDot(n, m.a, m.b);
    CombineKeepsDot(n, m.b, m.c);
    CombineKeepsDot(n, m.c, m.a);
    CombineKeepsCross(n, m.a, m.b);
    CombineKeepsCross(n, m.b, m.c);
    CombineKeepsCross(n, m.c, m.a);
    ProperIsRightHanded(Mul(m, n));
  }

  // The first two columns' cross product; each component is a minor of two rows.
  lemma ColumnCross(a: Vec, b: Vec, c: Vec)
    requires RightHanded(Mat(a, b, c))
    ensures Cross(Vec(a.x, b.x, c.x), Vec(a.y, b.y, c.y)) == Vec(a.z, b.z, c.z)
  {
    hide Orthonormal, Times;
    TimesCommutes(b.y, c.x);
    TimesCommutes(c.y, a.x);
    TimesCommutes(a.y, b.x);
  }

  // The first column against itself and against the second, expanding each entry
  // of the latter as a minor of two rows: a determinant, and one with a column
  // twice.
  lemma ColumnDots(a: Vec, b: Vec, c: Vec)
    requires RightHanded(Mat(a, b, c))
    ensures Dot(Vec(a.x, b.x, c.x), Vec(a.x, b.x, c.x)) == 1.0
    ensures Dot(Vec(a.x, b.x, c.x), Vec(a.y, b.y, c.y)) == 0.0
  {
    hide Times, Triple;
    DotOfCross(a, b, c);
    MinorTriple(a.x, b.y, c.z, b.z, c.y);
    MinorTriple(b.x, c.y, a.z, c.z, a.y);
    MinorTriple(c.x, a.y, b.z, a.z, b.y);
    MinorTriple(a.x, b.z, c.x, b.x, c.z);
    MinorTriple(b.x, c.z, a.x, c.x, a.z);
    MinorTriple(c.x, a.z, b.x, a.x, b.z);
    TripleTurns(a.z, b.x, c.y);
    TripleTurns(a.y, b.x, c.z);
    TripleTurns(c.x, a.y, b.z);
    TripleTurns(c.x, a.z, b.y);
    TripleTurns(c.x, a.x, b.z);
    TripleTurns(a.x, b.x, c.z);
    TripleTurns(b.x, c.x, a.z);
  }

  lemma MinorTriple(k: real, a: real, b: real, c: real, d: real)
    ensures Times(k, Times(a, b) - Times(c, d)) == Triple(k, a, b) - Triple(k, c, d)
  {
    hide Times;
    TimesOfDifference(Times(a, b), Times(c, d), k);
  }

  // Turning the components round turns a right-handed matrix into another.
  function Turn(v: Vec): Vec {
    Vec(v.y, v.z, v.x)
  }

  lemma TurnRightHanded(m: Mat)
    requires RightHanded(m)
    ensures RightHanded(Mat(Turn(m.a), Turn(m.b), Turn(m.c)))
  {
    hide Dot, Cross, Turn;
    TurnKeeps(m.a, m.b);
    TurnKeeps(m.b, m.c);
    TurnKeeps(m.c, m.a);
    TurnKeeps(m.a, m.a);
    TurnKeeps(m.b, m.b);
    TurnKeeps(m.c, m.c);
  }

  lemma TurnKeeps(u: Vec, v: Vec)
    ensures Dot(Turn(u), Turn(v)) == Dot(u, v) && Cross(Turn(u), Turn(v)) == Turn(Cross(u, v))
  {}

  /** So are their transposes, the inverse rotations. */
  lemma TransposeProper(m: Mat)
    requires Proper(m)
    ensures Proper(Transpose(m))
  {
    ProperIsRightHanded(m);
    TransposeRightHanded(m);
    ProperIsRightHanded(Transpose(m));
  }

  lemma TransposeRightHanded(m: Mat)
    requires RightHanded(m)
    ensures RightHanded(Transpose(m))
  {
    hide RightHanded, Cross;
    ColumnsOf(m.a, m.b, m.c);
    TurnRightHanded(m);
    ColumnsOf(Turn(m.a), Turn(m.b), Turn(m.c));
    TurnRightHanded(Mat(Turn(m.a), Turn(m.b), Turn(m.c)));
    ColumnsOf(Turn(Turn(m.a)), Turn(Turn(m.b)), Turn(Turn(m.c)));
    FromColumns(Transpose(m));
  }

  lemma ColumnsOf(a: Vec, b: Vec, c: Vec)
    requires RightHanded(Mat(a, b, c))
    ensures var x, y, z := Vec(a.x, b.x, c.x), Vec(a.y, b.y, c.y), Vec(a.z, b.z, c.z);
      Dot(x, x) == 1.0 && Dot(x, y) == 0.0 && Cross(x, y) == z
  {
    hide Cross, Orthonormal;
    ColumnDots(a, b, c);
    ColumnCross(a, b, c);
  }

  lemma FromColumns(t: Mat)
    requires Dot(t.a, t.a) == Dot(t.b, t.b) == Dot(t.c, t.c) == 1.0
    requires Dot(t.a, t.b) == Dot(t.b, t.c) == Dot(t.c, t.a) == 0.0
    requires Cross(t.a, t.b) == t.c && Cross(t.b, t.c) == t.a && Cross(t.c, t.a) == t.b
    ensures RightHanded(t)
  {}

  // ----- Applying rotations

  lemma ApplyIsCombine(m: Mat, v: Vec)
    ensures Apply(m, v) == Combine(v, Transpose(m))
  {}

  /** A proper rotation keeps dot products, so lengths. */
  lemma ApplyKeepsDot(m: Mat, u: Vec, v: Vec)
    requires Proper(m)
    ensures Dot(Apply(m, u), Apply(m, v)) == Dot(u, v)
  {
    hide Dot, Combine, Apply, Transpose, Det;
    TransposeProper(m);
    ApplyIsCombine(m, u);
    ApplyIsCombine(m, v);
    CombineKeepsDot(Transpose(m), u, v);
  }

  /** Its transpose undoes it. */
  lemma TransposeUndoes(m: Mat, v: Vec)
    requires Proper(m)
    ensures Apply(Transpose(m), Apply(m, v)) == v
  {
    hide Dot, Combine, Transpose, Det;
    TransposeProper(m);
    ApplyIsCombine(m, v);
    RowsOfCombine(Transpose(m), v);
    var w, t := Apply(m, v), Transpose(m);
    DotCommutes(t.a, w);
    DotCommutes(t.b, w);
    DotCommutes(t.c, w);
  }

  lemma ApplyOfMul(m: Mat, n: Mat, v: Vec)
    ensures Apply(Mul(m, n), v) == Apply(m, Apply(n, v))
  {
    hide Dot, Combine;
    DotOfCombine(m.a, n, v);
    DotOfCombine(m.b, n, v);
    DotOfCombine(m.c, n, v);
    DotInComponents(m.a, Apply(n, v));
    DotInComponents(m.b, Apply(n, v));
    DotInComponents(m.c, Apply(n, v));
  }

  lemma DotInComponents(u: Vec, v: Vec)
    ensures Dot(u, v) == u.x * v.x + u.y * v.y + u.z * v.z
  {}
}

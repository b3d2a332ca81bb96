/**
  Left folds, iterates and concatenated maps over arbitrary types, with the
  laws that carry a one-step fact to a whole run.
 */
module Folds {

  /** Run `step` over `es` from the left, starting in `s`. */
  function Fold<S, E>(step: (S, E) -> S, s: S, es: seq<E>): S {
    if es == [] then s else step(Fold(step, s, es[..|es| - 1]), es[|es| - 1])
  }

  function Iterate<S>(f: S -> S, s: S, n: nat): S
    decreases n
  {
    if n == 0 then s else f(Iterate(f, s, n - 1))
  }

  /** Element by element combination of two sequences. */
  function Zip<E>(mix: (E, E) -> E, es: seq<E>, fs: seq<E>): (gs: seq<E>)
    requires |es| == |fs|
    ensures |gs| == |es|
    ensures forall i :: 0 <= i < |gs| ==> gs[i] == mix(es[i], fs[i])
  {
    seq(|es|, i requires 0 <= i < |es| => mix(es[i], fs[i]))
  }

  function FlatMap<E, F>(f: E -> seq<F>, es: seq<E>): seq<F> {
    if es == [] then [] else FlatMap(f, es[..|es| - 1]) + f(es[|es| - 1])
  }

  // ----- One-step facts, as named predicates

  /** `h` maps a step of `step` to a step of `step'`. */
  ghost predicate Commutes<S(!new), T, E(!new)>(h: S -> T, step: (S, E) -> S, step': (T, E) -> T) {
    forall x, e :: h(step(x, e)) == step'(h(x), e)
  }

  /** `step` is linear in state and element together. */
  ghost predicate LinearStep<S(!new), E(!new)>(step: (S, E) -> S, add: (S, S) -> S, mix: (E, E) -> E) {
    forall x, y, e, f :: step(add(x, y), mix(e, f)) == add(step(x, e), step(y, f))
  }

  ghost predicate Keeps<S(!new)>(f: S -> S, p: S -> bool) {
    forall x :: p(x) ==> p(f(x))
  }

  /** Folding in `e` is a plain step. */
  ghost predicate Neutral<S(!new), E>(feed: (S, E) -> S, step: S -> S, e: E) {
    forall x :: feed(x, e) == step(x)
  }

  ghost predicate FixedLength<E(!new), F>(f: E -> seq<F>, k: nat) {
    forall e :: |f(e)| == k
  }

  ghost predicate OneToOne<E(!new), F(!new)>(f: E -> F) {
    forall x, y :: f(x) == f(y) ==> x == y
  }

  /** The image of a mixture is the mixture of the images. */
  ghost predicate Distributes<E(!new), F>(f: E -> seq<F>, mix: (E, E) -> E, mix': (F, F) -> F) {
    forall x, y :: |f(x)| == |f(y)| && f(mix(x, y)) == Zip(mix', f(x), f(y))
  }

  /** Reading `bit` of a sum is mixing the bits read of the summands. */
  ghost predicate Bitwise<S(!new)>(bit: (S, nat) -> bool, add: (S, S) -> S, mix: (bool, bool) -> bool) {
    forall x, y, k: nat :: bit(add(x, y), k) == mix(bit(x, k), bit(y, k))
  }

  /** Feeding an element in front of a packed run is packing the element too. */
  ghost predicate Absorbs<S(!new), E(!new)>(
      feed: (S, E) -> S, step: S -> S, add: (S, S) -> S, push: (E, S) -> S, fits: (S, nat) -> bool, cap: nat) {
    && (forall p, e, n: nat | n < cap && fits(p, n) :: fits(push(e, p), n + 1))
    && forall x, p, e, n: nat | n < cap && fits(p, n) :: add(feed(x, e), p) == step(add(x, push(e, p)))
  }

  // ----- The laws

  lemma {:induction false} FoldConcat<S, E>(step: (S, E) -> S, s: S, es: seq<E>, fs: seq<E>)
    ensures Fold(step, s, es + fs) == Fold(step, Fold(step, s, es), fs)
    decreases |fs|
  {
    if fs == [] {
      assert es + fs == es;
    } else {
      assert (es + fs)[..|es + fs| - 1] == es + fs[..|fs| - 1];
      FoldConcat(step, s, es, fs[..|fs| - 1]);
    }
  }

  lemma FoldFirst<S, E>(step: (S, E) -> S, s: S, es: seq<E>)
    requires es != []
    ensures Fold(step, s, es) == Fold(step, step(s, es[0]), es[1..])
  {
    assert es == [es[0]] + es[1..];
    FoldConcat(step, s, [es[0]], es[1..]);
    assert Fold(step, s, [es[0]][..0]) == s;
  }

  lemma {:induction false} IterateFirst<S>(f: S -> S, s: S, n: nat)
    ensures Iterate(f, f(s), n) == Iterate(f, s, n + 1)
  {
    if n > 0 {
      IterateFirst(f, s, n - 1);
    }
  }

  /** A map that commutes with one step commutes with the run. */
  lemma {:induction false} FoldCommutes<S(!new), T, E(!new)>(
      h: S -> T, step: (S, E) -> S, step': (T, E) -> T, s: S, es: seq<E>)
    requires Commutes(h, step, step')
    ensures h(Fold(step, s, es)) == Fold(step', h(s), es)
    decreases |es|
  {
    if es != [] {
      FoldCommutes(h, step, step', s, es[..|es| - 1]);
    }
  }

  /** A step that is linear in state and element together makes a linear run. */
  lemma {:induction false} FoldLinear<S(!new), E(!new)>(
      step: (S, E) -> S, add: (S, S) -> S, mix: (E, E) -> E, a: S, b: S, es: seq<E>, fs: seq<E>)
    requires |es| == |fs|
    requires LinearStep(step, add, mix)
    ensures Fold(step, add(a, b), Zip(mix, es, fs)) == add(Fold(step, a, es), Fold(step, b, fs))
    decreases |es|
  {
    if es != [] {
      var n := |es| - 1;
      assert Zip(mix, es, fs)[..n] == Zip(mix, es[..n], fs[..n]);
      FoldLinear(step, add, mix, a, b, es[..n], fs[..n]);
    }
  }

  lemma {:induction false} FlatMapConcat<E, F>(f: E -> seq<F>, a: seq<E>, b: seq<E>)
    ensures FlatMap(f, a + b) == FlatMap(f, a) + FlatMap(f, b)
    decreases |b|
  {
    if b == [] {
      assert a + b == a;
    } else {
      assert (a + b)[..|a + b| - 1] == a + b[..|b| - 1];
      FlatMapConcat(f, a, b[..|b| - 1]);
    }
  }

  lemma {:induction false} FlatMapLength<E(!new), F>(f: E -> seq<F>, k: nat, es: seq<E>)
    requires FixedLength(f, k)
    ensures |FlatMap(f, es)| == k * |es|
    decreases |es|
  {
    if es != [] {
      var n := |es| - 1;
      FlatMapLength(f, k, es[..n]);
      assert k * (n + 1) == k * n + k;
    }
  }

  lemma ZipConcat<E>(mix: (E, E) -> E, a: seq<E>, b: seq<E>, c: seq<E>, d: seq<E>)
    requires |a| == |b| && |c| == |d|
    ensures Zip(mix, a + c, b + d) == Zip(mix, a, b) + Zip(mix, c, d)
  {}

  lemma {:induction false} FlatMapZip<E(!new), F>(
      f: E -> seq<F>, k: nat, mix: (E, E) -> E, mix': (F, F) -> F, a: seq<E>, b: seq<E>)
    requires |a| == |b| && FixedLength(f, k)
    requires Distributes(f, mix, mix')
    ensures |FlatMap(f, a)| == |FlatMap(f, b)|
    ensures FlatMap(f, Zip(mix, a, b)) == Zip(mix', FlatMap(f, a), FlatMap(f, b))
    decreases |a|
  {
    FlatMapLength(f, k, a);
    FlatMapLength(f, k, b);
    if a != [] {
      var n := |a| - 1;
      assert Zip(mix, a, b)[..n] == Zip(mix, a[..n], b[..n]);
      FlatMapZip(f, k, mix, mix', a[..n], b[..n]);
      ZipConcat(mix', FlatMap(f, a[..n]), FlatMap(f, b[..n]), f(a[n]), f(b[n]));
    }
  }

  lemma SplitTail<E>(s: seq<E>, x: seq<E>, t: seq<E>, y: seq<E>)
    requires |x| == |y| && s + x == t + y
    ensures s == t && x == y
  {
    assert |s| == |t|;
    assert (s + x)[..|s|] == s && (t + y)[..|s|] == t;
    assert (s + x)[|s|..] == x && (t + y)[|s|..] == y;
  }

  lemma {:induction false} FlatMapInjective<E(!new), F(!new)>(f: E -> seq<F>, k: nat, a: seq<E>, b: seq<E>)
    requires |a| == |b| && FixedLength(f, k) && OneToOne(f)
    requires FlatMap(f, a) == FlatMap(f, b)
    ensures a == b
    decreases |a|
  {
    if a != [] {
      var n := |a| - 1;
      SplitTail(FlatMap(f, a[..n]), f(a[n]), FlatMap(f, b[..n]), f(b[n]));
      FlatMapInjective(f, k, a[..n], b[..n]);
      assert a == a[..n] + [a[n]] && b == b[..n] + [b[n]];
    }
  }

  /** The first `n` bits of a value, as told by `bit`. */
  function Spread<S>(bit: (S, nat) -> bool, n: nat, s: S): (r: seq<bool>)
    ensures |r| == n
  {
    seq(n, k requires 0 <= k < n => bit(s, k))
  }

  lemma SpreadZip<S(!new)>(bit: (S, nat) -> bool, n: nat, add: (S, S) -> S, mix: (bool, bool) -> bool, a: S, b: S)
    requires Bitwise(bit, add, mix)
    ensures Spread(bit, n, add(a, b)) == Zip(mix, Spread(bit, n, a), Spread(bit, n, b))
  {}

  lemma SpreadAt<S>(bit: (S, nat) -> bool, n: nat, a: S, b: S)
    requires Spread(bit, n, a) == Spread(bit, n, b)
    ensures forall k: nat :: k < n ==> bit(a, k) == bit(b, k)
  {
    forall k: nat | k < n
      ensures bit(a, k) == bit(b, k)
    {
      assert Spread(bit, n, a)[k] == Spread(bit, n, b)[k];
    }
  }

  // ----- The window law

  /** `w` pushed onto `zero`, last element first. */
  function Packed<S, E>(push: (E, S) -> S, zero: S, w: seq<E>): S {
    if w == [] then zero else push(w[0], Packed(push, zero, w[1..]))
  }

  /** Feeding up to `cap` elements is adding them, packed, to the state and then
      taking as many plain steps. */
  lemma {:induction false} WindowLaw<S(!new), E(!new)>(
      feed: (S, E) -> S, step: S -> S, add: (S, S) -> S, push: (E, S) -> S, zero: S,
      fits: (S, nat) -> bool, cap: nat, c: S, w: seq<E>)
    requires |w| <= cap && fits(zero, 0)
    requires (forall x :: add(x, zero) == x) && Absorbs(feed, step, add, push, fits, cap)
    ensures fits(Packed(push, zero, w), |w|)
    ensures Fold(feed, c, w) == Iterate(step, add(c, Packed(push, zero, w)), |w|)
    decreases |w|
  {
    if w != [] {
      var rest := w[1..];
      var p := Packed(push, zero, rest);
      WindowLaw(feed, step, add, push, zero, fits, cap, feed(c, w[0]), rest);
      FoldFirst(feed, c, w);
      IterateFirst(step, add(c, push(w[0], p)), |rest|);
    }
  }

  lemma {:induction false} IterateLinear<S(!new), E(!new)>(
      f: S -> S, step: (S, E) -> S, add: (S, S) -> S, mix: (E, E) -> E, e: E, a: S, b: S, n: nat)
    requires LinearStep(step, add, mix) && Neutral(step, f, e) && mix(e, e) == e
    ensures Iterate(f, add(a, b), n) == add(Iterate(f, a, n), Iterate(f, b, n))
    decreases n
  {
    if n > 0 {
      IterateLinear(f, step, add, mix, e, a, b, n - 1);
      assert step(add(Iterate(f, a, n - 1), Iterate(f, b, n - 1)), mix(e, e))
          == add(step(Iterate(f, a, n - 1), e), step(Iterate(f, b, n - 1), e));
    }
  }

  lemma {:induction false} IterateKeeps<S(!new)>(f: S -> S, p: S -> bool, s: S, n: nat)
    requires p(s) && Keeps(f, p)
    ensures p(Iterate(f, s, n))
    decreases n
  {
    if n > 0 {
      IterateKeeps(f, p, s, n - 1);
    }
  }

  /** Folding neutral elements is iterating the plain step. */
  lemma {:induction false} FoldNeutral<S(!new), E>(feed: (S, E) -> S, step: S -> S, e: E, s: S, es: seq<E>)
    requires Neutral(feed, step, e)
    requires forall i :: 0 <= i < |es| ==> es[i] == e
    ensures Fold(feed, s, es) == Iterate(step, s, |es|)
    decreases |es|
  {
    if es != [] {
      FoldNeutral(feed, step, e, s, es[..|es| - 1]);
    }
  }
}

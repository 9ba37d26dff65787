/**
 * Finite sums of real-valued functions over sets.
 *
 * The ranking engine iterates over Python sets and dicts, whose order is not
 * specified. With exact real arithmetic the order of a sum does not matter,
 * and this module is where that is proved: `SumOver` picks its elements in
 * an arbitrary order, and `SumOverRemove` shows that any element can be
 * taken out first.
 */
module Sums {

  /**
   * The sum of `f(x)` over every `x` in the finite set `s`. The sum is
   * split over two functions so that unfolding `SumOver` once does not yet
   * expose a term `f(x)`: the verifier only sees what `f` is applied to
   * through the lemmas below.
   */
  ghost function SumOver<T>(s: set<T>, f: T -> real): real
    decreases |s|, 1
  {
    SumStep(s, f)
  }

  ghost function SumStep<T>(s: set<T>, f: T -> real): real
    decreases |s|, 0
  {
    if s == {} then 0.0
    else
      var x :| x in s;
      f(x) + SumOver(s - {x}, f)
  }

  /** The empty sum is zero. */
  lemma SumOverEmpty<T>(f: T -> real)
    ensures SumOver({}, f) == 0.0
  {
    assert SumOver({}, f) == SumStep({}, f);
  }

  /** Any element can be split off a sum first. */
  lemma {:induction false} SumOverRemove<T>(s: set<T>, f: T -> real, y: T)
    requires y in s
    ensures SumOver(s, f) == f(y) + SumOver(s - {y}, f)
    decreases |s|
  {
    assert SumOver(s, f) == SumStep(s, f);
    var x :| x in s && SumOver(s, f) == f(x) + SumOver(s - {x}, f);
    if x != y {
      assert s - {x} - {y} == s - {y} - {x};
      SumOverRemove(s - {x}, f, y);
      SumOverRemove(s - {y}, f, x);
    }
  }

  /** Adding a fresh element adds its term. */
  lemma SumOverInsert<T>(s: set<T>, f: T -> real, y: T)
    requires y !in s
    ensures SumOver(s + {y}, f) == SumOver(s, f) + f(y)
  {
    SumOverRemove(s + {y}, f, y);
    assert s + {y} - {y} == s;
  }

  /** Functions that agree on `s` have the same sum over `s`. */
  lemma {:induction false} SumOverExt<T>(s: set<T>, f: T -> real, g: T -> real)
    requires forall x :: x in s ==> f(x) == g(x)
    ensures SumOver(s, f) == SumOver(s, g)
    decreases |s|
  {
    if s != {} {
      var x :| x in s;
      SumOverRemove(s, f, x);
      SumOverRemove(s, g, x);
      SumOverExt(s - {x}, f, g);
    }
  }

  /** The sum of a pointwise sum is the sum of the sums. */
  lemma {:induction false} SumOverAdd<T>(s: set<T>, f: T -> real, g: T -> real, h: T -> real)
    requires forall x :: x in s ==> h(x) == f(x) + g(x)
    ensures SumOver(s, h) == SumOver(s, f) + SumOver(s, g)
    decreases |s|
  {
    if s != {} {
      var x :| x in s;
      SumOverRemove(s, f, x);
      SumOverRemove(s, g, x);
      SumOverRemove(s, h, x);
      SumOverAdd(s - {x}, f, g, h);
    }
  }

  /** The same for three terms. */
  lemma SumOverAdd3<T>(s: set<T>, f: T -> real, g: T -> real, h: T -> real, k: T -> real)
    requires forall x :: x in s ==> k(x) == f(x) + g(x) + h(x)
    ensures SumOver(s, k) == SumOver(s, f) + SumOver(s, g) + SumOver(s, h)
  {
    var fg := (x: T) => f(x) + g(x);
    SumOverAdd(s, f, g, fg);
    SumOverAdd(s, fg, h, k);
  }

  /** A constant factor comes out of a sum. */
  lemma {:induction false} SumOverScale<T>(s: set<T>, f: T -> real, g: T -> real, c: real)
    requires forall x {:trigger g(x)} :: x in s ==> g(x) == c * f(x)
    ensures SumOver(s, g) == c * SumOver(s, f)
    decreases |s|
  {
    if s != {} {
      var x :| x in s;
      var rest := s - {x};
      SumOverRemove(s, f, x);
      SumOverRemove(s, g, x);
      SumOverScale(rest, f, g, c);
    }
  }

  /** Taking `x` out of `s` takes it out of `s * b`. */
  lemma IntersectionRemove<T>(s: set<T>, b: set<T>, x: T)
    requires x in s
    ensures |s * b| == |(s - {x}) * b| + (if x in b then 1 else 0)
  {
    if x in b {
      assert s * b == (s - {x}) * b + {x};
    } else {
      assert s * b == (s - {x}) * b;
    }
  }

  /** The function that is one on `b` and zero elsewhere. */
  function Indicator<T>(b: set<T>): T -> real
  {
    x => if x in b then 1.0 else 0.0
  }

  /** The indicator of `b` sums over `s` to the number of elements `s` and `b` share. */
  lemma {:induction false} SumOverCount<T>(s: set<T>, b: set<T>)
    ensures SumOver(s, Indicator(b)) == |s * b| as real
    decreases |s|
  {
    if s != {} {
      var x :| x in s;
      SumOverRemove(s, Indicator(b), x);
      SumOverCount(s - {x}, b);
      IntersectionRemove(s, b, x);
    } else {
      SumOverEmpty(Indicator(b));
      assert s * b == {};
    }
  }

  /** A function that is `c` on `b` and zero elsewhere sums to `c` times the size of `s * b`. */
  lemma SumOverIndicator<T>(s: set<T>, b: set<T>, f: T -> real, c: real)
    requires forall x :: x in s ==> f(x) == if x in b then c else 0.0
    ensures SumOver(s, f) == c * (|s * b| as real)
  {
    SumOverCount(s, b);
    SumOverScale(s, Indicator(b), f, c);
  }

  /** A function that is zero except at `t` sums to its value at `t` (or zero if `t` is not in `s`). */
  lemma {:induction false} SumOverPoint<T>(s: set<T>, f: T -> real, t: T)
    requires forall x :: x in s && x != t ==> f(x) == 0.0
    ensures SumOver(s, f) == if t in s then f(t) else 0.0
    decreases |s|
  {
    if s != {} {
      var x :| x in s;
      SumOverRemove(s, f, x);
      SumOverPoint(s - {x}, f, t);
    }
  }

  /** Sums of non-negative terms are non-negative. */
  lemma {:induction false} SumOverNonneg<T>(s: set<T>, f: T -> real)
    requires forall x :: x in s ==> f(x) >= 0.0
    ensures SumOver(s, f) >= 0.0
    decreases |s|
  {
    if s != {} {
      var x :| x in s;
      SumOverRemove(s, f, x);
      SumOverNonneg(s - {x}, f);
    }
  }

  /** A sum of non-negative terms is zero exactly when every term is. */
  lemma {:induction false} SumOverZeroIff<T>(s: set<T>, f: T -> real)
    requires forall x :: x in s ==> f(x) >= 0.0
    ensures SumOver(s, f) == 0.0 <==> forall x :: x in s ==> f(x) == 0.0
    decreases |s|
  {
    if s != {} {
      var x :| x in s;
      SumOverRemove(s, f, x);
      SumOverZeroIff(s - {x}, f);
      SumOverNonneg(s - {x}, f);
      forall y | y in s && SumOver(s, f) == 0.0 ensures f(y) == 0.0 {
        if y != x {
          assert y in s - {x};
        }
      }
    }
  }

  /** When `f` is `c` times `w` on `s` and `w` sums to `total`, `f` sums to `c * total`. */
  lemma SumProportional<T>(s: set<T>, f: T -> real, w: T -> real, c: real, total: real, a: real)
    requires forall x {:trigger f(x)} :: x in s ==> f(x) == c * w(x)
    requires SumOver(s, w) == total
    requires c * total == a
    ensures SumOver(s, f) == a
  {
    SumOverScale(s, w, f, c);
  }

  /**
   * Double sums can be taken in either order: `row(x)` sums `k(x)` over
   * `ys`, `col(y)` sums `kt(y)` over `xs`, and `kt` is `k` with its
   * arguments swapped.
   */
  lemma {:induction false} SumOverExchange<A, B>(
    xs: set<A>, ys: set<B>,
    k: A -> B -> real, kt: B -> A -> real,
    row: A -> real, col: B -> real)
    requires forall x, y :: x in xs && y in ys ==> k(x)(y) == kt(y)(x)
    requires forall x :: x in xs ==> row(x) == SumOver(ys, k(x))
    requires forall y :: y in ys ==> col(y) == SumOver(xs, kt(y))
    ensures SumOver(xs, row) == SumOver(ys, col)
    decreases |xs|
  {
    if xs == {} {
      SumOverEmpty(row);
      forall y | y in ys ensures col(y) == 0.0 * col(y) {
        SumOverEmpty(kt(y));
      }
      SumOverScale(ys, col, col, 0.0);
    } else {
      var x :| x in xs;
      var rest := xs - {x};
      var col' := (y: B) => SumOver(rest, kt(y));
      var atX := (y: B) => kt(y)(x);
      forall y | y in ys ensures col(y) == atX(y) + col'(y) {
        SumOverRemove(xs, kt(y), x);
      }
      SumOverAdd(ys, atX, col', col);
      SumOverExt(ys, atX, k(x));
      SumOverRemove(xs, row, x);
      SumOverExchange(rest, ys, k, kt, row, col');
    }
  }
}

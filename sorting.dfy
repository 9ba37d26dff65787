/**
 * Python's `sorted`, as a stable insertion sort over an ordering given as a
 * "may come first" relation, and Python's ordering of strings and tuples.
 *
 * `sorted(xs, key=k, reverse=True)` is modelled as SortBy with
 * `before(x, y) := k(x) >= k(y)`: Python keeps equal keys in their input
 * order also when `reverse` is set, and so does SortBy.
 */
module Sorting {

  /** Every element may come before every later one. */
  predicate SortedBy<T>(xs: seq<T>, before: (T, T) -> bool)
  {
    forall i, j :: 0 <= i < j < |xs| ==> before(xs[i], xs[j])
  }

  ghost predicate Total<T(!new)>(before: (T, T) -> bool)
  {
    forall x, y :: before(x, y) || before(y, x)
  }

  ghost predicate Transitive<T(!new)>(before: (T, T) -> bool)
  {
    forall x, y, z :: before(x, y) && before(y, z) ==> before(x, z)
  }

  /** Puts `x` in front of the first element it may come before. */
  function Insert<T>(x: T, ys: seq<T>, before: (T, T) -> bool): seq<T>
  {
    if ys == [] then [x]
    else if before(x, ys[0]) then [x] + ys
    else [ys[0]] + Insert(x, ys[1..], before)
  }

  /** Stable insertion sort. */
  function SortBy<T>(xs: seq<T>, before: (T, T) -> bool): seq<T>
  {
    if xs == [] then [] else Insert(xs[0], SortBy(xs[1..], before), before)
  }

  lemma {:induction false} InsertPermutes<T>(x: T, ys: seq<T>, before: (T, T) -> bool)
    ensures multiset(Insert(x, ys, before)) == multiset([x] + ys)
  {
    if ys != [] && !before(x, ys[0]) {
      InsertPermutes(x, ys[1..], before);
      assert ys == [ys[0]] + ys[1..];
    }
  }

  /** The result is a permutation of the input. */
  lemma {:induction false} SortByPermutes<T>(xs: seq<T>, before: (T, T) -> bool)
    ensures multiset(SortBy(xs, before)) == multiset(xs)
    ensures |SortBy(xs, before)| == |xs|
  {
    if xs != [] {
      SortByPermutes(xs[1..], before);
      InsertPermutes(xs[0], SortBy(xs[1..], before), before);
      assert xs == [xs[0]] + xs[1..];
      assert |multiset(SortBy(xs, before))| == |multiset(xs)|;
    }
  }

  lemma {:induction false} InsertSorted<T(!new)>(x: T, ys: seq<T>, before: (T, T) -> bool)
    requires Total(before) && Transitive(before)
    requires SortedBy(ys, before)
    ensures SortedBy(Insert(x, ys, before), before)
  {
    if ys != [] && !before(x, ys[0]) {
      InsertSorted(x, ys[1..], before);
      var rest := Insert(x, ys[1..], before);
      InsertPermutes(x, ys[1..], before);
      forall j | 0 <= j < |rest| ensures before(ys[0], rest[j]) {
        assert rest[j] in multiset([x] + ys[1..]);
        if rest[j] != x {
          assert rest[j] in ys[1..];
        }
      }
    }
  }

  /** With a total, transitive ordering the result is sorted. */
  lemma {:induction false} SortBySorted<T(!new)>(xs: seq<T>, before: (T, T) -> bool)
    requires Total(before) && Transitive(before)
    ensures SortedBy(SortBy(xs, before), before)
  {
    if xs != [] {
      SortBySorted(xs[1..], before);
      InsertSorted(xs[0], SortBy(xs[1..], before), before);
    }
  }

  /** The elements of `xs` that satisfy `p`, in order. */
  function Filter<T>(xs: seq<T>, p: T -> bool): seq<T>
  {
    if xs == [] then [] else (if p(xs[0]) then [xs[0]] else []) + Filter(xs[1..], p)
  }

  lemma {:induction false} InsertStable<T>(x: T, ys: seq<T>, before: (T, T) -> bool, p: T -> bool)
    requires forall a, b :: p(a) && p(b) ==> before(a, b)
    ensures Filter(Insert(x, ys, before), p) == (if p(x) then [x] else []) + Filter(ys, p)
  {
    var r := Insert(x, ys, before);
    if ys == [] {
    } else if before(x, ys[0]) {
      assert r[0] == x && r[1..] == ys;
    } else {
      InsertStable(x, ys[1..], before, p);
      assert r[0] == ys[0] && r[1..] == Insert(x, ys[1..], before);
      assert !(p(x) && p(ys[0]));
      assert Filter(r, p) == (if p(ys[0]) then [ys[0]] else []) + Filter(r[1..], p);
      assert Filter(ys, p) == (if p(ys[0]) then [ys[0]] else []) + Filter(ys[1..], p);
    }
  }

  /**
   * Stability: the elements of one class of mutually tied elements (any `p`
   * whose members may all come before each other) keep their input order.
   */
  lemma {:induction false} SortByStable<T>(xs: seq<T>, before: (T, T) -> bool, p: T -> bool)
    requires forall a, b :: p(a) && p(b) ==> before(a, b)
    ensures Filter(SortBy(xs, before), p) == Filter(xs, p)
  {
    if xs != [] {
      SortByStable(xs[1..], before, p);
      InsertStable(xs[0], SortBy(xs[1..], before), before, p);
    }
  }

  /** Python's `<=` on strings: lexicographic by character, a prefix first. */
  predicate StrLe(a: string, b: string)
  {
    a == [] || (b != [] && (a[0] < b[0] || (a[0] == b[0] && StrLe(a[1..], b[1..]))))
  }

  lemma {:induction false} StrLeTotal(a: string, b: string)
    ensures StrLe(a, b) || StrLe(b, a)
  {
    if a != [] && b != [] && a[0] == b[0] {
      StrLeTotal(a[1..], b[1..]);
    }
  }

  lemma {:induction false} StrLeTransitive(a: string, b: string, c: string)
    requires StrLe(a, b) && StrLe(b, c)
    ensures StrLe(a, c)
  {
    if a != [] && a[0] == b[0] && b[0] == c[0] {
      StrLeTransitive(a[1..], b[1..], c[1..]);
    }
  }

  lemma {:induction false} StrLeAntisymmetric(a: string, b: string)
    requires StrLe(a, b) && StrLe(b, a)
    ensures a == b
  {
    if a != [] && b != [] {
      StrLeAntisymmetric(a[1..], b[1..]);
      assert a == [a[0]] + a[1..] && b == [b[0]] + b[1..];
    }
  }
}

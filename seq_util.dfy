/**
 * Sequence helpers shared by the graph (its de-duplicated edge list) and the
 * bigram pipeline (merging with duplicates removed, counting occurrences).
 */
module SeqUtil {

  /** No element occurs twice. */
  predicate NoDup<T(==)>(xs: seq<T>)
  {
    forall i, j :: 0 <= i < j < |xs| ==> xs[i] != xs[j]
  }

  /**
   * Keeps the first occurrence of every element, in order: the list that
   * "append unless already present" builds, one element at a time.
   */
  function Dedup<T(==)>(xs: seq<T>): (r: seq<T>)
    ensures |r| <= |xs|
  {
    if xs == [] then []
    else
      var d := Dedup(xs[..|xs| - 1]);
      if xs[|xs| - 1] in d then d else d + [xs[|xs| - 1]]
  }

  /** The de-duplicated list has no repeats and exactly the input's elements. */
  lemma {:induction false} DedupSpec<T>(xs: seq<T>)
    ensures NoDup(Dedup(xs))
    ensures forall x :: x in Dedup(xs) <==> x in xs
  {
    if xs != [] {
      var init := xs[..|xs| - 1];
      DedupSpec(init);
      assert xs == init + [xs[|xs| - 1]];
    }
  }

  /** De-duplicating a list without repeats changes nothing. */
  lemma {:induction false} DedupOfNoDup<T>(xs: seq<T>)
    requires NoDup(xs)
    ensures Dedup(xs) == xs
  {
    if xs != [] {
      var init := xs[..|xs| - 1];
      DedupOfNoDup(init);
      DedupSpec(init);
      assert xs == init + [xs[|xs| - 1]];
    }
  }

  /** Dedup keeps first occurrences: an element's first position in the input fixes its order in the output. */
  lemma {:induction false} DedupKeepsFirstOccurrenceOrder<T>(xs: seq<T>, i: int, j: int)
    requires 0 <= i < j < |xs|
    requires xs[i] != xs[j]
    requires forall k :: 0 <= k < i ==> xs[k] != xs[i]
    requires forall k :: 0 <= k < j ==> xs[k] != xs[j]
    ensures exists p, q :: 0 <= p < q < |Dedup(xs)| && Dedup(xs)[p] == xs[i] && Dedup(xs)[q] == xs[j]
  {
    var init := xs[..|xs| - 1];
    DedupSpec(init);
    if j == |xs| - 1 {
      assert xs[j] !in init;
      assert xs[i] in init;
      var p :| 0 <= p < |Dedup(init)| && Dedup(init)[p] == xs[i];
      assert Dedup(xs) == Dedup(init) + [xs[j]];
      assert Dedup(xs)[|Dedup(init)|] == xs[j];
    } else {
      assert init[i] == xs[i] && init[j] == xs[j];
      DedupKeepsFirstOccurrenceOrder(init, i, j);
      var p, q :| 0 <= p < q < |Dedup(init)| && Dedup(init)[p] == xs[i] && Dedup(init)[q] == xs[j];
      assert Dedup(xs)[..|Dedup(init)|] == Dedup(init);
      assert Dedup(xs)[p] == xs[i] && Dedup(xs)[q] == xs[j];
    }
  }

  /** The number of occurrences of `x` in `xs` (Python's `list.count`). */
  function Count<T(==)>(xs: seq<T>, x: T): (n: nat)
    ensures n <= |xs|
    ensures n > 0 <==> x in xs
  {
    if xs == [] then 0
    else Count(xs[..|xs| - 1], x) + (if xs[|xs| - 1] == x then 1 else 0)
  }

  /** Counting over a concatenation. */
  lemma {:induction false} CountAppend<T>(xs: seq<T>, ys: seq<T>, x: T)
    ensures Count(xs + ys, x) == Count(xs, x) + Count(ys, x)
    decreases |ys|
  {
    if ys == [] {
      assert xs + ys == xs;
    } else {
      var yi := ys[..|ys| - 1];
      CountAppend(xs, yi, x);
      assert (xs + ys)[..|xs + ys| - 1] == xs + yi;
    }
  }

  /** The concatenation of a list of lists, in order. */
  function Flatten<T>(xss: seq<seq<T>>): (r: seq<T>)
  {
    if xss == [] then [] else Flatten(xss[..|xss| - 1]) + xss[|xss| - 1]
  }

  /** An element is in the concatenation exactly when it is in one of the lists. */
  lemma {:induction false} FlattenMembership<T>(xss: seq<seq<T>>, x: T)
    ensures x in Flatten(xss) <==> exists i :: 0 <= i < |xss| && x in xss[i]
  {
    if xss != [] {
      var init := xss[..|xss| - 1];
      FlattenMembership(init, x);
      if x in Flatten(xss) && x !in xss[|xss| - 1] {
        var i :| 0 <= i < |init| && x in init[i];
        assert xss[i] == init[i];
      }
      if exists i :: 0 <= i < |xss| && x in xss[i] {
        var i :| 0 <= i < |xss| && x in xss[i];
        if i < |init| {
          assert x in init[i];
        }
      }
    }
  }

  /** The length of the concatenation is the sum of the lengths. */
  function TotalLength<T>(xss: seq<seq<T>>): nat
  {
    if xss == [] then 0 else TotalLength(xss[..|xss| - 1]) + |xss[|xss| - 1]|
  }

  lemma {:induction false} FlattenLength<T>(xss: seq<seq<T>>)
    ensures |Flatten(xss)| == TotalLength(xss)
  {
    if xss != [] {
      FlattenLength(xss[..|xss| - 1]);
    }
  }
}

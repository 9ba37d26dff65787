/**
 * The bigram builders of the text pipeline: pairing consecutive words into
 * overlapping bigrams, merging the bigram lists of many texts, counting
 * them into the weighted triples the word graph is built from, and
 * collecting the words they mention.
 */
module ProcessText {
  import opened SeqUtil
  import opened Sorting

  /** A bigram: two consecutive word pairs, such as ("a b", "b c"). */
  type Bigram = (string, string)

  /** A bigram with its number of occurrences, as passed to add_edge. */
  type WeightedBigram = (string, string, int)

  /** f"{a} {b}" */
  function Pair(a: string, b: string): string
  {
    a + " " + b
  }

  // pair_word_to_bigram

  /**
   * pair_word_to_bigram: for each window of three words, the pair of its
   * first two and the pair of its last two. Fewer than two words are
   * answered with [] explicitly; exactly two give an empty range.
   */
  function PairWordToBigram(words: seq<string>): (r: seq<Bigram>)
    ensures |words| < 3 ==> r == []
    ensures |words| >= 3 ==> |r| == |words| - 2
    ensures forall i :: 0 <= i < |r| - 1 ==> r[i].1 == r[i + 1].0
    ensures forall i :: 0 <= i < |r| ==> r[i].0 == Pair(words[i], words[i + 1])
    ensures |r| > 0 ==> r[|r| - 1].1 == Pair(words[|words| - 2], words[|words| - 1])
  {
    if |words| < 2 then
      []
    else
      seq(|words| - 2, i requires 0 <= i < |words| - 2 =>
        (Pair(words[i], words[i + 1]), Pair(words[i + 1], words[i + 2])))
  }

  // Python's ordering of tuples of strings

  /** Python's `<=` on (str, str) tuples: by the first string, then by the second. */
  function PairLe(x: Bigram, y: Bigram): bool
  {
    (StrLe(x.0, y.0) && x.0 != y.0) || (x.0 == y.0 && StrLe(x.1, y.1))
  }

  lemma PairLeOrder()
    ensures Total(PairLe) && Transitive(PairLe)
  {
    forall x: Bigram, y: Bigram ensures PairLe(x, y) || PairLe(y, x) {
      StrLeTotal(x.0, y.0);
      StrLeTotal(x.1, y.1);
    }
    forall x: Bigram, y: Bigram, z: Bigram | PairLe(x, y) && PairLe(y, z) ensures PairLe(x, z) {
      if x.0 == y.0 && y.0 == z.0 {
        StrLeTransitive(x.1, y.1, z.1);
      } else if x.0 != y.0 && y.0 != z.0 {
        StrLeTransitive(x.0, y.0, z.0);
        if x.0 == z.0 {
          StrLeAntisymmetric(x.0, y.0);
        }
      }
    }
  }

  // merge_multiple_bigrams_list

  /** What merge_multiple_bigrams_list returns. */
  function Merged(lists: seq<seq<Bigram>>, sort: bool, removeDuplicates: bool): seq<Bigram>
  {
    var merged := if removeDuplicates then Dedup(Flatten(lists)) else Flatten(lists);
    if sort then SortBy(merged, PairLe) else merged
  }

  /** Appending one element to a de-duplicated list adds it unless already present. */
  lemma DedupSnoc<T>(xs: seq<T>, x: T)
    ensures Dedup(xs + [x]) == if x in Dedup(xs) then Dedup(xs) else Dedup(xs) + [x]
  {
    assert (xs + [x])[..|xs|] == xs;
  }

  /** The lists before `i + 1` flatten to those before `i` followed by list `i`. */
  lemma FlattenSnoc<T>(xss: seq<seq<T>>, i: int)
    requires 0 <= i < |xss|
    ensures Flatten(xss[..i + 1]) == Flatten(xss[..i]) + xss[i]
  {
    assert xss[..i + 1][..i] == xss[..i];
  }

  /**
   * merge_multiple_bigrams_list: every list in turn is appended whole, or
   * bigram by bigram skipping those already merged; the result is sorted
   * when asked to be.
   */
  method MergeMultipleBigramsList(lists: seq<seq<Bigram>>, sort: bool, removeDuplicates: bool)
    returns (merged: seq<Bigram>)
    ensures merged == Merged(lists, sort, removeDuplicates)
  {
    merged := [];
    var i := 0;
    while i < |lists|
      invariant 0 <= i <= |lists|
      invariant merged == if removeDuplicates then Dedup(Flatten(lists[..i])) else Flatten(lists[..i])
    {
      var list := lists[i];
      ghost var done := Flatten(lists[..i]);
      ghost var more := Flatten(lists[..i + 1]);
      FlattenSnoc(lists, i);
      assert more == done + list;
      if removeDuplicates {
        merged := AppendUnseen(merged, done, list);
      } else {
        merged := merged + list;
      }
      i := i + 1;
    }
    assert lists[..i] == lists;
    ghost var all := Flatten(lists);
    assert merged == if removeDuplicates then Dedup(all) else all;
    if sort {
      merged := SortBy(merged, PairLe);
    }
  }

  /** The inner loop of merge_multiple_bigrams_list: each bigram of `list` not yet merged is appended. */
  method AppendUnseen(merged: seq<Bigram>, ghost done: seq<Bigram>, list: seq<Bigram>) returns (r: seq<Bigram>)
    requires merged == Dedup(done)
    ensures r == Dedup(done + list)
  {
    r := merged;
    var j := 0;
    assert done + list[..0] == done;
    while j < |list|
      invariant 0 <= j <= |list|
      invariant r == Dedup(done + list[..j])
    {
      var bigram := list[j];
      ghost var seen := done + list[..j];
      DedupSnoc(seen, bigram);
      assert done + list[..j + 1] == seen + [bigram];
      if bigram !in r {
        r := r + [bigram];
      }
      j := j + 1;
    }
    assert list[..j] == list;
  }

  /** Without de-duplication the merge holds every bigram of every list, as often as the lists do. */
  lemma MergedConcatenates(lists: seq<seq<Bigram>>, sort: bool)
    ensures multiset(Merged(lists, sort, false)) == multiset(Flatten(lists))
    ensures |Merged(lists, sort, false)| == TotalLength(lists)
    ensures !sort ==> Merged(lists, sort, false) == Flatten(lists)
  {
    FlattenLength(lists);
    SortByPermutes(Flatten(lists), PairLe);
  }

  /** With de-duplication the merge holds each bigram of any list exactly once. */
  lemma MergedDeduplicates(lists: seq<seq<Bigram>>, sort: bool)
    ensures NoDup(Merged(lists, sort, true))
    ensures forall b :: b in Merged(lists, sort, true) <==> exists i :: 0 <= i < |lists| && b in lists[i]
  {
    var d := Dedup(Flatten(lists));
    var m := Merged(lists, sort, true);
    assert m == if sort then SortBy(d, PairLe) else d;
    DedupSpec(Flatten(lists));
    if sort {
      SortByPermutes(d, PairLe);
      NoDupPermutation(d, m);
    }
    forall b ensures b in m <==> exists i :: 0 <= i < |lists| && b in lists[i] {
      FlattenMembership(lists, b);
      MergedMember(lists, sort, b);
    }
  }

  lemma MergedMember(lists: seq<seq<Bigram>>, sort: bool, b: Bigram)
    ensures b in Merged(lists, sort, true) <==> b in Flatten(lists)
  {
    var d := Dedup(Flatten(lists));
    DedupSpec(Flatten(lists));
    if sort {
      SortByPermutes(d, PairLe);
      assert b in SortBy(d, PairLe) <==> b in multiset(SortBy(d, PairLe));
    }
  }

  /** Sorting the merge puts it in Python's tuple order. */
  lemma MergedSorted(lists: seq<seq<Bigram>>, removeDuplicates: bool)
    ensures SortedBy(Merged(lists, true, removeDuplicates), PairLe)
  {
    PairLeOrder();
    var merged := if removeDuplicates then Dedup(Flatten(lists)) else Flatten(lists);
    SortBySorted(merged, PairLe);
  }

  /** A permutation of a list without repeats has none. */
  lemma NoDupPermutation<T>(xs: seq<T>, ys: seq<T>)
    requires NoDup(xs) && multiset(xs) == multiset(ys)
    ensures NoDup(ys)
  {
    forall i, j | 0 <= i < j < |ys| ensures ys[i] != ys[j] {
      if ys[i] == ys[j] {
        var x := ys[i];
        MultisetCountTwo(ys, i, j);
        NoDupCountOne(xs, x);
        assert false;
      }
    }
  }

  /** An element at two positions occurs at least twice. */
  lemma {:induction false} MultisetCountTwo<T>(ys: seq<T>, i: int, j: int)
    requires 0 <= i < j < |ys| && ys[i] == ys[j]
    ensures multiset(ys)[ys[i]] >= 2
  {
    var x := ys[i];
    assert ys == ys[..i] + [x] + ys[i + 1..j] + [x] + ys[j + 1..];
  }

  /** In a list without repeats every element occurs at most once. */
  lemma {:induction false} NoDupCountOne<T>(xs: seq<T>, x: T)
    requires NoDup(xs)
    ensures multiset(xs)[x] <= 1
  {
    if xs != [] {
      var init := xs[..|xs| - 1];
      NoDupCountOne(init, x);
      assert xs == init + [xs[|xs| - 1]];
      assert xs[|xs| - 1] !in init;
    }
  }

  // bigrams_to_weighted_bigrams

  /**
   * Python's `>=` on the sort key (count, first, second), so that sorting
   * with `reverse=True` lists the heaviest bigram first.
   */
  function HeavierFirst(x: WeightedBigram, y: WeightedBigram): bool
  {
    x.2 > y.2 || (x.2 == y.2 && PairLe((y.0, y.1), (x.0, x.1)))
  }

  lemma HeavierFirstOrder()
    ensures Total(HeavierFirst) && Transitive(HeavierFirst)
  {
    PairLeOrder();
    assert forall x: WeightedBigram, y: WeightedBigram :: HeavierFirst(x, y) || HeavierFirst(y, x)
      by {
        forall x: WeightedBigram, y: WeightedBigram ensures HeavierFirst(x, y) || HeavierFirst(y, x) {
          assert PairLe((y.0, y.1), (x.0, x.1)) || PairLe((x.0, x.1), (y.0, y.1));
        }
      }
    forall x: WeightedBigram, y: WeightedBigram, z: WeightedBigram | HeavierFirst(x, y) && HeavierFirst(y, z)
      ensures HeavierFirst(x, z)
    {
      if x.2 == y.2 && y.2 == z.2 {
        assert PairLe((z.0, z.1), (y.0, y.1)) && PairLe((y.0, y.1), (x.0, x.1));
      }
    }
  }

  /** One triple per distinct bigram, with its count, in order of first occurrence. */
  function Counted(bigrams: seq<Bigram>): (r: seq<WeightedBigram>)
  {
    CountsIn(Dedup(bigrams), bigrams)
  }

  /**
   * bigrams_to_weighted_bigrams: the count of each distinct bigram. The
   * dict is built by iterating over set(bigrams_list), whose order Python
   * leaves unspecified; it is taken here as the order of first occurrence.
   */
  function BigramsToWeightedBigrams(bigrams: seq<Bigram>, sort: bool): seq<WeightedBigram>
  {
    if sort then SortBy(Counted(bigrams), HeavierFirst) else Counted(bigrams)
  }

  /** The bigram of a triple. */
  function BigramOf(t: WeightedBigram): Bigram
  {
    (t.0, t.1)
  }

  /** The sum of the counts of a list of triples. */
  function TotalCount(ts: seq<WeightedBigram>): int
  {
    if ts == [] then 0 else TotalCount(ts[..|ts| - 1]) + ts[|ts| - 1].2
  }

  /** What the triples of a bigram list promise: the input's bigrams, once each, with their counts. */
  predicate CountsOf(r: seq<WeightedBigram>, bigrams: seq<Bigram>)
  {
    && (forall t :: t in r ==> BigramOf(t) in bigrams && t.2 == Count(bigrams, BigramOf(t)))
    && (forall b :: b in bigrams ==> (b.0, b.1, Count(bigrams, b)) in r)
    && NoDup(r)
  }

  /**
   * Each bigram of the input appears in exactly one triple, that triple
   * carries its (positive) number of occurrences, and no other triples
   * appear.
   */
  lemma WeightedBigramsCount(bigrams: seq<Bigram>, sort: bool)
    ensures var r := BigramsToWeightedBigrams(bigrams, sort);
      && CountsOf(r, bigrams)
      && (forall t :: t in r ==> t.2 > 0)
      && (forall i, j :: 0 <= i < j < |r| ==> BigramOf(r[i]) != BigramOf(r[j]))
  {
    CountedSpec(bigrams);
    var r := BigramsToWeightedBigrams(bigrams, sort);
    if sort {
      SortKeeps(Counted(bigrams), bigrams);
    }
    forall i, j | 0 <= i < j < |r| ensures BigramOf(r[i]) != BigramOf(r[j]) {
      assert r[i] in r && r[j] in r;
      assert r[i] != r[j];
    }
  }

  lemma CountedSpec(bigrams: seq<Bigram>)
    ensures CountsOf(Counted(bigrams), bigrams)
  {
    var c := Counted(bigrams);
    var distinct := Dedup(bigrams);
    DedupSpec(bigrams);
    forall b | b in bigrams ensures (b.0, b.1, Count(bigrams, b)) in c {
      var i :| 0 <= i < |distinct| && distinct[i] == b;
      assert c[i] == (b.0, b.1, Count(bigrams, b));
    }
  }

  /** Sorting keeps what the triples promise. */
  lemma SortKeeps(c: seq<WeightedBigram>, bigrams: seq<Bigram>)
    requires CountsOf(c, bigrams)
    ensures CountsOf(SortBy(c, HeavierFirst), bigrams)
  {
    var r := SortBy(c, HeavierFirst);
    SortByPermutes(c, HeavierFirst);
    forall t ensures t in r <==> t in c {
      assert t in r <==> t in multiset(r);
    }
    NoDupPermutation(c, r);
  }

  /** The counts add up to the number of input bigrams. */
  lemma WeightedBigramsTotal(bigrams: seq<Bigram>, sort: bool)
    ensures TotalCount(BigramsToWeightedBigrams(bigrams, sort)) == |bigrams|
  {
    CountedTotal(bigrams);
    if sort {
      SortTotal(Counted(bigrams));
    }
  }

  /** Sorting lists the heaviest triple first, ties broken by the bigram, largest first. */
  lemma WeightedBigramsSorted(bigrams: seq<Bigram>)
    ensures SortedBy(BigramsToWeightedBigrams(bigrams, true), HeavierFirst)
  {
    HeavierFirstOrder();
    SortBySorted(Counted(bigrams), HeavierFirst);
  }

  /** The counts of the first-occurrence list add up to the input length. */
  lemma {:induction false} CountedTotal(bigrams: seq<Bigram>)
    ensures TotalCount(Counted(bigrams)) == |bigrams|
  {
    if bigrams != [] {
      var init := bigrams[..|bigrams| - 1];
      var x := bigrams[|bigrams| - 1];
      assert bigrams == init + [x];
      CountedTotal(init);
      DedupSpec(init);
      DedupSnoc(init, x);
      var d := Dedup(init);
      CountsOver(d, init, x);
      if x !in d {
        var dx := d + [x];
        assert Dedup(bigrams) == dx;
        assert CountsIn(dx, bigrams)[..|d|] == CountsIn(d, bigrams);
        CountAppend(init, [x], x);
        assert Count(init, x) == 0;
      }
    }
  }

  /** The triples for the list `d` of bigrams, counted in `xs`. */
  function CountsIn(d: seq<Bigram>, xs: seq<Bigram>): seq<WeightedBigram>
  {
    seq(|d|, i requires 0 <= i < |d| => (d[i].0, d[i].1, Count(xs, d[i])))
  }

  /**
   * Counting in `xs + [x]` instead of `xs` adds one to the total when `x`
   * is listed once in `d`, and nothing when it is not listed.
   */
  lemma {:induction false} CountsOver(d: seq<Bigram>, xs: seq<Bigram>, x: Bigram)
    requires NoDup(d)
    ensures TotalCount(CountsIn(d, xs + [x])) == TotalCount(CountsIn(d, xs)) + (if x in d then 1 else 0)
    decreases |d|
  {
    if d != [] {
      var init := d[..|d| - 1];
      var last := d[|d| - 1];
      CountsOver(init, xs, x);
      assert CountsIn(d, xs + [x])[..|init|] == CountsIn(init, xs + [x]);
      assert CountsIn(d, xs)[..|init|] == CountsIn(init, xs);
      CountAppend(xs, [x], last);
      assert last !in init;
      assert x in d <==> x in init || x == last;
    }
  }

  /** Counting a triple put in front. */
  lemma {:induction false} TotalCountCons(t: WeightedBigram, ts: seq<WeightedBigram>)
    ensures TotalCount([t] + ts) == t.2 + TotalCount(ts)
    decreases |ts|
  {
    if ts != [] {
      var init := ts[..|ts| - 1];
      TotalCountCons(t, init);
      assert ([t] + ts)[..|ts|] == [t] + init;
    }
  }

  /** Inserting a triple adds its count. */
  lemma {:induction false} InsertTotal(t: WeightedBigram, ts: seq<WeightedBigram>)
    ensures TotalCount(Insert(t, ts, HeavierFirst)) == t.2 + TotalCount(ts)
    decreases |ts|
  {
    TotalCountCons(t, ts);
    if ts != [] && !HeavierFirst(t, ts[0]) {
      InsertTotal(t, ts[1..]);
      TotalCountCons(ts[0], Insert(t, ts[1..], HeavierFirst));
      TotalCountCons(ts[0], ts[1..]);
      assert ts == [ts[0]] + ts[1..];
    }
  }

  /** Sorting keeps the total count. */
  lemma {:induction false} SortTotal(ts: seq<WeightedBigram>)
    ensures TotalCount(SortBy(ts, HeavierFirst)) == TotalCount(ts)
    decreases |ts|
  {
    if ts != [] {
      SortTotal(ts[1..]);
      InsertTotal(ts[0], SortBy(ts[1..], HeavierFirst));
      TotalCountCons(ts[0], ts[1..]);
      assert ts == [ts[0]] + ts[1..];
    }
  }

  // get_all_words

  /**
   * get_all_words: both words of every bigram go into a set, which is
   * returned as a list in the (unspecified) order the set yields them.
   */
  method GetAllWords(bigrams: seq<Bigram>) returns (words: seq<string>)
    ensures NoDup(words)
    ensures forall w :: w in words <==> exists i :: 0 <= i < |bigrams| && (bigrams[i].0 == w || bigrams[i].1 == w)
  {
    var collection: set<string> := {};
    var i := 0;
    while i < |bigrams|
      invariant 0 <= i <= |bigrams|
      invariant forall w :: w in collection <==> exists k :: 0 <= k < i && (bigrams[k].0 == w || bigrams[k].1 == w)
    {
      var (word1, word2) := bigrams[i];
      collection := collection + {word1};
      collection := collection + {word2};
      i := i + 1;
    }
    words := [];
    var rest := collection;
    while rest != {}
      invariant rest <= collection
      invariant NoDup(words)
      invariant forall w :: w in words <==> w in collection && w !in rest
      decreases |rest|
    {
      var w :| w in rest;
      words := words + [w];
      rest := rest - {w};
    }
  }
}

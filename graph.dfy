/**
 * The WeightedWordDiGraph class: four pieces of state that add_edge updates
 * in place, and the Markov-chain engine (PageRank, inverse PageRank,
 * TrustRank) that iterates over them. Every method is proved against the
 * value-level model: `GraphModel` for the state, `Markov` for the scores.
 */
module CustomGraph {
  import opened Outcome
  import opened Sums
  import opened SeqUtil
  import opened GraphModel
  import opened Markov

  /** What markov_chain returns or raises on the graph `g`. */
  ghost function MarkovOutcome(g: GraphState, bias: Option<set<string>>, alpha: real, epsilon: real, maxIter: int): Result<Scores>
  {
    if EffectiveBias(bias, g.nodes) == {} then Failure(ZeroDivisionError)
    else if maxIter > 0 && !NoZeroTotals(g) then Failure(ZeroDivisionError)
    else Success(Rank(g, bias, alpha, epsilon, maxIter))
  }

  /** The scores get_trust_rank may be handed: a score dict (by its items, in insertion order) or a ranking. */
  datatype SeedScores =
    | ScoreDict(items: seq<(string, real)>)
    | RankedList(ranking: seq<(string, real)>)

  /** The ranking get_trust_rank takes its seeds from. */
  function RankingOf(seeds: SeedScores): seq<(string, real)>
  {
    match seeds
    case ScoreDict(items) => SortedRankScore(items)
    case RankedList(ranking) => ranking
  }

  class WeightedWordDiGraph {
    var nodes: set<string>
    var totalOutWeight: map<string, int>
    var neighbors: map<string, seq<Arc>>
    var edges: seq<Edge>

    /** The four fields as a value. */
    function State(): GraphState
      reads this
    {
      GraphState(nodes, totalOutWeight, neighbors, edges)
    }

    ghost predicate Valid()
      reads this
    {
      Inv(State())
    }

    /** A graph holding the given edges (an absent edge list is the empty one). */
    constructor (edgeList: seq<Edge>)
      ensures State() == FromEdges(edgeList)
      ensures Valid()
    {
      nodes, totalOutWeight, neighbors, edges := {}, map[], map[], [];
      new;
      FromEdgesInv([]);
      AddEdgeFromList(edgeList);
    }

    /** add_edge: record the edge in all four pieces. */
    method AddEdge(e: Edge)
      modifies this
      ensures State() == GraphModel.AddEdge(old(State()), e)
      ensures old(Valid()) ==> Valid()
    {
      ghost var after := GraphModel.AddEdge(State(), e);
      AddEdgeKeepsValid(State(), e);
      var a, b, w := e.source, e.target, e.weight;
      nodes := nodes + {a};
      nodes := nodes + {b};
      assert nodes == after.nodes;
      if a !in totalOutWeight {
        totalOutWeight := totalOutWeight[a := w];
      } else {
        totalOutWeight := totalOutWeight[a := totalOutWeight[a] + w];
      }
      assert totalOutWeight == after.totalOutWeight;
      if e !in edges {
        edges := edges + [e];
      }
      assert edges == after.edges;
      if a !in neighbors {
        neighbors := neighbors[a := [Arc(b, w)]];
      } else {
        neighbors := neighbors[a := neighbors[a] + [Arc(b, w)]];
      }
      if b !in neighbors {
        neighbors := neighbors[b := []];
      }
      assert neighbors == after.neighbors;
    }

    /** add_edge_from_list: add_edge for each edge, in order. */
    method AddEdgeFromList(edgeList: seq<Edge>)
      modifies this
      ensures State() == AddEdges(old(State()), edgeList)
      ensures old(Valid()) ==> Valid()
    {
      var i := 0;
      while i < |edgeList|
        invariant 0 <= i <= |edgeList|
        invariant State() == AddEdges(old(State()), edgeList[..i])
        invariant old(Valid()) ==> Valid()
      {
        assert edgeList[..i + 1][..i] == edgeList[..i];
        AddEdge(edgeList[i]);
        i := i + 1;
      }
      assert edgeList[..i] == edgeList;
    }

    /** get_reversed_digraph: a new graph built from the reversed edge triples. */
    method GetReversedDigraph() returns (r: WeightedWordDiGraph)
      requires Valid()
      ensures fresh(r) && r.Valid()
      ensures r.State() == FromEdges(ReverseEdges(edges))
      ensures r.nodes == nodes && r.edges == ReverseEdges(edges)
    {
      r := new WeightedWordDiGraph([]);
      r.AddEdgeFromList(ReverseEdges(edges));
      ReversedGraph(State());
    }

    /** markov_chain: at most `maxIter` rounds from the bias-set start, stopping early on convergence. */
    method MarkovChain(alpha: real, epsilon: real, maxIter: int, bias: Option<set<string>>) returns (r: Result<Scores>)
      requires Valid()
      ensures r == MarkovOutcome(State(), bias, alpha, epsilon, maxIter)
    {
      ghost var g := State();
      var b := if bias.None? || bias.value == {} then nodes else bias.value;
      if b == {} {
        return Failure(ZeroDivisionError);
      }
      var n := |b| as real;
      var start := 1.0 / n;
      var scores: Scores := map v | v in nodes :: if v in b then start else 0.0;
      RankStart(g, bias, alpha, epsilon, maxIter);
      InvWalkable(g);
      r := Iterate(State(), b, alpha, epsilon, maxIter, scores);
    }


    /** get_pagerank: the walk with every node as a teleport target. */
    method GetPagerank(alpha: real, epsilon: real, maxIter: int) returns (r: Result<Scores>)
      requires Valid()
      ensures r == MarkovOutcome(State(), None, alpha, epsilon, maxIter)
    {
      r := MarkovChain(alpha, epsilon, maxIter, None);
    }

    /** get_inverse_pagerank: PageRank of the reversed graph. */
    method GetInversePagerank(alpha: real, epsilon: real, maxIter: int) returns (r: Result<Scores>)
      requires Valid()
      ensures r == MarkovOutcome(FromEdges(ReverseEdges(edges)), None, alpha, epsilon, maxIter)
    {
      var reversed := GetReversedDigraph();
      r := reversed.GetPagerank(alpha, epsilon, maxIter);
    }

    /**
     * get_trust_rank: the walk that teleports to the `biasAmount` best
     * entries of a ranking (the sorted inverse PageRank when none is given).
     */
    method GetTrustRank(biasAmount: int, seeds: Option<SeedScores>, alpha: real, epsilon: real, maxIter: int)
      returns (r: Result<Scores>)
      requires Valid()
      ensures biasAmount <= 0 ==> r == Failure(ValueError("Bias amount must be greater than 0"))
      ensures biasAmount > 0 && seeds.Some? ==>
        r == MarkovOutcome(State(), Some(TrustSeeds(RankingOf(seeds.value), |nodes|, biasAmount)), alpha, epsilon, maxIter)
      ensures biasAmount > 0 && seeds.None? ==>
        var inverse := MarkovOutcome(FromEdges(ReverseEdges(edges)), None, alpha, epsilon, maxIter);
        && (inverse.Failure? ==> r == Failure(inverse.error))
        && (inverse.Success? ==>
              (exists items :: IsItemsOf(items, inverse.value) &&
                 r == MarkovOutcome(State(), Some(TrustSeeds(SortedRankScore(items), |nodes|, biasAmount)), alpha, epsilon, maxIter)))
    {
      if biasAmount <= 0 {
        return Failure(ValueError("Bias amount must be greater than 0"));
      }
      var amount := if biasAmount > |nodes| then |nodes| else biasAmount;
      var ranking: seq<(string, real)>;
      var items: seq<(string, real)> := [];
      if seeds.None? {
        var inverse := GetInversePagerank(alpha, epsilon, maxIter);
        if inverse.Failure? {
          return Failure(inverse.error);
        }
        items := ItemsOf(inverse.value);
        ranking := SortedRankScore(items);
      } else {
        ranking := RankingOf(seeds.value);
      }
      var top := ranking[..if amount < |ranking| then amount else |ranking|];
      var biasSet := set x | x in top :: x.0;
      r := MarkovChain(alpha, epsilon, maxIter, Some(biasSet));
    }
  }

  /**
   * One round of markov_chain: the new scores from `s`, or the division
   * by zero that a node with arcs but a zero total out-weight causes.
   * The g.nodes are visited in an unspecified order, recorded in `order`.
   */
  method Round(g: GraphState, bias: set<string>, alpha: real, s: Scores) returns (r: Result<Scores>)
    requires Walkable(g) && bias != {} && s.Keys == g.nodes
    ensures r.Failure? <==> !NoZeroTotals(g)
    ensures r.Failure? ==> r.error == ZeroDivisionError
    ensures r.Success? ==> r.value == Step(g, bias, alpha, s)
  {
    var n := |bias| as real;
    var based := (1.0 - alpha) / n;
    var start: Scores := map v | v in g.nodes :: if v in bias then based else 0.0;
    var ok, next, dangling, order := Distribute(g, s, alpha, start);
    if !ok {
      return Failure(ZeroDivisionError);
    }
    OrderSums(g, s, alpha, start, order, next, dangling);
    var result := next;
    var share := 0.0;
    if dangling != 0.0 {
      share := alpha * dangling / n;
      result := ShareOut(next, bias, share);
    }
    RoundFinish(g, bias, alpha, s, start, next, dangling, share, result);
    r := Success(result);
  }


  /**
   * The loop of markov_chain: at most `maxIter` rounds from `scores`,
   * returning the scores a converged round started from.
   */
  method Iterate(g: GraphState, b: set<string>, alpha: real, epsilon: real, maxIter: int, scores: Scores) returns (r: Result<Scores>)
    requires Walkable(g) && b != {} && scores.Keys == g.nodes
    ensures r.Failure? <==> maxIter > 0 && !NoZeroTotals(g)
    ensures r.Failure? ==> r.error == ZeroDivisionError
    ensures r.Success? ==> r.value == Chain(g, b, alpha, epsilon, scores, maxIter)
  {
    var current := scores;
    ghost var goal := Chain(g, b, alpha, epsilon, scores, maxIter);
    ghost var left := maxIter;
    var i := 0;
    while i < maxIter
      invariant 0 <= i && current.Keys == g.nodes && left == maxIter - i
      invariant Chain(g, b, alpha, epsilon, current, left) == goal
      invariant i > 0 ==> NoZeroTotals(g)
      decreases maxIter - i
    {
      var next := Round(g, b, alpha, current);
      if next.Failure? {
        return next;
      }
      var converged := AllClose(g.nodes, next.value, current, epsilon);
      ghost var later := left - 1;
      ChainStep(g, b, alpha, epsilon, current, left, next.value, later, goal);
      if converged {
        return Success(current);
      }
      current := next.value;
      i := i + 1;
      left := later;
    }
    ChainDone(g, b, alpha, epsilon, current, left);
    r := Success(current);
  }

  /**
   * The passing and dangling parts of a round: every node, in whatever
   * order the set yields them, passes its score along its arcs or, having
   * none, adds it to the dangling total.
   */
  method Distribute(g: GraphState, s: Scores, alpha: real, start: Scores)
    returns (ok: bool, next: Scores, dangling: real, ghost order: seq<string>)
    requires Walkable(g) && s.Keys == g.nodes && start.Keys == g.nodes
    ensures ok <==> NoZeroTotals(g)
    ensures ok ==> Progress(g, s, alpha, start, order, {}, next, dangling)
  {
    next := start;
    dangling := 0.0;
    var rest := g.nodes;
    order := [];
    while rest != {}
      invariant Progress(g, s, alpha, start, order, rest, next, dangling)
      decreases |rest|
    {
      var u :| u in rest;
      var visited, passed, lost := Visit(g, u, s, alpha, next);
      if !visited {
        NotVisited(g, order, u);
        return false, next, dangling, order;
      }
      var later := rest - {u};
      ghost var longer := order + [u];
      var more := dangling + lost;
      VisitStep(g, s, alpha, start, order, rest, next, dangling, u, passed, lost, longer, later, more);
      order, rest, next, dangling := longer, later, passed, more;
    }
    AllVisited(g, s, alpha, start, order, next, dangling);
    ok := true;
  }

  /** One node's share of a round: what it passes along its arcs, or what it loses as a dangling node. */
  method Visit(g: GraphState, u: string, s: Scores, alpha: real, next: Scores) returns (ok: bool, r: Scores, lost: real)
    requires Walkable(g) && u in g.nodes && s.Keys == g.nodes && next.Keys == g.nodes
    ensures ok <==> (u in g.totalOutWeight ==> g.totalOutWeight[u] != 0)
    ensures ok ==> r == map v | v in next :: next[v] + Flow(g, s, alpha, u, v)
    ensures ok ==> lost == if |NeighborsOf(g, u)| == 0 then Score(s, u) else 0.0
  {
    var arcs := g.neighbors[u];
    r := next;
    lost := 0.0;
    if |arcs| == 0 {
      lost := s[u];
      NoFlow(g, s, alpha, u, next);
      return true, r, lost;
    }
    if g.totalOutWeight[u] == 0 {
      return false, r, lost;
    }
    var base := alpha * s[u] / (g.totalOutWeight[u] as real);
    ArcTargets(g, u);
    r := PassAlong(next, arcs, base);
    PassedAll(g, s, alpha, u, next, r);
    ok := true;
  }

  /** Every arc of `arcs` passes `base` times its weight to its target. */
  method PassAlong(next: Scores, arcs: seq<Arc>, base: real) returns (r: Scores)
    requires forall i :: 0 <= i < |arcs| ==> arcs[i].target in next
    ensures r.Keys == next.Keys
    ensures forall v :: v in next ==> r[v] == next[v] + Times(base, ArcWeightTo(arcs, v))
  {
    r := next;
    var j := 0;
    while j < |arcs|
      invariant 0 <= j <= |arcs|
      invariant r.Keys == next.Keys
      invariant forall v :: v in next ==> r[v] == next[v] + Times(base, ArcWeightTo(arcs[..j], v))
    {
      var arc := arcs[j];
      var k := j + 1;
      PassOne(next, r, arcs, j, k, base);
      r := r[arc.target := r[arc.target] + Times(base, arc.weight as real)];
      j := k;
    }
    assert arcs[..j] == arcs;
  }

  /** Passing along arc `j` extends the arc-loop invariant from `arcs[..j]` to `arcs[..k]`, `k` being `j + 1`. */
  lemma PassOne(next: Scores, r: Scores, arcs: seq<Arc>, j: int, k: int, base: real)
    requires 0 <= j < |arcs| && k == j + 1 && arcs[j].target in r && r.Keys == next.Keys
    requires forall v :: v in next ==> r[v] == next[v] + Times(base, ArcWeightTo(arcs[..j], v))
    ensures forall v :: v in next ==>
      r[arcs[j].target := r[arcs[j].target] + Times(base, arcs[j].weight as real)][v] ==
      next[v] + Times(base, ArcWeightTo(arcs[..k], v))
  {
    var arc := arcs[j];
    var r' := r[arc.target := r[arc.target] + Times(base, arc.weight as real)];
    forall v | v in next ensures r'[v] == next[v] + Times(base, ArcWeightTo(arcs[..k], v)) {
      ArcWeightToNext(arcs, j, v);
      if arc.target == v {
        TimesSum(base, ArcWeightTo(arcs[..k], v), ArcWeightTo(arcs[..j], v), arc.weight as real);
      }
    }
  }

  /** Every bias node of `next` gains `share`; the others keep their score. */
  method ShareOut(next: Scores, bias: set<string>, share: real) returns (r: Scores)
    ensures r.Keys == next.Keys
    ensures forall v :: v in next ==> r[v] == next[v] + (if v in bias then share else 0.0)
  {
    r := next;
    var rest := next.Keys;
    while rest != {}
      invariant rest <= next.Keys && r.Keys == next.Keys
      invariant forall v :: v in next ==> r[v] == next[v] + (if v in bias && v !in rest then share else 0.0)
      decreases |rest|
    {
      var v :| v in rest;
      if v in bias {
        r := r[v := r[v] + share];
      }
      rest := rest - {v};
    }
  }

  /** The convergence test of markov_chain, node by node, stopping at the first that moved too far. */
  method AllClose(nodes: set<string>, next: Scores, s: Scores, epsilon: real) returns (c: bool)
    ensures c == Converged(nodes, next, s, epsilon)
  {
    var rest := nodes;
    while rest != {}
      invariant rest <= nodes
      invariant forall v :: v in nodes && v !in rest ==> Abs(Score(next, v) - Score(s, v)) < epsilon
      decreases |rest|
    {
      var v :| v in rest;
      if !(Abs(Score(next, v) - Score(s, v)) < epsilon) {
        assert v in nodes && !Converged(nodes, next, s, epsilon);
        return false;
      }
      rest := rest - {v};
    }
    c := true;
  }

  /** The entries of a score dict as (label, score) pairs, in its iteration order. */
  method ItemsOf(m: Scores) returns (items: seq<(string, real)>)
    ensures IsItemsOf(items, m)
  {
    items := [];
    var rest := m.Keys;
    while rest != {}
      invariant rest <= m.Keys
      invariant DistinctLabels(items)
      invariant forall x :: x in items ==> x.0 in m && m[x.0] == x.1 && x.0 !in rest
      invariant forall k :: k in m && k !in rest ==> (k, m[k]) in items
      decreases |rest|
    {
      var k :| k in rest;
      items := items + [(k, m[k])];
      rest := rest - {k};
    }
  }

  /**
   * compare_pagerank without its final square root: the mean over the
   * nodes of `s1` of the squared score differences.
   */
  method ComparePagerank(s1: Scores, s2: Scores) returns (r: Result<real>)
    ensures |s1| == 0 ==> r == Failure(ZeroDivisionError)
    ensures |s1| > 0 && s1.Keys <= s2.Keys ==> r == Success(MeanSquareDiff(s1, s2))
    ensures |s1| > 0 && !(s1.Keys <= s2.Keys) ==>
      r.Failure? && r.error.KeyError? && r.error.key in s1 && r.error.key !in s2
  {
    var sum := 0.0;
    var count := |s1|;
    var rest := s1.Keys;
    SumOverEmpty(SquaredDiff(s1, s2));
    assert s1.Keys - rest == {};
    while rest != {}
      invariant rest <= s1.Keys
      invariant forall k :: k in s1 && k !in rest ==> k in s2
      invariant sum == SumOver(s1.Keys - rest, SquaredDiff(s1, s2))
      decreases |rest|
    {
      var k :| k in rest;
      if k !in s2 {
        return Failure(KeyError(k));
      }
      SquaredDiffInsert(s1, s2, s1.Keys - rest, k);
      assert s1.Keys - (rest - {k}) == (s1.Keys - rest) + {k};
      sum := sum + Square(s1[k] - s2[k]);
      rest := rest - {k};
    }
    if count == 0 {
      return Failure(ZeroDivisionError);
    }
    assert s1.Keys - rest == s1.Keys;
    r := Success(sum / (count as real));
  }

  /** markov_chain starts the chain from the initial scores of the effective bias set. */
  lemma RankStart(g: GraphState, bias: Option<set<string>>, alpha: real, epsilon: real, maxIter: int)
    requires EffectiveBias(bias, g.nodes) != {}
    ensures var b := EffectiveBias(bias, g.nodes);
      Rank(g, bias, alpha, epsilon, maxIter) == Chain(g, b, alpha, epsilon, InitialScores(g.nodes, b), maxIter)
  {
  }

  /**
   * With rounds left, the chain either stops at a converged round or goes
   * on from the new scores with `later` (one fewer) rounds.
   */
  lemma ChainUnroll(g: GraphState, b: set<string>, alpha: real, epsilon: real, s: Scores, rounds: int, later: int)
    requires b != {} && rounds > 0 && later == rounds - 1
    ensures Converged(g.nodes, Step(g, b, alpha, s), s, epsilon) ==> Chain(g, b, alpha, epsilon, s, rounds) == s
    ensures !Converged(g.nodes, Step(g, b, alpha, s), s, epsilon) ==>
      Chain(g, b, alpha, epsilon, s, rounds) == Chain(g, b, alpha, epsilon, Step(g, b, alpha, s), later)
  {
  }

  /** One round of the loop of markov_chain, as `Chain` sees it. */
  lemma ChainStep(g: GraphState, b: set<string>, alpha: real, epsilon: real, s: Scores, rounds: int,
                  next: Scores, later: int, goal: Scores)
    requires b != {} && rounds > 0 && later == rounds - 1
    requires next == Step(g, b, alpha, s) && Chain(g, b, alpha, epsilon, s, rounds) == goal
    ensures next.Keys == g.nodes
    ensures Converged(g.nodes, next, s, epsilon) ==> s == goal
    ensures !Converged(g.nodes, next, s, epsilon) ==> Chain(g, b, alpha, epsilon, next, later) == goal
  {
    ChainUnroll(g, b, alpha, epsilon, s, rounds, later);
  }

  /** With no rounds left, the chain returns its scores. */
  lemma ChainDone(g: GraphState, b: set<string>, alpha: real, epsilon: real, s: Scores, rounds: int)
    requires b != {} && rounds <= 0
    ensures Chain(g, b, alpha, epsilon, s, rounds) == s
  {
  }

  /** Adding a node present in both dicts adds its squared difference. */
  lemma SquaredDiffInsert(s1: Scores, s2: Scores, done: set<string>, k: string)
    requires k !in done && k in s1 && k in s2
    ensures SumOver(done + {k}, SquaredDiff(s1, s2)) == SumOver(done, SquaredDiff(s1, s2)) + Square(s1[k] - s2[k])
  {
    SumOverInsert(done, SquaredDiff(s1, s2), k);
  }

  /** Taking one more arc into account adds its weight when it leads to `v`. */
  lemma ArcWeightToNext(arcs: seq<Arc>, j: int, v: string)
    requires 0 <= j < |arcs|
    ensures ArcWeightTo(arcs[..j + 1], v) ==
      ArcWeightTo(arcs[..j], v) + (if arcs[j].target == v then arcs[j].weight as real else 0.0)
  {
    assert arcs[..j + 1][..j] == arcs[..j];
  }

  lemma TimesSum(c: real, z: real, x: real, y: real)
    requires z == x + y
    ensures Times(c, z) == Times(c, x) + Times(c, y)
  {
  }

  /** What a passing node sends to `v` is its per-unit share times the weight of its arcs to `v`. */
  lemma FlowTimes(g: GraphState, s: Scores, alpha: real, u: string)
    requires Passes(g, u)
    ensures forall v :: Flow(g, s, alpha, u, v) == Times(BasePassing(g, s, alpha, u), ArcWeightTo(NeighborsOf(g, u), v))
  {
  }

  lemma AddEdgeKeepsValid(g: GraphState, e: Edge)
    ensures Inv(g) ==> Inv(GraphModel.AddEdge(g, e))
  {
    if Inv(g) {
      AddEdgeKeepsInv(g, e);
    }
  }

  /** The scores after the nodes of `order` have passed theirs along, in that order, from `start`. */
  ghost function Spread(g: GraphState, s: Scores, alpha: real, start: Scores, order: seq<string>): Scores
    decreases |order|
  {
    if order == [] then start
    else
      var prev := Spread(g, s, alpha, start, order[..|order| - 1]);
      var u := order[|order| - 1];
      map v | v in prev :: prev[v] + Flow(g, s, alpha, u, v)
  }

  /** The score of the dangling nodes of `order`. */
  ghost function Collected(g: GraphState, s: Scores, order: seq<string>): real
    decreases |order|
  {
    if order == [] then 0.0
    else
      var u := order[|order| - 1];
      Collected(g, s, order[..|order| - 1]) + (if |NeighborsOf(g, u)| == 0 then Score(s, u) else 0.0)
  }

  function Elems(order: seq<string>): set<string>
  {
    set x | x in order
  }

  lemma SpreadNext(g: GraphState, s: Scores, alpha: real, start: Scores, order: seq<string>, u: string)
    ensures Spread(g, s, alpha, start, order + [u]) ==
      var prev := Spread(g, s, alpha, start, order);
      map v | v in prev :: prev[v] + Flow(g, s, alpha, u, v)
  {
    assert (order + [u])[..|order|] == order;
  }

  lemma CollectedNext(g: GraphState, s: Scores, order: seq<string>, u: string)
    ensures Collected(g, s, order + [u]) ==
      Collected(g, s, order) + (if |NeighborsOf(g, u)| == 0 then Score(s, u) else 0.0)
  {
    assert (order + [u])[..|order|] == order;
  }

  /**
   * What the node loop of a round keeps: the nodes visited so far, in the
   * order visited, have passed along their flow and collected their
   * dangling scores, and none of them divided by zero.
   */
  ghost predicate Progress(g: GraphState, s: Scores, alpha: real, start: Scores,
                           order: seq<string>, rest: set<string>, next: Scores, dangling: real)
  {
    && rest <= g.nodes && next.Keys == g.nodes
    && Elems(order) == g.nodes - rest
    && NoDup(order)
    && next == Spread(g, s, alpha, start, order)
    && dangling == Collected(g, s, order)
    && forall x :: x in order && x in g.totalOutWeight ==> g.totalOutWeight[x] != 0
  }

  /** Visiting one more node keeps `Progress`. */
  lemma VisitStep(g: GraphState, s: Scores, alpha: real, start: Scores,
                  order: seq<string>, rest: set<string>, next: Scores, dangling: real,
                  u: string, passed: Scores, lost: real,
                  longer: seq<string>, later: set<string>, more: real)
    requires Progress(g, s, alpha, start, order, rest, next, dangling)
    requires u in rest && later == rest - {u} && longer == order + [u] && more == dangling + lost
    requires passed == map v | v in next :: next[v] + Flow(g, s, alpha, u, v)
    requires lost == if |NeighborsOf(g, u)| == 0 then Score(s, u) else 0.0
    requires u in g.totalOutWeight ==> g.totalOutWeight[u] != 0
    ensures Progress(g, s, alpha, start, longer, later, passed, more)
    ensures |later| < |rest|
  {
    SpreadNext(g, s, alpha, start, order, u);
    CollectedNext(g, s, order, u);
    NoDupAppend(order, u);
    ElemsAppend(order, u);
    MoveOne(Elems(order), g.nodes, rest, u, later);
  }

  /** Once every node is visited without a division by zero, no total out-weight is zero. */
  lemma AllVisited(g: GraphState, s: Scores, alpha: real, start: Scores, order: seq<string>, next: Scores, dangling: real)
    requires Walkable(g) && Progress(g, s, alpha, start, order, {}, next, dangling)
    ensures NoZeroTotals(g)
  {
    forall u | u in g.totalOutWeight ensures g.totalOutWeight[u] != 0 {
      assert u in Elems(order);
    }
  }

  /** A node that stops the loop is one with a zero total out-weight. */
  lemma NotVisited(g: GraphState, order: seq<string>, u: string)
    requires u in g.totalOutWeight && g.totalOutWeight[u] == 0
    ensures !NoZeroTotals(g)
  {
  }

  lemma ElemsAppend(order: seq<string>, u: string)
    ensures Elems(order + [u]) == Elems(order) + {u}
  {
  }

  lemma MoveOne(done: set<string>, all: set<string>, rest: set<string>, u: string, later: set<string>)
    requires done == all - rest && rest <= all && u in rest && later == rest - {u}
    ensures done + {u} == all - later && later <= all && |later| < |rest|
  {
  }

  lemma NoDupAppend(order: seq<string>, u: string)
    requires NoDup(order) && u !in order
    ensures NoDup(order + [u])
  {
  }

  /** Every arc of a node leads to a node. */
  lemma ArcTargets(g: GraphState, u: string)
    requires Walkable(g) && u in g.neighbors
    ensures forall i :: 0 <= i < |g.neighbors[u]| ==> g.neighbors[u][i].target in g.nodes
  {
  }

  /** A node without arcs passes nothing along. */
  lemma NoFlow(g: GraphState, s: Scores, alpha: real, u: string, prev: Scores)
    requires |NeighborsOf(g, u)| == 0
    ensures (map v | v in prev :: prev[v] + Flow(g, s, alpha, u, v)) == prev
  {
  }

  /** After the arc loop, every node has gained what `u` passes to it. */
  lemma PassedAll(g: GraphState, s: Scores, alpha: real, u: string, before: Scores, next: Scores)
    requires Passes(g, u) && u in s
    requires next.Keys == before.Keys
    requires forall v :: v in before ==>
      next[v] == before[v] + Times(alpha * s[u] / (g.totalOutWeight[u] as real), ArcWeightTo(g.neighbors[u], v))
    requires u in g.neighbors
    ensures next == map v | v in before :: before[v] + Flow(g, s, alpha, u, v)
  {
    FlowTimes(g, s, alpha, u);
  }

  /** Each visited node adds its flow to every node, whatever the order of the visits. */
  lemma {:induction false} SpreadSpec(g: GraphState, s: Scores, alpha: real, start: Scores, order: seq<string>)
    requires NoDup(order)
    ensures Spread(g, s, alpha, start, order).Keys == start.Keys
    ensures forall v :: v in start ==>
      Spread(g, s, alpha, start, order)[v] == start[v] + SumOver(Elems(order), InflowTo(g, s, alpha)(v))
    decreases |order|
  {
    if order == [] {
      forall v | v in start ensures Spread(g, s, alpha, start, order)[v] == start[v] + SumOver(Elems(order), InflowTo(g, s, alpha)(v)) {
        assert Elems(order) == {};
        SumOverEmpty(InflowTo(g, s, alpha)(v));
      }
    } else {
      var init := order[..|order| - 1];
      var u := order[|order| - 1];
      assert order == init + [u];
      assert NoDup(init);
      SpreadSpec(g, s, alpha, start, init);
      assert Elems(order) == Elems(init) + {u};
      assert u !in Elems(init);
      forall v | v in start ensures Spread(g, s, alpha, start, order)[v] == start[v] + SumOver(Elems(order), InflowTo(g, s, alpha)(v)) {
        SumOverInsert(Elems(init), InflowTo(g, s, alpha)(v), u);
      }
    }
  }

  /** The collected dangling score is the dangling sum over the visited nodes. */
  lemma {:induction false} CollectedSpec(g: GraphState, s: Scores, order: seq<string>)
    requires NoDup(order)
    ensures Collected(g, s, order) == SumOver(Elems(order), DanglingPart(g, s))
    decreases |order|
  {
    if order == [] {
      assert Elems(order) == {};
      SumOverEmpty(DanglingPart(g, s));
    } else {
      var init := order[..|order| - 1];
      var u := order[|order| - 1];
      assert order == init + [u];
      assert NoDup(init);
      CollectedSpec(g, s, init);
      assert Elems(order) == Elems(init) + {u};
      assert u !in Elems(init);
      SumOverInsert(Elems(init), DanglingPart(g, s), u);
    }
  }

  lemma DanglingShareOf(g: GraphState, bias: set<string>, alpha: real, s: Scores, v: string, d: real, share: real)
    requires bias != {} && d == DanglingSum(g, s) && d != 0.0 && share == alpha * d / (|bias| as real)
    ensures DanglingShare(g, bias, alpha, s, v) == if v in bias then share else 0.0
  {
  }

  /** Once every node is visited, the spread scores and the collected dangling score are the sums one round takes. */
  lemma OrderSums(g: GraphState, s: Scores, alpha: real, start: Scores, order: seq<string>, next: Scores, dangling: real)
    requires Progress(g, s, alpha, start, order, {}, next, dangling)
    ensures next.Keys == start.Keys
    ensures forall v :: v in start ==> next[v] == start[v] + Inflow(g, s, alpha, v)
    ensures dangling == DanglingSum(g, s)
  {
    assert Elems(order) == g.nodes;
    SpreadSpec(g, s, alpha, start, order);
    CollectedSpec(g, s, order);
  }

  /** The teleport floor plus the inflow, plus the dangling share when there is one, is one round of the walk. */
  lemma RoundFinish(g: GraphState, bias: set<string>, alpha: real, s: Scores, start: Scores,
                    next: Scores, dangling: real, share: real, result: Scores)
    requires bias != {}
    requires start == map v | v in g.nodes :: if v in bias then (1.0 - alpha) / (|bias| as real) else 0.0
    requires next.Keys == start.Keys
    requires forall v :: v in start ==> next[v] == start[v] + Inflow(g, s, alpha, v)
    requires dangling == DanglingSum(g, s)
    requires dangling == 0.0 ==> result == next
    requires dangling != 0.0 ==>
      && share == alpha * dangling / (|bias| as real)
      && result.Keys == next.Keys
      && forall v :: v in next ==> result[v] == next[v] + (if v in bias then share else 0.0)
    ensures result == Step(g, bias, alpha, s)
  {
    var step := Step(g, bias, alpha, s);
    forall v | v in g.nodes ensures result[v] == step[v] {
      var own := DanglingShare(g, bias, alpha, s, v);
      assert step[v] == Teleport(bias, alpha, v) + Inflow(g, s, alpha, v) + own;
      if dangling == 0.0 {
        assert own == 0.0;
      } else {
        DanglingShareOf(g, bias, alpha, s, v, dangling, share);
      }
    }
    assert result.Keys == step.Keys;
  }
}

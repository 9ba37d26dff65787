/**
 * The damped random walk behind PageRank, inverse PageRank and TrustRank,
 * over exact real numbers.
 *
 * A bias set B (all nodes when none is given) receives the teleport share:
 * every iteration starts each node of B at (1 - alpha) / |B|, passes
 * alpha times each node's score along its arcs in proportion to their
 * weights, and spreads the score of nodes without arcs (dangling nodes)
 * evenly over B. The iteration stops after `max_iter` rounds, or as soon as
 * no node moves by `epsilon` or more; in that case the scores from BEFORE
 * the converged round are returned.
 */
module Markov {
  import opened Sums
  import opened GraphModel
  import opened Sorting
  import opened Iteration

  /** A score per node label. */
  type Scores = map<string, real>

  datatype Option<T> = None | Some(value: T)

  /** A missing or empty bias set means every node. */
  function EffectiveBias(bias: Option<set<string>>, nodes: set<string>): set<string>
  {
    if bias.None? || bias.value == {} then nodes else bias.value
  }

  /** The score of `v`, zero for a label without one. */
  function Score(s: Scores, v: string): real
  {
    if v in s then s[v] else 0.0
  }

  function ScoreOf(s: Scores): string -> real
  {
    v => Score(s, v)
  }

  /** The total of all scores. */
  ghost function Mass(s: Scores): real
  {
    SumOver(s.Keys, ScoreOf(s))
  }

  /** 1/n on the bias nodes and 0 on the others, for every node. */
  function InitialScores(nodes: set<string>, bias: set<string>): Scores
    requires bias != {}
  {
    map v | v in nodes :: if v in bias then 1.0 / (|bias| as real) else 0.0
  }

  /** The per-round floor (1 - alpha)/n of a bias node. */
  function Teleport(bias: set<string>, alpha: real, v: string): real
    requires bias != {}
  {
    if v in bias then (1.0 - alpha) / (|bias| as real) else 0.0
  }

  /** The total weight of the arcs that lead to `v`. */
  function ArcWeightTo(arcs: seq<Arc>, v: string): real
  {
    if arcs == [] then 0.0
    else
      var last := arcs[|arcs| - 1];
      ArcWeightTo(arcs[..|arcs| - 1], v) + (if last.target == v then last.weight as real else 0.0)
  }

  function ArcWeightsTo(arcs: seq<Arc>): string -> real
  {
    v => ArcWeightTo(arcs, v)
  }

  /**
   * The part of `u`'s score that one round passes to `v`: alpha times the
   * score over the total out-weight, times the weight of the arcs to `v`.
   */
  function Flow(g: GraphState, s: Scores, alpha: real, u: string, v: string): real
  {
    if Passes(g, u) then BasePassing(g, s, alpha, u) * ArcWeightTo(NeighborsOf(g, u), v) else 0.0
  }

  /** `u` has arcs and a non-zero total out-weight to divide by. */
  predicate Passes(g: GraphState, u: string)
  {
    |NeighborsOf(g, u)| > 0 && u in g.totalOutWeight && g.totalOutWeight[u] != 0
  }

  /** What `u` passes on per unit of arc weight: alpha times its score over its total out-weight. */
  function BasePassing(g: GraphState, s: Scores, alpha: real, u: string): real
    requires Passes(g, u)
  {
    alpha * Score(s, u) / (g.totalOutWeight[u] as real)
  }

  function OutflowFrom(g: GraphState, s: Scores, alpha: real): string -> string -> real
  {
    u => v => Flow(g, s, alpha, u, v)
  }

  function InflowTo(g: GraphState, s: Scores, alpha: real): string -> string -> real
  {
    v => u => Flow(g, s, alpha, u, v)
  }

  /** The score of `u` if it is dangling, zero otherwise. */
  function DanglingPart(g: GraphState, s: Scores): string -> real
  {
    u => if |NeighborsOf(g, u)| == 0 then Score(s, u) else 0.0
  }

  ghost function DanglingSum(g: GraphState, s: Scores): real
  {
    SumOver(g.nodes, DanglingPart(g, s))
  }

  /** The dangling share of a bias node (nothing when no score is dangling). */
  ghost function DanglingShare(g: GraphState, bias: set<string>, alpha: real, s: Scores, v: string): real
    requires bias != {}
  {
    var d := DanglingSum(g, s);
    if d != 0.0 && v in bias then alpha * d / (|bias| as real) else 0.0
  }

  /** Everything the arcs into `v` bring in one round. */
  ghost function Inflow(g: GraphState, s: Scores, alpha: real, v: string): real
  {
    SumOver(g.nodes, InflowTo(g, s, alpha)(v))
  }

  /** The new score of `v` after one round: teleport, inflow along arcs, and dangling share. */
  ghost function NextScore(g: GraphState, bias: set<string>, alpha: real, s: Scores, v: string): real
    requires bias != {}
  {
    Teleport(bias, alpha, v) + Inflow(g, s, alpha, v) + DanglingShare(g, bias, alpha, s, v)
  }

  /** One round of the iteration: the `new_scores` it computes from `scores`. */
  ghost function Step(g: GraphState, bias: set<string>, alpha: real, s: Scores): Scores
    requires bias != {}
  {
    map v | v in g.nodes :: NextScore(g, bias, alpha, s, v)
  }

  function Abs(x: real): real
  {
    if x < 0.0 then -x else x
  }

  /** The convergence test: every node moved by less than epsilon. */
  predicate Converged(nodes: set<string>, next: Scores, s: Scores, epsilon: real)
  {
    forall v :: v in nodes ==> Abs(Score(next, v) - Score(s, v)) < epsilon
  }

  /** One round, as a function of the scores. */
  ghost function StepOf(g: GraphState, bias: set<string>, alpha: real): Scores -> Scores
    requires bias != {}
  {
    s => Step(g, bias, alpha, s)
  }

  /** The convergence test, as a function of the new and the current scores. */
  function ConvergedOn(nodes: set<string>, epsilon: real): (Scores, Scores) -> bool
  {
    (next: Scores, s: Scores) => Converged(nodes, next, s, epsilon)
  }

  /**
   * At most `rounds` more rounds from `s`; a round whose result passes the
   * convergence test is discarded and `s` is returned.
   */
  ghost function Chain(g: GraphState, bias: set<string>, alpha: real, epsilon: real, s: Scores, rounds: int): Scores
    requires bias != {}
  {
    Run(StepOf(g, bias, alpha), ConvergedOn(g.nodes, epsilon), s, rounds)
  }

  /** What markov_chain returns. */
  ghost function Rank(g: GraphState, bias: Option<set<string>>, alpha: real, epsilon: real, maxIter: int): Scores
    requires EffectiveBias(bias, g.nodes) != {}
  {
    var b := EffectiveBias(bias, g.nodes);
    Chain(g, b, alpha, epsilon, InitialScores(g.nodes, b), maxIter)
  }

  /**
   * The parts of the graph invariant the walk relies on: every arc leads to
   * a node, and a node has a total out-weight, equal to the sum of its arc
   * weights, exactly when it has arcs.
   */
  ghost predicate Walkable(g: GraphState)
  {
    ShapeInv(g) && WeightInv(g)
  }

  lemma InvWalkable(g: GraphState)
    requires Inv(g)
    ensures Walkable(g)
  {
  }

  /** Every division by a total out-weight is by a non-zero number. */
  ghost predicate NoZeroTotals(g: GraphState)
  {
    forall u :: u in g.totalOutWeight ==> g.totalOutWeight[u] != 0
  }

  /** Every arc has a positive weight. */
  ghost predicate PositiveWeights(g: GraphState)
  {
    forall u, i :: u in g.neighbors && 0 <= i < |g.neighbors[u]| ==> g.neighbors[u][i].weight > 0
  }

  // ---------------------------------------------------------------------
  // Initial scores

  /** The initial scores cover exactly the nodes and, when B is a set of nodes, sum to 1. */
  lemma InitialScoresSumToOne(nodes: set<string>, bias: set<string>)
    requires bias != {} && bias <= nodes
    ensures InitialScores(nodes, bias).Keys == nodes
    ensures Mass(InitialScores(nodes, bias)) == 1.0
  {
    var s := InitialScores(nodes, bias);
    var n := |bias| as real;
    SumOverIndicator(nodes, bias, ScoreOf(s), 1.0 / n);
    assert nodes * bias == bias;
  }

  // ---------------------------------------------------------------------
  // Mass conservation

  lemma {:induction false} ArcWeightsSum(arcs: seq<Arc>, vs: set<string>)
    requires forall i :: 0 <= i < |arcs| ==> arcs[i].target in vs
    ensures SumOver(vs, ArcWeightsTo(arcs)) == SumWeights(arcs) as real
  {
    if arcs != [] {
      var init, last := arcs[..|arcs| - 1], arcs[|arcs| - 1];
      ArcWeightsSum(init, vs);
      var point := (v: string) => if last.target == v then last.weight as real else 0.0;
      SumOverAdd(vs, ArcWeightsTo(init), point, ArcWeightsTo(arcs));
      SumOverPoint(vs, point, last.target);
    } else {
      SumOverScale(vs, ArcWeightsTo(arcs), ArcWeightsTo(arcs), 0.0);
    }
  }

  /** What the invariant says about one node's neighbour list. */
  lemma NodeArcs(g: GraphState, u: string)
    requires Walkable(g) && u in g.nodes
    ensures u in g.totalOutWeight <==> |NeighborsOf(g, u)| > 0
    ensures u in g.totalOutWeight ==> g.totalOutWeight[u] == SumWeights(NeighborsOf(g, u))
    ensures forall i :: 0 <= i < |NeighborsOf(g, u)| ==> NeighborsOf(g, u)[i].target in g.nodes
  {
  }

  /** Everything `u` passes along its arcs in one round. */
  ghost function Outflow(g: GraphState, s: Scores, alpha: real, u: string): real
  {
    SumOver(g.nodes, OutflowFrom(g, s, alpha)(u))
  }

  /** A dangling node passes nothing on. */
  lemma OutflowDangling(g: GraphState, s: Scores, alpha: real, u: string)
    requires |NeighborsOf(g, u)| == 0
    ensures Outflow(g, s, alpha, u) == 0.0
  {
    SumOverPoint(g.nodes, OutflowFrom(g, s, alpha)(u), u);
  }

  /** Per unit of weight times the total weight is everything `u` passes on. */
  lemma BasePassingTimesTotal(g: GraphState, s: Scores, alpha: real, u: string)
    requires Passes(g, u)
    ensures BasePassing(g, s, alpha, u) * (g.totalOutWeight[u] as real) == alpha * Score(s, u)
  {
  }

  /** `u`'s outflow is proportional to the arc weights. */
  lemma FlowProportional(g: GraphState, s: Scores, alpha: real, u: string)
    requires Passes(g, u)
    ensures forall v {:trigger OutflowFrom(g, s, alpha)(u)(v)} ::
      OutflowFrom(g, s, alpha)(u)(v) == BasePassing(g, s, alpha, u) * ArcWeightsTo(NeighborsOf(g, u))(v)
  {
  }

  /** A node with arcs passes on alpha times its score, split in proportion to the arc weights. */
  lemma OutflowLive(g: GraphState, s: Scores, alpha: real, u: string)
    requires Passes(g, u) && g.totalOutWeight[u] == SumWeights(NeighborsOf(g, u))
    requires forall i :: 0 <= i < |NeighborsOf(g, u)| ==> NeighborsOf(g, u)[i].target in g.nodes
    ensures Outflow(g, s, alpha, u) == alpha * Score(s, u)
  {
    var arcs := NeighborsOf(g, u);
    FlowProportional(g, s, alpha, u);
    ArcWeightsSum(arcs, g.nodes);
    BasePassingTimesTotal(g, s, alpha, u);
    SumProportional(g.nodes, OutflowFrom(g, s, alpha)(u), ArcWeightsTo(arcs),
      BasePassing(g, s, alpha, u), g.totalOutWeight[u] as real, alpha * Score(s, u));
  }

  /** A node passes on alpha times its score in total, or nothing if it is dangling. */
  lemma OutflowTotal(g: GraphState, s: Scores, alpha: real, u: string)
    requires u in g.totalOutWeight <==> |NeighborsOf(g, u)| > 0
    requires u in g.totalOutWeight ==> g.totalOutWeight[u] == SumWeights(NeighborsOf(g, u)) && g.totalOutWeight[u] != 0
    requires forall i :: 0 <= i < |NeighborsOf(g, u)| ==> NeighborsOf(g, u)[i].target in g.nodes
    ensures Outflow(g, s, alpha, u) == LiveOut(g, s, alpha, u)
  {
    if |NeighborsOf(g, u)| > 0 {
      OutflowLive(g, s, alpha, u);
    } else {
      OutflowDangling(g, s, alpha, u);
    }
  }

  /** In a walkable graph every node passes on alpha times its score, or nothing if it is dangling. */
  lemma AllOutflows(g: GraphState, s: Scores, alpha: real)
    requires Walkable(g) && NoZeroTotals(g)
    ensures forall u :: u in g.nodes ==> Outflow(g, s, alpha, u) == LiveOut(g, s, alpha, u)
  {
    forall u | u in g.nodes ensures Outflow(g, s, alpha, u) == LiveOut(g, s, alpha, u) {
      NodeArcs(g, u);
      OutflowTotal(g, s, alpha, u);
    }
  }

  lemma DivTimes(a: real, t: real)
    requires t != 0.0
    ensures a / t * t == a
  {
  }

  function TeleportOf(bias: set<string>, alpha: real): string -> real
    requires bias != {}
  {
    v => Teleport(bias, alpha, v)
  }

  ghost function InflowOf(g: GraphState, s: Scores, alpha: real): string -> real
  {
    v => Inflow(g, s, alpha, v)
  }

  ghost function DanglingShareOf(g: GraphState, bias: set<string>, alpha: real, s: Scores): string -> real
    requires bias != {}
  {
    v => DanglingShare(g, bias, alpha, s, v)
  }

  ghost function OutflowOf(g: GraphState, s: Scores, alpha: real): string -> real
  {
    u => Outflow(g, s, alpha, u)
  }

  /** alpha times the score of `u` if it has arcs, zero otherwise. */
  function LiveOut(g: GraphState, s: Scores, alpha: real, u: string): real
  {
    if |NeighborsOf(g, u)| > 0 then alpha * Score(s, u) else 0.0
  }

  function LiveOutflow(g: GraphState, s: Scores, alpha: real): string -> real
  {
    u => LiveOut(g, s, alpha, u)
  }

  /** alpha times the score of `u` if it is dangling, zero otherwise. */
  function DanglingOut(g: GraphState, s: Scores, alpha: real): string -> real
  {
    u => if |NeighborsOf(g, u)| == 0 then alpha * Score(s, u) else 0.0
  }

  function AlphaScore(s: Scores, alpha: real): string -> real
  {
    u => alpha * Score(s, u)
  }

  /** alpha times the dangling scores, summed either way. */
  lemma DanglingOutTotal(g: GraphState, s: Scores, alpha: real)
    ensures SumOver(g.nodes, DanglingOut(g, s, alpha)) == alpha * DanglingSum(g, s)
  {
    forall u | u in g.nodes ensures DanglingOut(g, s, alpha)(u) == alpha * DanglingPart(g, s)(u) {
      if |NeighborsOf(g, u)| > 0 {
        assert alpha * 0.0 == 0.0;
      }
    }
    SumOverScale(g.nodes, DanglingPart(g, s), DanglingOut(g, s, alpha), alpha);
  }

  /** What the nodes with arcs and the dangling nodes pass on adds up to alpha times all the scores. */
  lemma OutflowSplit(g: GraphState, s: Scores, alpha: real)
    requires s.Keys == g.nodes
    ensures SumOver(g.nodes, LiveOutflow(g, s, alpha)) + SumOver(g.nodes, DanglingOut(g, s, alpha)) == alpha * Mass(s)
  {
    SumOverAdd(g.nodes, LiveOutflow(g, s, alpha), DanglingOut(g, s, alpha), AlphaScore(s, alpha));
    SumOverScale(g.nodes, ScoreOf(s), AlphaScore(s, alpha), alpha);
  }

  /** The teleport shares of a round add up to 1 - alpha. */
  lemma TeleportTotal(nodes: set<string>, bias: set<string>, alpha: real)
    requires bias != {} && bias <= nodes
    ensures SumOver(nodes, TeleportOf(bias, alpha)) == 1.0 - alpha
  {
    var n := |bias| as real;
    assert nodes * bias == bias;
    SumOverIndicator(nodes, bias, TeleportOf(bias, alpha), (1.0 - alpha) / n);
    DivTimes(1.0 - alpha, n);
  }

  /** The dangling shares of a round add up to alpha times the dangling scores. */
  lemma DanglingShareTotal(g: GraphState, bias: set<string>, alpha: real, s: Scores)
    requires bias != {} && bias <= g.nodes
    ensures SumOver(g.nodes, DanglingShareOf(g, bias, alpha, s)) == alpha * DanglingSum(g, s)
  {
    var n := |bias| as real;
    var d := DanglingSum(g, s);
    assert g.nodes * bias == bias;
    if d != 0.0 {
      SumOverIndicator(g.nodes, bias, DanglingShareOf(g, bias, alpha, s), alpha * d / n);
      DivTimes(alpha * d, n);
    } else {
      SumOverIndicator(g.nodes, bias, DanglingShareOf(g, bias, alpha, s), 0.0);
    }
  }

  /** What flows along arcs in a round adds up to what the nodes with arcs pass on. */
  lemma InflowTotal(g: GraphState, s: Scores, alpha: real)
    requires forall u :: u in g.nodes ==> Outflow(g, s, alpha, u) == LiveOut(g, s, alpha, u)
    ensures SumOver(g.nodes, InflowOf(g, s, alpha)) == SumOver(g.nodes, LiveOutflow(g, s, alpha))
  {
    SumOverExchange(g.nodes, g.nodes, OutflowFrom(g, s, alpha), InflowTo(g, s, alpha),
      OutflowOf(g, s, alpha), InflowOf(g, s, alpha));
    SumOverExt(g.nodes, OutflowOf(g, s, alpha), LiveOutflow(g, s, alpha));
  }

  /** The new scores add up to the teleport, arc and dangling totals of the round. */
  lemma StepSplit(g: GraphState, bias: set<string>, alpha: real, s: Scores)
    requires bias != {}
    ensures Step(g, bias, alpha, s).Keys == g.nodes
    ensures Mass(Step(g, bias, alpha, s)) ==
      SumOver(g.nodes, TeleportOf(bias, alpha)) + SumOver(g.nodes, InflowOf(g, s, alpha))
      + SumOver(g.nodes, DanglingShareOf(g, bias, alpha, s))
  {
    assert Step(g, bias, alpha, s).Keys == g.nodes;
    SumOverAdd3(g.nodes, TeleportOf(bias, alpha), InflowOf(g, s, alpha), DanglingShareOf(g, bias, alpha, s),
      ScoreOf(Step(g, bias, alpha, s)));
  }

  /** Mass conservation of a round, given what every node passes on. */
  lemma StepMass(g: GraphState, bias: set<string>, alpha: real, s: Scores)
    requires forall u :: u in g.nodes ==> Outflow(g, s, alpha, u) == LiveOut(g, s, alpha, u)
    requires bias != {} && bias <= g.nodes
    requires s.Keys == g.nodes
    ensures Mass(Step(g, bias, alpha, s)) == (1.0 - alpha) + alpha * Mass(s)
  {
    StepSplit(g, bias, alpha, s);
    TeleportTotal(g.nodes, bias, alpha);
    InflowTotal(g, s, alpha);
    DanglingShareTotal(g, bias, alpha, s);
    DanglingOutTotal(g, s, alpha);
    OutflowSplit(g, s, alpha);
  }

  /**
   * One round conserves mass when B is a set of nodes:
   * sum(new_scores) = (1 - alpha) + alpha * sum(scores).
   */
  lemma StepConservesMass(g: GraphState, bias: set<string>, alpha: real, s: Scores)
    requires Walkable(g) && NoZeroTotals(g)
    requires bias != {} && bias <= g.nodes
    requires s.Keys == g.nodes
    ensures Step(g, bias, alpha, s).Keys == g.nodes
    ensures Mass(Step(g, bias, alpha, s)) == (1.0 - alpha) + alpha * Mass(s)
  {
    StepSplit(g, bias, alpha, s);
    AllOutflows(g, s, alpha);
    StepMass(g, bias, alpha, s);
  }

  /** Every round keeps the mass at 1, so does the whole iteration. */
  lemma ChainConservesMass(
    g: GraphState, bias: set<string>, alpha: real, epsilon: real, s: Scores, rounds: int)
    requires Walkable(g) && NoZeroTotals(g)
    requires bias != {} && bias <= g.nodes
    requires s.Keys == g.nodes && Mass(s) == 1.0
    ensures Chain(g, bias, alpha, epsilon, s, rounds).Keys == g.nodes
    ensures Mass(Chain(g, bias, alpha, epsilon, s, rounds)) == 1.0
  {
    var step := StepOf(g, bias, alpha);
    var p := (x: Scores) => x.Keys == g.nodes && Mass(x) == 1.0;
    forall x {:trigger step(x)} | p(x) ensures p(step(x)) {
      StepConservesMass(g, bias, alpha, x);
    }
    RunKeeps(step, ConvergedOn(g.nodes, epsilon), s, rounds, p);
  }

  /** markov_chain returns a score for every node, and the scores sum to 1 when B is a set of nodes. */
  lemma RankSumsToOne(g: GraphState, bias: Option<set<string>>, alpha: real, epsilon: real, maxIter: int)
    requires Walkable(g) && NoZeroTotals(g)
    requires EffectiveBias(bias, g.nodes) != {} && EffectiveBias(bias, g.nodes) <= g.nodes
    ensures Rank(g, bias, alpha, epsilon, maxIter).Keys == g.nodes
    ensures Mass(Rank(g, bias, alpha, epsilon, maxIter)) == 1.0
  {
    var b := EffectiveBias(bias, g.nodes);
    InitialScoresSumToOne(g.nodes, b);
    ChainConservesMass(g, b, alpha, epsilon, InitialScores(g.nodes, b), maxIter);
  }

  // ---------------------------------------------------------------------
  // Termination and the value returned

  /**
   * markov_chain returns the scores after k rounds for some k of at most
   * `max_iter` (none when `max_iter` is not positive), and returns after
   * fewer than `max_iter` rounds only when the round after the returned
   * scores passed the convergence test.
   */
  lemma RankStopsAtConvergenceOrBudget(g: GraphState, bias: Option<set<string>>, alpha: real, epsilon: real, maxIter: int)
    requires EffectiveBias(bias, g.nodes) != {}
    ensures
      var b := EffectiveBias(bias, g.nodes);
      var r := Rank(g, bias, alpha, epsilon, maxIter);
      exists k: nat ::
        && (k <= maxIter || k == 0)
        && r == Repeat(StepOf(g, b, alpha), InitialScores(g.nodes, b), k)
        && (k < maxIter ==> Converged(g.nodes, Step(g, b, alpha, r), r, epsilon))
  {
    var b := EffectiveBias(bias, g.nodes);
    RunStops(StepOf(g, b, alpha), ConvergedOn(g.nodes, epsilon), InitialScores(g.nodes, b), maxIter);
  }

  /** With no rounds allowed, the initial scores come back. */
  lemma NoRoundsReturnsInitialScores(g: GraphState, bias: Option<set<string>>, alpha: real, epsilon: real, maxIter: int)
    requires EffectiveBias(bias, g.nodes) != {}
    requires maxIter <= 0
    ensures Rank(g, bias, alpha, epsilon, maxIter) == InitialScores(g.nodes, EffectiveBias(bias, g.nodes))
  {
  }

  /** When a round converges, the scores before it are returned, not the round's own. */
  lemma ConvergedRoundIsDiscarded(
    g: GraphState, bias: set<string>, alpha: real, epsilon: real, s: Scores, rounds: int)
    requires bias != {} && rounds > 0
    requires Converged(g.nodes, Step(g, bias, alpha, s), s, epsilon)
    ensures Chain(g, bias, alpha, epsilon, s, rounds) == s
  {
  }

  // ---------------------------------------------------------------------
  // Non-negative scores

  lemma {:induction false} ArcWeightToNonneg(arcs: seq<Arc>, v: string)
    requires forall i :: 0 <= i < |arcs| ==> arcs[i].weight > 0
    ensures ArcWeightTo(arcs, v) >= 0.0
  {
    if arcs != [] {
      ArcWeightToNonneg(arcs[..|arcs| - 1], v);
    }
  }

  lemma {:induction false} SumWeightsPositive(arcs: seq<Arc>)
    requires forall i :: 0 <= i < |arcs| ==> arcs[i].weight > 0
    ensures |arcs| > 0 ==> SumWeights(arcs) > 0
  {
    if arcs != [] {
      SumWeightsPositive(arcs[..|arcs| - 1]);
    }
  }

  /** With positive weights no total out-weight is zero, so the division of markov_chain cannot fail. */
  lemma PositiveWeightsNoZeroTotals(g: GraphState)
    requires Walkable(g) && PositiveWeights(g)
    ensures NoZeroTotals(g)
  {
    forall u | u in g.totalOutWeight ensures g.totalOutWeight[u] != 0 {
      SumWeightsPositive(NeighborsOf(g, u));
    }
  }

  /** What one node passes to another is never negative. */
  lemma FlowNonneg(g: GraphState, s: Scores, alpha: real, u: string, v: string)
    requires Passes(g, u) ==> g.totalOutWeight[u] == SumWeights(NeighborsOf(g, u))
    requires forall i :: 0 <= i < |NeighborsOf(g, u)| ==> NeighborsOf(g, u)[i].weight > 0
    requires alpha >= 0.0 && Score(s, u) >= 0.0
    ensures Flow(g, s, alpha, u, v) >= 0.0
  {
    var arcs := NeighborsOf(g, u);
    if Passes(g, u) {
      SumWeightsPositive(arcs);
      ArcWeightToNonneg(arcs, v);
      NonnegQuotient(alpha, Score(s, u), g.totalOutWeight[u] as real);
      NonnegProduct(BasePassing(g, s, alpha, u), ArcWeightTo(arcs, v));
    }
  }

  lemma NodeFlowNonneg(g: GraphState, s: Scores, alpha: real, u: string, v: string)
    requires Walkable(g) && PositiveWeights(g) && u in g.nodes
    requires alpha >= 0.0 && forall x :: x in s ==> s[x] >= 0.0
    ensures Flow(g, s, alpha, u, v) >= 0.0
  {
    NodeArcs(g, u);
    NodeWeights(g, u);
    FlowNonneg(g, s, alpha, u, v);
  }

  lemma NodeWeights(g: GraphState, u: string)
    requires PositiveWeights(g)
    ensures forall i :: 0 <= i < |NeighborsOf(g, u)| ==> NeighborsOf(g, u)[i].weight > 0
  {
  }

  lemma NonnegProduct(a: real, b: real)
    requires a >= 0.0 && b >= 0.0
    ensures a * b >= 0.0
  {
  }

  /** A quotient of non-negative numbers by a positive one is non-negative. */
  lemma NonnegQuotient(a: real, b: real, n: real)
    requires a >= 0.0 && b >= 0.0 && n > 0.0
    ensures a * b / n >= 0.0
  {
  }

  /** The dangling share is never negative. */
  lemma DanglingShareNonneg(g: GraphState, bias: set<string>, alpha: real, s: Scores, v: string)
    requires bias != {} && alpha >= 0.0
    requires forall u :: u in s ==> s[u] >= 0.0
    ensures DanglingShare(g, bias, alpha, s, v) >= 0.0
  {
    SumOverNonneg(g.nodes, DanglingPart(g, s));
    NonnegQuotient(alpha, DanglingSum(g, s), |bias| as real);
  }

  /** With 0 <= alpha <= 1 and positive weights a round keeps every score non-negative. */
  lemma StepNonnegative(g: GraphState, bias: set<string>, alpha: real, s: Scores)
    requires Walkable(g) && PositiveWeights(g)
    requires bias != {} && 0.0 <= alpha <= 1.0
    requires forall v :: v in s ==> s[v] >= 0.0
    ensures forall v :: v in Step(g, bias, alpha, s) ==> Step(g, bias, alpha, s)[v] >= 0.0
  {
    forall v | v in g.nodes ensures NextScore(g, bias, alpha, s, v) >= 0.0 {
      forall u | u in g.nodes ensures InflowTo(g, s, alpha)(v)(u) >= 0.0 {
        NodeFlowNonneg(g, s, alpha, u, v);
      }
      SumOverNonneg(g.nodes, InflowTo(g, s, alpha)(v));
      DanglingShareNonneg(g, bias, alpha, s, v);
    }
  }

  lemma ChainNonnegative(
    g: GraphState, bias: set<string>, alpha: real, epsilon: real, s: Scores, rounds: int)
    requires Walkable(g) && PositiveWeights(g)
    requires bias != {} && 0.0 <= alpha <= 1.0
    requires forall v :: v in s ==> s[v] >= 0.0
    ensures forall v :: v in Chain(g, bias, alpha, epsilon, s, rounds) ==> Chain(g, bias, alpha, epsilon, s, rounds)[v] >= 0.0
  {
    var step := StepOf(g, bias, alpha);
    var p := (x: Scores) => forall v :: v in x ==> x[v] >= 0.0;
    forall x {:trigger step(x)} | p(x) ensures p(step(x)) {
      StepNonnegative(g, bias, alpha, x);
    }
    RunKeeps(step, ConvergedOn(g.nodes, epsilon), s, rounds, p);
  }

  /** With 0 <= alpha <= 1 and positive weights every returned score is non-negative. */
  lemma RankNonnegative(g: GraphState, bias: Option<set<string>>, alpha: real, epsilon: real, maxIter: int)
    requires Walkable(g) && PositiveWeights(g)
    requires EffectiveBias(bias, g.nodes) != {} && 0.0 <= alpha <= 1.0
    ensures forall v :: v in Rank(g, bias, alpha, epsilon, maxIter) ==> Rank(g, bias, alpha, epsilon, maxIter)[v] >= 0.0
  {
    var b := EffectiveBias(bias, g.nodes);
    ChainNonnegative(g, b, alpha, epsilon, InitialScores(g.nodes, b), maxIter);
  }

  // ---------------------------------------------------------------------
  // A worked case

  /**
   * A single node with a self-loop keeps score 1: the teleport share 1 - alpha
   * and the alpha passed along the loop add up to 1 again, so the first
   * round converges (for any positive epsilon) and the initial {a: 1} is returned.
   */
  lemma SelfLoopRanksOne(a: string, w: int, alpha: real, epsilon: real, maxIter: int)
    requires w != 0 && epsilon > 0.0
    ensures Rank(FromEdges([Edge(a, a, w)]), None, alpha, epsilon, maxIter) == map[a := 1.0]
  {
    var e := Edge(a, a, w);
    assert [e][..0] == [];
    assert AddEdges(Empty, [e]) == AddEdge(AddEdges(Empty, []), e);
    var g := FromEdges([e]);
    assert g.nodes == {a};
    assert NeighborsOf(g, a) == [Arc(a, w)];
    var init := InitialScores({a}, {a});
    assert init == map[a := 1.0];
    if maxIter > 0 {
      assert g.totalOutWeight == map[a := w];
      assert Passes(g, a);
      assert ArcWeightTo([Arc(a, w)], a) == w as real by {
        assert [Arc(a, w)][..0] == [];
      }
      DivTimes(alpha, w as real);
      assert Flow(g, init, alpha, a, a) == alpha;
      SumOverRemove({a}, InflowTo(g, init, alpha)(a), a);
      SumOverRemove({a}, DanglingPart(g, init), a);
      assert {a} - {a} == {};
      SumOverEmpty(InflowTo(g, init, alpha)(a));
      SumOverEmpty(DanglingPart(g, init));
      var next := Step(g, {a}, alpha, init);
      assert next[a] == 1.0;
      assert Converged(g.nodes, next, init, epsilon);
    }
  }

  // ---------------------------------------------------------------------
  // Ranking by score, trust-rank seeds and the divergence measure

  /** `x` may come before `y` when its score is at least as high. */
  function ByScore(x: (string, real), y: (string, real)): bool
  {
    x.1 >= y.1
  }

  /** The items whose score is `c`: one class of mutually tied items. */
  function HasScore(c: real): ((string, real)) -> bool
  {
    (x: (string, real)) => x.1 == c
  }

  /** get_sorted_rank_score: the items by score, highest first. */
  function SortedRankScore(items: seq<(string, real)>): seq<(string, real)>
  {
    SortBy(items, ByScore)
  }

  /**
   * The ranking is a permutation of the items in non-increasing score
   * order, and items with equal scores keep their input order.
   */
  lemma SortedRankScoreSpec(items: seq<(string, real)>)
    ensures multiset(SortedRankScore(items)) == multiset(items)
    ensures forall i, j :: 0 <= i < j < |SortedRankScore(items)| ==>
      SortedRankScore(items)[i].1 >= SortedRankScore(items)[j].1
    ensures forall c :: Filter(SortedRankScore(items), HasScore(c)) == Filter(items, HasScore(c))
  {
    SortByPermutes(items, ByScore);
    assert Total(ByScore) && Transitive(ByScore);
    SortBySorted(items, ByScore);
    forall c ensures Filter(SortedRankScore(items), HasScore(c)) == Filter(items, HasScore(c)) {
      SortByStable(items, ByScore, HasScore(c));
    }
  }

  /** The labels of a list of (label, score) pairs. */
  function Labels(items: seq<(string, real)>): set<string>
  {
    set x | x in items :: x.0
  }

  /** No label occurs twice, as in the items of a dict. */
  predicate DistinctLabels(items: seq<(string, real)>)
  {
    forall i, j :: 0 <= i < j < |items| ==> items[i].0 != items[j].0
  }

  /** `items` lists the entries of `m`, each once, in some order. */
  ghost predicate IsItemsOf(items: seq<(string, real)>, m: Scores)
  {
    && DistinctLabels(items)
    && (forall x :: x in items ==> x.0 in m && m[x.0] == x.1)
    && (forall k :: k in m ==> (k, m[k]) in items)
  }

  lemma {:induction false} DistinctLabelsCount(items: seq<(string, real)>)
    requires DistinctLabels(items)
    ensures |Labels(items)| == |items|
  {
    if items != [] {
      var init := items[..|items| - 1];
      var last := items[|items| - 1];
      DistinctLabelsCount(init);
      assert Labels(items) == Labels(init) + {last.0};
      assert last.0 !in Labels(init);
    }
  }

  /**
   * The seeds of get_trust_rank: the labels of the first `bias_amount`
   * entries of the ranking, after clamping `bias_amount` to the node count.
   */
  function TrustSeeds(ranking: seq<(string, real)>, nodeCount: nat, biasAmount: int): set<string>
    requires biasAmount > 0
  {
    var k := if biasAmount > nodeCount then nodeCount else biasAmount;
    Labels(ranking[..if k < |ranking| then k else |ranking|])
  }

  /**
   * Seeding TrustRank with every node gives plain PageRank: when the seed
   * ranking is the sorted entries of a score dict over exactly the nodes and
   * `bias_amount` is at least the node count, the seeds are all the nodes.
   */
  lemma TrustRankWithAllNodesIsPageRank(
    g: GraphState, items: seq<(string, real)>, m: Scores, biasAmount: int,
    alpha: real, epsilon: real, maxIter: int)
    requires IsItemsOf(items, m) && m.Keys == g.nodes && g.nodes != {}
    requires biasAmount >= |g.nodes|
    ensures TrustSeeds(SortedRankScore(items), |g.nodes|, biasAmount) == g.nodes
    ensures Rank(g, Some(TrustSeeds(SortedRankScore(items), |g.nodes|, biasAmount)), alpha, epsilon, maxIter)
         == Rank(g, None, alpha, epsilon, maxIter)
  {
    ItemsLabels(items, m);
    RankingLabels(items);
    var ranking := SortedRankScore(items);
    assert ranking[..|ranking|] == ranking;
  }

  /**
   * The seeds get_trust_rank takes from a ranked score dict over the nodes
   * are nodes, and there is at least one when there are nodes; so the walk
   * they seed sums to 1 (RankSumsToOne applies).
   */
  lemma TrustSeedsAreNodes(g: GraphState, items: seq<(string, real)>, m: Scores, biasAmount: int)
    requires IsItemsOf(items, m) && m.Keys == g.nodes && biasAmount > 0
    ensures TrustSeeds(SortedRankScore(items), |g.nodes|, biasAmount) <= g.nodes
    ensures g.nodes != {} ==> TrustSeeds(SortedRankScore(items), |g.nodes|, biasAmount) != {}
  {
    ItemsLabels(items, m);
    RankingLabels(items);
    var ranking := SortedRankScore(items);
    var k := if biasAmount > |g.nodes| then |g.nodes| else biasAmount;
    var top := ranking[..if k < |ranking| then k else |ranking|];
    forall x | x in top ensures x.0 in g.nodes {
      assert x in ranking;
    }
    if g.nodes != {} {
      var v :| v in g.nodes;
      assert |g.nodes| > 0;
      assert |ranking| > 0 && k > 0;
      assert ranking[0] in top;
      assert ranking[0].0 in TrustSeeds(ranking, |g.nodes|, biasAmount);
    }
  }

  /** The items of a dict have its keys as labels, one item per key. */
  lemma ItemsLabels(items: seq<(string, real)>, m: Scores)
    requires IsItemsOf(items, m)
    ensures Labels(items) == m.Keys && |items| == |m.Keys|
  {
    assert Labels(items) == m.Keys;
    DistinctLabelsCount(items);
  }

  /** Ranking keeps the number of items and their labels. */
  lemma RankingLabels(items: seq<(string, real)>)
    ensures |SortedRankScore(items)| == |items|
    ensures Labels(SortedRankScore(items)) == Labels(items)
  {
    var ranking := SortedRankScore(items);
    SortByPermutes(items, ByScore);
    assert |ranking| == |multiset(ranking)| == |multiset(items)| == |items|;
    forall x ensures x in ranking <==> x in items {
      assert x in ranking <==> x in multiset(ranking);
    }
  }

  /** The product of two reals, kept behind a function so that its sign is reasoned about once. */
  function Times(a: real, b: real): real
  {
    a * b
  }

  /** The square of a real. */
  function Square(d: real): real
  {
    Times(d, d)
  }

  /** The squared difference of the two maps' scores at each node. */
  function SquaredDiff(s1: Scores, s2: Scores): string -> real
  {
    v => Square(Score(s1, v) - Score(s2, v))
  }

  lemma TimesPositive(a: real, b: real)
    requires a > 0.0 && b > 0.0
    ensures Times(a, b) > 0.0
  {
  }

  lemma TimesNegated(a: real, b: real)
    ensures Times(-a, -b) == Times(a, b)
  {
  }

  /** A square is positive unless its root is zero, where it is zero. */
  lemma SquareSign(d: real)
    ensures d != 0.0 ==> Square(d) > 0.0
    ensures d == 0.0 ==> Square(d) == 0.0
  {
    if d > 0.0 {
      TimesPositive(d, d);
    } else if d < 0.0 {
      TimesPositive(-d, -d);
      TimesNegated(d, d);
    }
  }

  /** The mean of the squared score differences over the nodes of the first map. */
  ghost function MeanSquareDiff(s1: Scores, s2: Scores): real
    requires |s1| > 0
  {
    SumOver(s1.Keys, SquaredDiff(s1, s2)) / (|s1| as real)
  }

  /** The divergence is never negative, and is zero exactly when the second map agrees on every node of the first. */
  lemma MeanSquareDiffSpec(s1: Scores, s2: Scores)
    requires |s1| > 0 && s1.Keys <= s2.Keys
    ensures MeanSquareDiff(s1, s2) >= 0.0
    ensures MeanSquareDiff(s1, s2) == 0.0 <==> forall v :: v in s1 ==> s1[v] == s2[v]
  {
    var f := SquaredDiff(s1, s2);
    forall v | v in s1.Keys
      ensures f(v) >= 0.0 && (s1[v] != s2[v] ==> f(v) > 0.0) && (s1[v] == s2[v] ==> f(v) == 0.0)
    {
      assert Score(s1, v) == s1[v] && Score(s2, v) == s2[v];
      SquareSign(Score(s1, v) - Score(s2, v));
    }
    SumOverNonneg(s1.Keys, f);
    SumOverZeroIff(s1.Keys, f);
    assert (forall v :: v in s1.Keys ==> f(v) == 0.0) <==> (forall v :: v in s1 ==> s1[v] == s2[v]);
    assert |s1.Keys| == |s1|;
    Quotient(SumOver(s1.Keys, f), |s1| as real);
  }

  lemma Quotient(a: real, n: real)
    requires a >= 0.0 && n > 0.0
    ensures a / n >= 0.0
    ensures a / n == 0.0 <==> a == 0.0
  {
    if a / n == 0.0 {
      DivTimes(a, n);
    }
  }
}

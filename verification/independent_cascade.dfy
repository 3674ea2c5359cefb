/** The Independent Cascade (SIR) model: construction from a fraction or a
    count of initially infected nodes, `reset`, `state_summary`, `step`, and
    the run loop instantiated with its step. */
module IndependentCascade {
  import opened Seqs
  import opened Exceptions
  import opened Graphs
  import opened Random
  import opened DiffusionModel
  import opened CascadePass

  /** The state space, in reporting order. */
  const StateSpace: seq<Label> := [Susceptible, Infected, Recovered]

  /** The `initially_infected` argument: a float or an integer. */
  datatype InitiallyInfected = Fraction(x: real) | Count(k: int)

  /** The model: the shared fields, the infection probability, and the
      initially infected count after conversion. */
  datatype CascadeModel = CascadeModel(base: Base<Label>, probability: real, initiallyInfected: int)

  function Nodes(c: CascadeModel): nat {
    |c.base.graph.nodes|
  }

  /** A model `step` and `run` can act on: its graph passed validation, and a
      live model has a state entry for every node. */
  predicate Valid(c: CascadeModel) {
    && Supported(c.base.graph)
    && (!c.base.terminated ==> Nodes(c) <= |c.base.state|)
  }

  type Cascade = c: CascadeModel | Valid(c)
    witness CascadeModel(Base(Graph([], []), Rng(i => 0.0, 0), 0, true, []), 0.0, 0)

  // ---------------------------------------------------------------------------
  // Construction and reset

  /** The conversion of `initially_infected`: a value strictly between 0 and
      1 is a fraction of the node count, truncated; an integer is a count.
      A float outside `(0, 1)` stays a float, and `reset` then fails to
      repeat a list by it. */
  function InitialCount(init: InitiallyInfected, n: nat): (r: Result<int>)
    ensures init.Count? ==> r == Ok(init.k)
    ensures init.Fraction? && 0.0 < init.x < 1.0 ==>
              && r.Ok?
              && 0 <= r.value <= n
              && r.value as real <= init.x * n as real < (r.value + 1) as real
    ensures init.Fraction? && !(0.0 < init.x < 1.0) ==> r == Err(NonIntegerCount)
  {
    match init
    case Fraction(x) =>
      if 0.0 < x < 1.0 then
        assert x * n as real <= n as real;
        Ok((x * n as real).Floor)
      else Err(NonIntegerCount)
    case Count(k) => Ok(k)
  }

  /** The state before the shuffle: `N - k` susceptible labels, then `k`
      infected ones, with Python's list repetition. */
  function InitialLabels(n: nat, k: int): (r: seq<Label>)
    ensures multiset(r)[Susceptible] == if n - k > 0 then n - k else 0
    ensures multiset(r)[Infected] == if k > 0 then k else 0
    ensures multiset(r)[Recovered] == 0
    ensures |r| == (if n - k > 0 then n - k else 0) + (if k > 0 then k else 0)
    ensures forall i :: 0 <= i < |r| ==> (r[i] == Infected <==> i >= (if n - k > 0 then n - k else 0))
    ensures forall i :: 0 <= i < |r| ==> (r[i] == Susceptible <==> i < (if n - k > 0 then n - k else 0))
  {
    Repeat(Susceptible, n - k) + Repeat(Infected, k)
  }

  /** `reset`: a live model at iteration 0 whose state is the initial labels
      rearranged by the shuffle `perm`; the shuffle consumes `shuffleDraws`
      draws. */
  function Reset(c: CascadeModel, perm: seq<nat>, shuffleDraws: nat): (r: Cascade)
    requires Supported(c.base.graph)
    requires IsPermutation(perm, |InitialLabels(Nodes(c), c.initiallyInfected)|)
    ensures !r.base.terminated && r.base.iteration == 0
    ensures r.base.graph == c.base.graph
    ensures r.probability == c.probability && r.initiallyInfected == c.initiallyInfected
    ensures r.base.rng == Advance(c.base.rng, shuffleDraws)
    ensures multiset(r.base.state) == multiset(InitialLabels(Nodes(c), c.initiallyInfected))
    ensures 0 <= c.initiallyInfected <= Nodes(c) ==>
              && |r.base.state| == Nodes(c)
              && multiset(r.base.state)[Infected] == c.initiallyInfected
              && multiset(r.base.state)[Susceptible] == Nodes(c) - c.initiallyInfected
              && multiset(r.base.state)[Recovered] == 0
  {
    var labels := InitialLabels(Nodes(c), c.initiallyInfected);
    PermutePreservesMultiset(labels, perm);
    var state := Permute(labels, perm);
    CascadeModel(Base(c.base.graph, Advance(c.base.rng, shuffleDraws), 0, false, state),
                 c.probability, c.initiallyInfected)
  }

  /** The shuffle `New` needs: a permutation of the initial labels, once the
      graph is supported and the count converts. */
  predicate ShuffleFits(g: Graph, init: InitiallyInfected, perm: seq<nat>) {
    Supported(g) && InitialCount(init, |g.nodes|).Ok? ==>
      IsPermutation(perm, |InitialLabels(|g.nodes|, InitialCount(init, |g.nodes|).value)|)
  }

  /** The constructor: base construction (graph validation), conversion of
      `initially_infected`, then `reset`. */
  function New(g: Graph, probability: real, init: InitiallyInfected, rng: Rng, perm: seq<nat>, shuffleDraws: nat)
    : (r: Result<Cascade>)
    requires WellFormed(g)
    requires ShuffleFits(g, init, perm)
    ensures !Supported(g) ==> r == Err(UnsupportedGraphError)
    ensures Supported(g) && init.Fraction? && !(0.0 < init.x < 1.0) ==> r == Err(NonIntegerCount)
    ensures r.Ok? <==> Supported(g) && (init.Count? || 0.0 < init.x < 1.0)
    ensures r.Ok? ==>
              && r.value.base.graph == g
              && r.value.probability == probability
              && r.value.initiallyInfected == InitialCount(init, |g.nodes|).value
              && !r.value.base.terminated
              && r.value.base.iteration == 0
              && r.value.base.rng == Advance(rng, shuffleDraws)
              && (0 <= r.value.initiallyInfected <= |g.nodes| ==>
                    && |r.value.base.state| == |g.nodes|
                    && multiset(r.value.base.state)[Infected] == r.value.initiallyInfected)
  {
    match NewBase<Label>(g, rng)
    case Err(e) => Err(e)
    case Ok(base) =>
      match InitialCount(init, |g.nodes|)
      case Err(e) => Err(e)
      case Ok(k) => Ok(Reset(CascadeModel(base, probability, k), perm, shuffleDraws))
  }

  /** The test suite's construction examples on a 100-node graph: a fraction
      of 0.25 and a count of 75 give live models at iteration 0 whose summary
      reports 25 and 75 infected nodes. */
  lemma InitExamples(g: Graph, rng: Rng, perm: seq<nat>, shuffleDraws: nat)
    requires Supported(g) && |g.nodes| == 100 && IsPermutation(perm, 100)
    ensures var r := New(g, 0.3, Fraction(0.25), rng, perm, shuffleDraws);
      r.Ok? && StateSummary(r.value.base.state)[Infected] == 25
    ensures var r := New(g, 0.3, Count(75), rng, perm, shuffleDraws);
      && r.Ok? && StateSummary(r.value.base.state)[Infected] == 75
      && r.value.base.iteration == 0 && !r.value.base.terminated
  {
    assert InitialCount(Fraction(0.25), 100) == Ok(25) by {
      assert 0.25 * 100 as real == 25.0;
    }
    var quarter := New(g, 0.3, Fraction(0.25), rng, perm, shuffleDraws);
    assert quarter.Ok? && multiset(quarter.value.base.state)[Infected] == 25;
    var count := New(g, 0.3, Count(75), rng, perm, shuffleDraws);
    assert count.Ok? && multiset(count.value.base.state)[Infected] == 75;
  }

  // ---------------------------------------------------------------------------
  // state_summary

  /** `Counter(state)`: each label present, with its number of occurrences. */
  function Counter(s: seq<Label>): (r: map<Label, nat>)
    ensures forall l :: l in r <==> l in s
    ensures forall l :: l in r ==> r[l] == multiset(s)[l]
  {
    if s == [] then map[]
    else
      var init := s[..|s| - 1];
      var last := s[|s| - 1];
      assert s == init + [last];
      var counts := Counter(init);
      counts[last := (if last in counts then counts[last] else 0) + 1]
  }

  lemma {:induction false} LabelCountsSum(s: seq<Label>)
    ensures multiset(s)[Susceptible] + multiset(s)[Infected] + multiset(s)[Recovered] == |s|
  {
    if s != [] {
      LabelCountsSum(s[1..]);
      assert s == [s[0]] + s[1..];
      assert multiset(s) == multiset{s[0]} + multiset(s[1..]);
      assert s[0] == Susceptible || s[0] == Infected || s[0] == Recovered;
    }
  }

  /** `state_summary`: every label of the state space, with how many nodes
      hold it (0 when none); the counts add up to the state's length. */
  function StateSummary(state: seq<Label>): (r: map<Label, nat>)
    ensures r.Keys == {Susceptible, Infected, Recovered}
    ensures forall l :: l in r ==> r[l] == multiset(state)[l]
    ensures r[Susceptible] + r[Infected] + r[Recovered] == |state|
  {
    var counts := Counter(state);
    LabelCountsSum(state);
    map l | l in StateSpace :: if l in counts then counts[l] else 0
  }

  // ---------------------------------------------------------------------------
  // step

  /** The graph as the pass walks it. */
  function Topo(g: Graph): (t: Topology)
    requires Supported(g)
    ensures forall n: nat :: |g.nodes| <= n ==> Fits(t, n)
    ensures t.order == Order(g)
  {
    Topology(Order(g), NeighbourIds(g))
  }

  /** Some node is infected. */
  ghost predicate AnyInfected(c: Cascade)
    requires !c.base.terminated
  {
    exists i :: 0 <= i < Nodes(c) && c.base.state[i] == Infected
  }

  /** The attempts a step on `c` makes, in draw order. */
  function StepAttempts(c: Cascade): seq<Attempt>
    requires !c.base.terminated
  {
    Attempts(c.base.state, Topo(c.base.graph), 0, c.base.rng.pos)
  }

  /** The state a step on a live model commits, node by node. */
  ghost function NextState(c: Cascade): (r: seq<Label>)
    requires !c.base.terminated
    ensures |r| == |c.base.state|
  {
    var t := Topo(c.base.graph);
    seq(|c.base.state|, i requires 0 <= i < |c.base.state| =>
      NextLabel(c.base.state, t, c.base.rng.stream, c.base.rng.pos, c.probability, i))
  }

  /** The model after a step and whether the terminated warning was emitted. */
  datatype Stepped = Stepped(model: Cascade, warned: bool)

  /** `step`: a terminated model is left alone with a warning. Otherwise one
      pass runs over the two buffers; if it met no infected node the model
      terminates with its state and iteration untouched, else the new buffer
      is committed and the iteration advances. */
  function Step(c: Cascade): (r: Stepped)
    ensures c.base.terminated ==> r == Stepped(c, true)
    ensures !c.base.terminated ==> !r.warned
    ensures !c.base.terminated && !AnyInfected(c) ==>
              r.model == c.(base := c.base.(terminated := true))
    ensures !c.base.terminated && AnyInfected(c) ==>
              && r.model == c.(base := c.base.(state := NextState(c), iteration := c.base.iteration + 1,
                                               rng := Advance(c.base.rng, |StepAttempts(c)|)))
  {
    var check := IsTerminated(c.base);
    if check.terminated then Stepped(c, check.warned)
    else
      var state := c.base.state;
      var rng := c.base.rng;
      var t := Topo(c.base.graph);
      var pass := CascadePass.Pass(state, t, 0, state, rng.stream, rng.pos, c.probability);
      PassCorrect(state, t, rng.stream, rng.pos, c.probability);
      MeetsInfectedIffAny(c);
      var after := Rng(rng.stream, pass.pos);
      assert pass.buffer == NextState(c);
      if !pass.anyInfected then
        AttemptsNeedInfected(c);
        Stepped(c.(base := c.base.(terminated := true, rng := after)), false)
      else
        Stepped(c.(base := c.base.(state := pass.buffer, iteration := c.base.iteration + 1, rng := after)), false)
  }

  /** The order lists every node, so meeting an infected node in it is the
      same as some node being infected. */
  lemma MeetsInfectedIffAny(c: Cascade)
    requires !c.base.terminated
    ensures (exists m :: 0 <= m < |Order(c.base.graph)| && c.base.state[Order(c.base.graph)[m]] == Infected)
            <==> AnyInfected(c)
  {
    var order := Order(c.base.graph);
    if AnyInfected(c) {
      var i :| 0 <= i < Nodes(c) && c.base.state[i] == Infected;
      PermutationCovers(order, Nodes(c));
      assert i in order;
    }
  }

  /** A step attempts an infection only when some node is infected. */
  lemma AttemptsNeedInfected(c: Cascade)
    requires !c.base.terminated
    ensures StepAttempts(c) != [] ==> AnyInfected(c)
  {
    StepAttemptsShape(c);
    if StepAttempts(c) != [] {
      var v := StepAttempts(c)[0].source;
      assert v < Nodes(c) && c.base.state[v] == Infected;
    }
  }

  /** `i` is a node of the graph exactly when the step visits it. */
  lemma InOrderIffNode(c: Cascade, i: nat)
    ensures i in Order(c.base.graph) <==> i < Nodes(c)
  {
    PermutationCovers(Order(c.base.graph), Nodes(c));
  }

  function StepModel(c: Cascade): Cascade {
    Step(c).model
  }

  // ---------------------------------------------------------------------------
  // What a step does to the labels

  /** Labels only move forward: a live step recovers every infected node,
      keeps recovered nodes recovered, and leaves susceptible only nodes that
      were susceptible. */
  lemma StepMonotone(c: Cascade)
    requires !c.base.terminated
    ensures var next := StepModel(c).base.state;
      && |next| == |c.base.state|
      && (forall i :: 0 <= i < Nodes(c) && c.base.state[i] == Infected ==> next[i] == Recovered)
      && (forall i :: 0 <= i < |next| && c.base.state[i] == Recovered ==> next[i] == Recovered)
      && (forall i :: 0 <= i < |next| && next[i] == Susceptible ==> c.base.state[i] == Susceptible)
  {
    forall i | 0 <= i < Nodes(c)
      ensures i in Topo(c.base.graph).order
    {
      InOrderIffNode(c, i);
    }
  }

  /** A node becomes infected exactly when it was susceptible and one of the
      step's attempts on it drew no more than the infection probability. */
  lemma StepInfects(c: Cascade, i: nat)
    requires !c.base.terminated && i < Nodes(c)
    ensures StepModel(c).base.state[i] == Infected <==>
              && c.base.state[i] == Susceptible
              && exists m :: 0 <= m < |StepAttempts(c)| && StepAttempts(c)[m].target == i
                                && c.base.rng.stream(StepAttempts(c)[m].draw) <= c.probability
  {
    InOrderIffNode(c, i);
    AttemptsNeedInfected(c);
  }

  /** The attempts of a step: one per edge out of a node infected before the
      step, in order, each consuming the next draw; so the step consumes as
      many draws as the infected nodes have neighbours. */
  lemma StepAttemptsShape(c: Cascade)
    requires !c.base.terminated
    ensures |StepAttempts(c)| == InfectedDegree(c.base.state, Topo(c.base.graph), 0)
    ensures forall m :: 0 <= m < |StepAttempts(c)| ==>
              && StepAttempts(c)[m].draw == c.base.rng.pos + m
              && StepAttempts(c)[m].source < Nodes(c)
              && c.base.state[StepAttempts(c)[m].source] == Infected
              && Adjacent(c.base.graph, StepAttempts(c)[m].source, StepAttempts(c)[m].target)
  {
    var g := c.base.graph;
    var t := Topo(g);
    var es := StepAttempts(c);
    AttemptsShape(c.base.state, t, 0, c.base.rng.pos);
    forall m | 0 <= m < |es|
      ensures es[m].source < Nodes(c) && Adjacent(g, es[m].source, es[m].target)
    {
      var q :| 0 <= q < |t.order| && t.order[q] == es[m].source && es[m].target in t.nbrs[q];
      var j :| 0 <= j < |t.nbrs[q]| && t.nbrs[q][j] == es[m].target;
      assert g.nodes[q] == Index(es[m].source) && g.nodes[g.adj[q][j]] == Index(es[m].target);
    }
  }

  /** Infection is local: a node infected by a step was susceptible and has a
      neighbour that was infected before the step. */
  lemma InfectionIsLocal(c: Cascade, i: nat)
    requires !c.base.terminated && i < Nodes(c)
    requires StepModel(c).base.state[i] == Infected
    ensures c.base.state[i] == Susceptible
    ensures exists v :: 0 <= v < Nodes(c) && c.base.state[v] == Infected && Adjacent(c.base.graph, v, i)
  {
    StepInfects(c, i);
    StepAttemptsShape(c);
    var m :| 0 <= m < |StepAttempts(c)| && StepAttempts(c)[m].target == i
               && c.base.rng.stream(StepAttempts(c)[m].draw) <= c.probability;
    var v := StepAttempts(c)[m].source;
    assert 0 <= v < Nodes(c) && c.base.state[v] == Infected && Adjacent(c.base.graph, v, i);
  }

  /** With certain infection, an edge from an infected node is a successful
      attempt. */
  lemma CertainHit(c: Cascade, v: nat, i: nat)
    requires !c.base.terminated && v < Nodes(c) && c.base.state[v] == Infected
    requires Adjacent(c.base.graph, v, i)
    requires c.probability >= 1.0 && UnitDraws(c.base.rng)
    ensures exists m :: 0 <= m < |StepAttempts(c)| && StepAttempts(c)[m].target == i
                        && c.base.rng.stream(StepAttempts(c)[m].draw) <= c.probability
  {
    var g := c.base.graph;
    var t := Topo(g);
    var q, j :| && 0 <= q < |g.adj| && q < |g.nodes| && 0 <= j < |g.adj[q]| && g.adj[q][j] < |g.nodes|
                && g.nodes[q] == Index(v) && g.nodes[g.adj[q][j]] == Index(i);
    assert t.order[q] == v;
    assert t.nbrs[q][j] == i;
    AttemptsComplete(c.base.state, t, 0, c.base.rng.pos, q, j);
    var m :| 0 <= m < |StepAttempts(c)| && StepAttempts(c)[m].source == v && StepAttempts(c)[m].target == i;
    assert c.base.rng.stream(StepAttempts(c)[m].draw) < 1.0;
  }

  /** With certain infection (probability at least 1, every draw below 1) a
      node becomes infected exactly when it was susceptible and a neighbour
      was infected before the step. */
  lemma StepCertain(c: Cascade, i: nat)
    requires !c.base.terminated && i < Nodes(c)
    requires c.probability >= 1.0 && UnitDraws(c.base.rng)
    ensures StepModel(c).base.state[i] == Infected <==>
              && c.base.state[i] == Susceptible
              && exists v :: 0 <= v < Nodes(c) && c.base.state[v] == Infected && Adjacent(c.base.graph, v, i)
  {
    StepInfects(c, i);
    if c.base.state[i] == Susceptible
       && exists v :: 0 <= v < Nodes(c) && c.base.state[v] == Infected && Adjacent(c.base.graph, v, i)
    {
      var v :| 0 <= v < Nodes(c) && c.base.state[v] == Infected && Adjacent(c.base.graph, v, i);
      CertainHit(c, v, i);
    }
    if StepModel(c).base.state[i] == Infected {
      InfectionIsLocal(c, i);
    }
  }

  // ---------------------------------------------------------------------------
  // Convergence

  /** The number of nodes not yet recovered. */
  function NonRecovered(s: seq<Label>): (r: nat)
    ensures r <= |s|
  {
    if s == [] then 0
    else (if s[0] != Recovered then 1 else 0) + NonRecovered(s[1..])
  }

  /** If every recovered entry of `a` is recovered in `b`, `b` has no more
      unrecovered entries, and strictly fewer when some entry newly recovered. */
  lemma {:induction false} RecoveryShrinks(a: seq<Label>, b: seq<Label>)
    requires |a| == |b|
    requires forall i :: 0 <= i < |a| && a[i] == Recovered ==> b[i] == Recovered
    ensures NonRecovered(b) <= NonRecovered(a)
    ensures (exists i :: 0 <= i < |a| && a[i] != Recovered && b[i] == Recovered) ==>
              NonRecovered(b) < NonRecovered(a)
  {
    if a != [] {
      RecoveryShrinks(a[1..], b[1..]);
      if exists i :: 0 <= i < |a| && a[i] != Recovered && b[i] == Recovered {
        var i :| 0 <= i < |a| && a[i] != Recovered && b[i] == Recovered;
        if i > 0 {
          assert a[1..][i - 1] != Recovered && b[1..][i - 1] == Recovered;
        }
      }
    }
  }

  /** The measure every live step decreases: the unrecovered nodes of the
      graph, plus one for the call that finds nothing infected. Entries past
      the last node are never visited, so they do not count. */
  function Variant(c: Cascade): (r: nat)
    ensures r <= Nodes(c) + 1
  {
    if c.base.terminated then 0 else NonRecovered(c.base.state[..Nodes(c)]) + 1
  }

  function BaseOf(c: Cascade): Base<Label> {
    c.base
  }

  /** Every live step either terminates the model or recovers at least one
      node, so the unrecovered count strictly drops. */
  lemma StepDecreases(c: Cascade)
    requires !c.base.terminated
    ensures Variant(StepModel(c)) < Variant(c)
  {
    if AnyInfected(c) {
      StepMonotone(c);
      var n := Nodes(c);
      var a := c.base.state[..n];
      var b := StepModel(c).base.state[..n];
      var i :| 0 <= i < n && c.base.state[i] == Infected;
      assert a[i] != Recovered && b[i] == Recovered;
      RecoveryShrinks(a, b);
    }
  }

  lemma CascadeConverges()
    ensures Converges(StepModel, BaseOf, Variant)
  {
    forall c: Cascade | !BaseOf(c).terminated
      ensures Variant(StepModel(c)) < Variant(c)
    {
      StepDecreases(c);
    }
  }

  // ---------------------------------------------------------------------------
  // run

  /** Along a run of live steps the graph, the parameters and the state's
      length are kept, and the iteration counts every step except a final
      one that terminated the model. */
  lemma {:induction false} IterateKeeps(c: Cascade, j: nat)
    requires forall j' :: 0 <= j' < j ==> !Iterate<Cascade>(StepModel, c, j').base.terminated
    ensures var m := Iterate<Cascade>(StepModel, c, j);
      && m.base.graph == c.base.graph
      && m.probability == c.probability
      && m.initiallyInfected == c.initiallyInfected
      && |m.base.state| == |c.base.state|
      && m.base.iteration + (if j > 0 && m.base.terminated then 1 else 0) == c.base.iteration + j
  {
    if j > 0 {
      IterateKeeps(c, j - 1);
      IterateLast<Cascade>(StepModel, c, j - 1);
    }
  }

  /** `run` on the cascade model. A positive `n_iter` advances the
      iteration by at most `n_iter`, and by exactly `n_iter` unless the model
      terminated; otherwise the model runs to termination in at most one
      step more than it has nodes. */
  function RunCascade(c: Cascade, nIter: int): (r: RunResult<Cascade>)
    ensures c.base.terminated ==> r == RunResult(c, true, 0)
    ensures r.model == Iterate<Cascade>(StepModel, c, r.calls)
    ensures forall j :: 0 <= j < r.calls ==> !Iterate<Cascade>(StepModel, c, j).base.terminated
    ensures !c.base.terminated ==>
              && !r.warned
              && r.model.base.graph == c.base.graph
              && r.model.probability == c.probability
              && |r.model.base.state| == |c.base.state|
              && r.model.base.iteration + (if r.model.base.terminated then 1 else 0)
                   == c.base.iteration + r.calls
    ensures nIter > 0 ==> r.model.base.iteration <= c.base.iteration + nIter
    ensures nIter > 0 && !r.model.base.terminated ==> r.model.base.iteration == c.base.iteration + nIter
    ensures nIter <= 0 ==> r.model.base.terminated && r.calls <= Nodes(c) + 1
  {
    CascadeConverges();
    var r := Run<Cascade, Label>(c, nIter, StepModel, BaseOf, Variant);
    IterateKeeps(c, r.calls);
    r
  }

  /** The test suite's termination scenario: once a run to termination
      returns, a further step and a further run change nothing and warn. */
  lemma TerminatedStaysPut(c: Cascade)
    requires !c.base.terminated
    ensures var f := RunCascade(c, -1).model;
      && Step(f) == Stepped(f, true)
      && RunCascade(f, -1) == RunResult(f, true, 0)
  {
  }
}

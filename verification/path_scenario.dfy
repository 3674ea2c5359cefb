/** A worked scenario: the five-node path 0 - 1 - 2 - 3 - 4 with certain
    infection, started with node 0 infected. The infection walks along the
    path one node per step; the fifth step recovers the last node and the
    sixth call finds nothing infected and terminates the model at
    iteration 5. */
module PathScenario {
  import opened Seqs
  import opened Graphs
  import opened Random
  import opened DiffusionModel
  import opened CascadePass
  import opened IndependentCascade

  /** The path, each node listing its neighbours in ascending order. */
  const Path: Graph := Graph([Index(0), Index(1), Index(2), Index(3), Index(4)],
                             [[1], [0, 2], [1, 3], [2, 4], [3]])

  lemma PathSupported()
    ensures Supported(Path)
  {
    var nodes := Path.nodes;
    forall x | x in IndexIds(5)
      ensures x in Elems(nodes)
    {
      InIndexIds(5, x);
      assert x == nodes[x.i];
    }
    forall x | x in Elems(nodes)
      ensures x in IndexIds(5)
    {
      InIndexIds(5, x);
    }
  }

  /** Two nodes of the path are adjacent exactly when their ids differ by one. */
  lemma PathAdjacent(a: nat, b: nat)
    ensures Adjacent(Path, a, b) <==> a < 5 && b < 5 && (a == b + 1 || b == a + 1)
  {
    if Adjacent(Path, a, b) {
      var k, j :| && 0 <= k < |Path.adj| && k < |Path.nodes| && 0 <= j < |Path.adj[k]|
                  && Path.adj[k][j] < |Path.nodes|
                  && Path.nodes[k] == Index(a) && Path.nodes[Path.adj[k][j]] == Index(b);
      assert Path.nodes[k] == Index(k) && Path.nodes[Path.adj[k][j]] == Index(Path.adj[k][j]);
      assert Path.adj[k][j] == k - 1 || Path.adj[k][j] == k + 1;
    }
    if a < 5 && b < 5 && (a == b + 1 || b == a + 1) {
      var j := if b == a + 1 && a > 0 then 1 else 0;
      assert Path.adj[a][j] == b;
      assert Path.nodes[a] == Index(a) && Path.nodes[b] == Index(b);
    }
  }

  /** Nodes before `k` recovered, node `k` infected, the rest susceptible. */
  function Front(k: nat): (r: seq<Label>)
    ensures |r| == 5
    ensures forall i :: 0 <= i < 5 ==> (r[i] == Infected <==> i == k)
    ensures forall i :: 0 <= i < 5 ==> (r[i] == Recovered <==> i < k)
  {
    seq(5, i requires 0 <= i < 5 => if i < k then Recovered else if i == k then Infected else Susceptible)
  }

  /** The scenario's model: the path, certain infection, draws in `[0, 1)`. */
  predicate OnPath(c: Cascade) {
    c.base.graph == Path && c.probability >= 1.0
  }

  /** The scenario after `k` steps: node `k` is the front of the infection. */
  ghost predicate At(c: Cascade, k: nat) {
    && OnPath(c) && UnitDraws(c.base.rng) && !c.base.terminated
    && c.base.iteration == k && c.base.state == Front(k)
  }

  /** One step moves the front by one node and keeps the model live. */
  lemma PathStep(c: Cascade, k: nat)
    requires k < 5 && At(c, k)
    ensures At(StepModel(c), k + 1)
  {
    PathSupported();
    assert c.base.state[k] == Infected;
    var next := StepModel(c).base.state;
    assert StepModel(c).base.rng.stream == c.base.rng.stream;
    StepMonotone(c);
    forall i | 0 <= i < 5
      ensures next[i] == Front(k + 1)[i]
    {
      StepCertain(c, i);
      if i == k + 1 {
        PathAdjacent(k, i);
      } else if i > k + 1 {
        forall v | 0 <= v < 5 && c.base.state[v] == Infected
          ensures !Adjacent(Path, v, i)
        {
          PathAdjacent(v, i);
        }
      }
    }
  }

  /** With every node recovered, the next step only terminates the model. */
  lemma PathEnd(c: Cascade)
    requires OnPath(c) && !c.base.terminated && c.base.state == Front(5)
    ensures StepModel(c) == c.(base := c.base.(terminated := true))
  {
    PathSupported();
  }

  lemma {:induction false} PathIterate(c: Cascade, j: nat)
    requires At(c, 0) && j <= 5
    ensures At(Iterate<Cascade>(StepModel, c, j), j)
  {
    if j > 0 {
      PathIterate(c, j - 1);
      PathStep(Iterate<Cascade>(StepModel, c, j - 1), j - 1);
      IterateLast<Cascade>(StepModel, c, j - 1);
    }
  }

  /** Five live steps, then a sixth that terminates the model at iteration 5. */
  lemma PathSixSteps(c: Cascade)
    requires At(c, 0)
    ensures forall j :: 0 <= j < 6 ==> !Iterate<Cascade>(StepModel, c, j).base.terminated
    ensures var m := Iterate<Cascade>(StepModel, c, 6);
      m.base.terminated && m.base.iteration == 5 && m.base.state == Front(5)
  {
    forall j | 0 <= j < 6
      ensures !Iterate<Cascade>(StepModel, c, j).base.terminated
    {
      PathIterate(c, j);
    }
    PathIterate(c, 5);
    IterateLast<Cascade>(StepModel, c, 5);
    PathEnd(Iterate<Cascade>(StepModel, c, 5));
  }

  /** Two counts of steps that both stop at the first terminated model agree. */
  lemma FirstTermination<M, L>(step: M -> M, base: M -> Base<L>, m: M, a: nat, b: nat)
    requires base(Iterate(step, m, a)).terminated && base(Iterate(step, m, b)).terminated
    requires forall j :: 0 <= j < a ==> !base(Iterate(step, m, j)).terminated
    requires forall j :: 0 <= j < b ==> !base(Iterate(step, m, j)).terminated
    ensures a == b
  {
  }

  /** `run()` on the scenario calls `step` six times and ends terminated at
      iteration 5 with every node recovered. */
  lemma PathRun(c: Cascade)
    requires OnPath(c) && UnitDraws(c.base.rng) && !c.base.terminated
    requires c.base.state == [Infected, Susceptible, Susceptible, Susceptible, Susceptible]
    requires c.base.iteration == 0
    ensures var r := RunCascade(c, -1);
      && r.calls == 6 && !r.warned
      && r.model.base.terminated && r.model.base.iteration == 5
      && r.model.base.state == [Recovered, Recovered, Recovered, Recovered, Recovered]
  {
    var r := RunCascade(c, -1);
    assert c.base.state == Front(0);
    PathSixSteps(c);
    FirstTermination<Cascade, Label>(StepModel, BaseOf, c, r.calls, 6);
    assert Front(5) == [Recovered, Recovered, Recovered, Recovered, Recovered];
  }
}

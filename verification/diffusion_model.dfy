/** The lifecycle every diffusion model shares: construction with graph
    validation, the post-termination guard, and the run loop. The run loop is
    generic in the concrete model `M`; a concrete model supplies its `step`
    and how to reach the shared fields. */
module DiffusionModel {
  import opened Seqs
  import opened Exceptions
  import opened Graphs
  import opened Random

  /** The fields every model has; `L` is the model's state label. */
  datatype Base<L> = Base(graph: Graph, rng: Rng, iteration: nat, terminated: bool, state: seq<L>)

  /** Base construction: validate the graph, then start terminated with an
      empty state until a concrete `reset` runs. */
  function NewBase<L>(g: Graph, rng: Rng): (r: Result<Base<L>>)
    ensures r.Ok? ==> r.value == Base(g, rng, 0, true, [])
    ensures r.Err? ==> r.error == UnsupportedGraphError
    ensures WellFormed(g) ==> (r.Ok? <==> Supported(g))
  {
    ValidateGraphSupported(g);
    match ValidateGraph(g)
    case Fail(e) => Err(e)
    case Pass => Ok(Base(g, rng, 0, true, []))
  }

  /** The answer of `is_terminated` and whether it emitted the
      "already terminated" warning. */
  datatype Check = Check(terminated: bool, warned: bool)

  function IsTerminated<L>(b: Base<L>): (r: Check)
    ensures r.terminated == b.terminated
    ensures r.warned <==> b.terminated
  {
    Check(b.terminated, b.terminated)
  }

  /** `step` applied `k` times. */
  function Iterate<M>(step: M -> M, m: M, k: nat): M
    decreases k
  {
    if k == 0 then m else Iterate(step, step(m), k - 1)
  }

  lemma IterateLast<M>(step: M -> M, m: M, k: nat)
    ensures Iterate(step, m, k + 1) == step(Iterate(step, m, k))
    decreases k
  {
    if k > 0 {
      IterateLast(step, step(m), k - 1);
    }
  }

  /** `variant` is a measure every live step decreases: the model converges. */
  ghost predicate Converges<M(!new), L>(step: M -> M, base: M -> Base<L>, variant: M -> nat) {
    forall x :: !base(x).terminated ==> variant(step(x)) < variant(x)
  }

  /** The bounded loop: at most `k` steps, leaving right after a step that
      sets the termination flag. Returns the model and the number of steps. */
  function RunFor<M, L>(m: M, k: nat, step: M -> M, base: M -> Base<L>): (r: (M, nat))
    ensures r.1 <= k
    ensures k > 0 ==> r.1 > 0
    ensures r.0 == Iterate(step, m, r.1)
    ensures forall j :: 0 < j < r.1 ==> !base(Iterate(step, m, j)).terminated
    ensures r.1 < k ==> base(r.0).terminated
    decreases k
  {
    if k == 0 then (m, 0)
    else
      var next := step(m);
      if base(next).terminated then (next, 1)
      else
        var rest := RunFor(next, k - 1, step, base);
        assert forall j :: 0 < j <= rest.1 ==> Iterate(step, m, j) == Iterate(step, next, j - 1);
        (rest.0, rest.1 + 1)
  }

  /** The unbounded loop: step while the flag is clear. */
  function RunUntil<M(!new), L>(m: M, step: M -> M, base: M -> Base<L>, ghost variant: M -> nat): (r: (M, nat))
    requires Converges(step, base, variant)
    ensures r.0 == Iterate(step, m, r.1)
    ensures base(r.0).terminated
    ensures forall j :: 0 <= j < r.1 ==> !base(Iterate(step, m, j)).terminated
    ensures r.1 <= variant(m)
    decreases variant(m)
  {
    if base(m).terminated then (m, 0)
    else
      var next := step(m);
      var rest := RunUntil(next, step, base, variant);
      assert forall j :: 0 < j <= rest.1 ==> Iterate(step, m, j) == Iterate(step, next, j - 1);
      (rest.0, rest.1 + 1)
  }

  /** The result of `run`: the model, whether the terminated warning was
      emitted, and how many times `step` was called. */
  datatype RunResult<M> = RunResult(model: M, warned: bool, calls: nat)

  /** `run(n_iter)`: a terminated model is left alone with a warning; a
      positive `n_iter` bounds the number of steps; any other value runs
      until termination, which needs a converging model. */
  function Run<M(!new), L>(m: M, nIter: int, step: M -> M, base: M -> Base<L>, ghost variant: M -> nat)
    : (r: RunResult<M>)
    requires nIter <= 0 ==> Converges(step, base, variant)
    ensures base(m).terminated ==> r == RunResult(m, true, 0)
    ensures !base(m).terminated ==> !r.warned && r.calls > 0
    ensures r.model == Iterate(step, m, r.calls)
    ensures forall j :: 0 <= j < r.calls ==> !base(Iterate(step, m, j)).terminated
    ensures nIter > 0 ==> r.calls <= nIter && (r.calls < nIter ==> base(r.model).terminated)
    ensures nIter <= 0 ==> base(r.model).terminated && r.calls <= variant(m)
  {
    var check := IsTerminated(base(m));
    if check.terminated then RunResult(m, check.warned, 0)
    else if nIter > 0 then
      var (final, calls) := RunFor(m, nIter, step, base);
      RunResult(final, check.warned, calls)
    else
      var (final, calls) := RunUntil(m, step, base, variant);
      RunResult(final, check.warned, calls)
  }
}

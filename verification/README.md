# lightning_diffusion simulation engine in Dafny

This project models the simulation engine of `lightning_diffusion`, which has two parts:

- the abstract `DiffusionModel` lifecycle;
- its one concrete rule, `IndependentCascadeModel`, an SIR Independent Cascade.

The model is functional. The state is an immutable `seq<Label>`. The random generator is an explicit stream of draws with a cursor. `step`, `reset` and `run` are pure functions that return the new model.

The modules follow the program's structure:

- `Seqs` holds sequence helpers: Python's `[x] * n`, sorting, permutations and multisets.
- `Exceptions` holds the error kinds and a `Result` type.
- `Graphs` holds node identifiers, the graph as the models see it, and `validate_graph`.
- `Random` holds the draw stream.
- `DiffusionModel` holds the shared fields, the base constructor, `is_terminated`, and the `run` loop. The loop is generic in the concrete model.
- `CascadePass` covers one double-buffered SIR pass of `step`. It characterises the result node by node, counts the draws consumed, and shows that testing the new buffer equals testing the old one.
- `IndependentCascade` holds the concrete model: construction, `reset`, `state_summary`, `step`, convergence, and `run`.
- `PathScenario` works through one run: the five-node path with certain infection.

Modelling choices:

- **Graph.** A graph is its node list in insertion order plus, for each position, the positions of its neighbours. `networkx` iterates nodes in insertion order, which need not be sorted. Once validation has passed, the node at each position carries a dense integer identifier. That identifier indexes the state.
- **Random draws.** The generator is an infinite stream `nat -> real` and a count of draws consumed. A step consumes one draw per (infected node, neighbour) pair, in node order and then neighbour order.
- **Shuffle.** The shuffle in `reset` is an input permutation together with the number of draws it consumed.
- **Warnings.** The terminated warning is a boolean `warned` in the result of `step`, `run` and `is_terminated`.
- **Invalid `initially_infected`.** A float `initially_infected` outside `(0, 1)` is kept as a float by the constructor. `reset` then fails with a `TypeError` when it multiplies a list by it. The model reports this as `Err(NonIntegerCount)` from construction.
- **Counts outside `[0, N]`.** An integer count outside `[0, N]` is not rejected by the source. Python's list repetition gives `max(0, N-k)` susceptible and `max(0, k)` infected labels. The model keeps this, so a live model's state holds at least `N` labels, not exactly `N`.
- **The path run ends at iteration 5.** On the path 0 - 1 - 2 - 3 - 4 with probability 1 and node 0 infected first, `run()` ends at iteration 5. The fifth step finds node 4 infected, so it commits and counts. The sixth call finds nothing infected and only sets the flag (see `PathScenario.PathRun`).

## Model

| member | source | states |
|---|---|---|
| Seqs.Sort | lightning_diffusion/models/diffusion_model.py:81 | `sorted`: the result is in ascending order and is a rearrangement of the input (same multiset) |
| Seqs.SortedUnique | lightning_diffusion/models/diffusion_model.py:81-85 | two sorted sequences with the same multiset are equal, so comparing the sorted ids with `range(N)` is a test on the id multiset |
| Seqs.Repeat | lightning_diffusion/models/independent_cascade.py:76-78 | Python `[x] * n`: `n` copies of `x` for positive `n`, the empty list otherwise |
| Seqs.PermutePreservesMultiset | lightning_diffusion/models/independent_cascade.py:80 | rearranging a list by a permutation keeps its multiset, so shuffling keeps the label counts |
| Seqs.PermutationCovers | lightning_diffusion/models/independent_cascade.py:49 | a permutation of `0..N-1` lists every node, so the loop over the node order visits every node exactly once |
| Graphs.ValidateGraphCorrect | lightning_diffusion/models/diffusion_model.py:73-86 | on distinct nodes, validation accepts exactly when the node set is `{0, ..., N-1}`, whatever the insertion order |
| Graphs.ValidateGraphSupported | lightning_diffusion/models/diffusion_model.py:73-86 | on a well-formed graph, validation passes exactly for the graphs the models support |
| Graphs.Order | lightning_diffusion/models/independent_cascade.py:49 | the iteration order of a validated graph is a permutation of `0..N-1` matching the node list position by position |
| Graphs.NeighbourIds | lightning_diffusion/models/independent_cascade.py:54 | the neighbours of each node, as identifiers below `N`, one per listed neighbour and in the graph's order |
| Graphs.RejectsSparseIds | tests/test_diffusion_model.py:28-38 | the graph with ids 9, 7, 15 is rejected |
| Graphs.RejectsNamedNode | tests/test_diffusion_model.py:28-38 | the graph with the single node "node" is rejected |
| Graphs.AcceptsShuffledIds | tests/test_diffusion_model.py:41-48 | the graph with ids inserted as 2, 4, 0, 3, 1 is accepted |
| Random.Advance | lightning_diffusion/models/independent_cascade.py:55 | consuming `k` draws keeps the stream and moves the cursor by exactly `k`; the next draws are the old ones shifted by `k` |
| DiffusionModel.NewBase | lightning_diffusion/models/diffusion_model.py:15-28 | construction fails with the unsupported-graph error exactly on an unsupported graph; otherwise iteration 0, terminated, empty state |
| DiffusionModel.IsTerminated | lightning_diffusion/models/diffusion_model.py:88-97 | returns the flag, warns exactly when it is set, and changes nothing |
| DiffusionModel.RunFor | lightning_diffusion/models/diffusion_model.py:58-68 | the bounded loop performs between 1 and `n` steps, leaves right after the first step that terminated the model, and stops early only then |
| DiffusionModel.RunUntil | lightning_diffusion/models/diffusion_model.py:69-71 | the unbounded loop steps exactly until the flag is set, within the variant's bound |
| DiffusionModel.Run | lightning_diffusion/models/diffusion_model.py:50-71 | on a terminated model no step and a warning; `n_iter > 0` gives at most `n_iter` steps, stopping early only on termination; `n_iter <= 0`, including 0, runs to termination |
| CascadePass.SpreadEffect | lightning_diffusion/models/independent_cascade.py:56-61 | the inner loop infects exactly the still-susceptible targets with a draw at most the probability, and keeps the buffer consistent with the old state |
| CascadePass.PassCorrect | lightning_diffusion/models/independent_cascade.py:46-63 | the whole pass yields, per node, recovered for a visited infected node, infected for a susceptible node hit by some attempt, the old label otherwise; it consumes one draw per attempt and reports whether any visited node was infected |
| CascadePass.PassEitherBuffer | lightning_diffusion/models/independent_cascade.py:56-61 | testing susceptibility on the new buffer gives the same pass as testing the pre-step state |
| CascadePass.AttemptsComplete | lightning_diffusion/models/independent_cascade.py:49-58 | every listed edge out of a node infected before the step gets an attempt |
| CascadePass.AttemptsShape | lightning_diffusion/models/independent_cascade.py:49-58 | every attempt comes from a node infected before the step, targets one of its listed neighbours, and uses consecutive draws; their number is the summed degree of the infected nodes |
| IndependentCascade.InitialCount | lightning_diffusion/models/independent_cascade.py:22-25 | a fraction strictly between 0 and 1 becomes the truncation of `x * N`, which lies in `[0, N]`; an integer is kept; any other float is an error |
| IndependentCascade.InitialLabels | lightning_diffusion/models/independent_cascade.py:76-78 | the unshuffled state is `N - k` susceptible labels followed by `k` infected ones (each count clamped at 0): position `i` is infected exactly when `i >= N - k`, susceptible exactly when `i < N - k`, and nothing is recovered |
| IndependentCascade.Reset | lightning_diffusion/models/independent_cascade.py:72-80 | a live model at iteration 0 whose state is a rearrangement of the initial labels; for `0 <= k <= N` it has length `N`, `k` infected, `N - k` susceptible, none recovered |
| IndependentCascade.New | lightning_diffusion/models/independent_cascade.py:12-29 | construction fails on an unsupported graph first, then on a non-count float; otherwise a reset model keeping the graph, probability and converted count |
| IndependentCascade.InitExamples | tests/test_independent_cascade.py:29-38 | on 100 nodes, 0.25 gives 25 infected and 75 gives 75, at iteration 0 and not terminated |
| IndependentCascade.Counter | lightning_diffusion/models/independent_cascade.py:33 | the counter's keys are the labels present, each mapped to its number of occurrences |
| IndependentCascade.StateSummary | lightning_diffusion/models/independent_cascade.py:31-39 | keys are exactly the three labels, each value is that label's count (0 when absent), and the values sum to the state's length |
| IndependentCascade.Step | lightning_diffusion/models/independent_cascade.py:41-70 | a terminated model is untouched and warned; with no infected node the model only terminates; otherwise the per-node next state is committed, iteration grows by 1 and the cursor advances by the number of attempts |
| IndependentCascade.StepMonotone | lightning_diffusion/models/independent_cascade.py:47-63 | infected nodes recover, recovered nodes stay recovered, and no node becomes susceptible |
| IndependentCascade.StepInfects | lightning_diffusion/models/independent_cascade.py:49-61 | a node ends up infected exactly when it was susceptible and some attempt on it drew at most the probability |
| IndependentCascade.StepAttemptsShape | lightning_diffusion/models/independent_cascade.py:49-58 | a step's attempts come from nodes infected before the step, along edges, with consecutive draws, as many as the summed degree of the infected nodes |
| IndependentCascade.AttemptsNeedInfected | lightning_diffusion/models/independent_cascade.py:65-67 | a step makes an attempt only when some node is infected, so a terminating step consumes no draws |
| IndependentCascade.StepCertain | lightning_diffusion/models/independent_cascade.py:49-61 | with probability at least 1 and draws below 1, a node becomes infected exactly when it was susceptible and had an infected neighbour |
| IndependentCascade.InfectionIsLocal | lightning_diffusion/models/independent_cascade.py:49-61 | a newly infected node was susceptible and has a neighbour that was infected before the step |
| IndependentCascade.StepDecreases | lightning_diffusion/models/independent_cascade.py:65-70 | every live step terminates the model or strictly lowers the number of unrecovered nodes |
| IndependentCascade.CascadeConverges | lightning_diffusion/models/diffusion_model.py:69-71 | the unbounded loop's termination measure decreases on every live step of this model |
| IndependentCascade.IterateKeeps | lightning_diffusion/models/independent_cascade.py:65-70 | along live steps graph, parameters and state length are kept; iteration counts every step but a final terminating one |
| IndependentCascade.RunCascade | lightning_diffusion/models/diffusion_model.py:50-71 | `run(n)` with `n > 0` raises the iteration by at most `n`, and by exactly `n` unless terminated; `run(n <= 0)` terminates within `N + 1` step calls, `N` the node count, since only nodes `0..N-1` are ever visited |
| IndependentCascade.TerminatedStaysPut | tests/test_diffusion_model.py:15-26 | after a run to termination, a further step or run changes nothing and warns |
| PathScenario.PathStep | lightning_diffusion/models/independent_cascade.py:41-70 | on the path with certain infection, a step recovers the infected node and infects the next one, keeping the model live |
| PathScenario.PathEnd | lightning_diffusion/models/independent_cascade.py:65-67 | once every path node is recovered, the next step only sets the flag |
| PathScenario.PathRun | lightning_diffusion/models/diffusion_model.py:69-71 | `run()` on the path calls `step` six times and stops terminated at iteration 5 with every node recovered |

## Left out

- The `tqdm` progress bar (lightning_diffusion/models/diffusion_model.py:59-62) is presentation only. The bounded loop is modelled without it.
- Python's `warnings` machinery is replaced by a `warned` boolean in results.
- NumPy's PCG64 generator and its `shuffle` algorithm are foreign code. Draws are an abstract stream of reals, and the shuffle is an input permutation plus its draw count. Reproducing a seed bit for bit is not modelled.
- IndependentCascade.InitialCount: computes `x * N` in exact reals. Float rounding in `int(initially_infected * len(graph))` can give one less, as with 0.29 * 100 = 28 in binary floating point.
- `networkx` graph internals and the Barabási–Albert fixtures are not modelled. The graph is a node list plus positional adjacency, with distinct nodes and in-range neighbours. Symmetry of the adjacency is not needed by any property and is not assumed.
- Node identifiers other than integers and strings (floats, booleans, tuples) are not modelled. A string stands for any non-integer identifier. Python's `sorted` on an int/string mix raises `TypeError`, which the model treats like any other rejection.
- `infection_probability` is kept as given. Nothing checks that it lies in `[0, 1]`, and neither does the source.
- `__init__`'s `random_state` argument becomes the initial `Rng` value. Seeding is not modelled.
- The ndlib compatibility comparison and the benchmarks in tests/test_independent_cascade.py are statistical comparisons with another library. They are not contracts.
- `models/__init__.py` only re-exports names and is not modelled.

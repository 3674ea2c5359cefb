/** The random-number collaborator, reduced to what the models observe: an
    endless stream of uniform draws and how many of them have been consumed. */
module Random {

  /** `stream(i)` is the `i`-th draw the generator ever produces; `pos` counts
      the draws consumed so far. */
  datatype Rng = Rng(stream: nat -> real, pos: nat)

  /** The `j`-th draw after the ones already consumed. */
  function Upcoming(rng: Rng, j: nat): real {
    rng.stream(rng.pos + j)
  }

  /** The generator after `k` more draws. */
  function Advance(rng: Rng, k: nat): (r: Rng)
    ensures r.stream == rng.stream
    ensures r.pos - rng.pos == k
    ensures forall j: nat :: Upcoming(r, j) == Upcoming(rng, k + j)
  {
    Rng(rng.stream, rng.pos + k)
  }

  /** Every draw lies in `[0, 1)`, as a uniform generator promises. */
  ghost predicate UnitDraws(rng: Rng) {
    forall i: nat :: 0.0 <= rng.stream(i) < 1.0
  }
}

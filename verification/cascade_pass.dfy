/** One pass of the Independent Cascade step over the two state buffers: every
    node infected in the OLD buffer draws once per neighbour, infects the
    neighbours whose draw is at most the infection probability and that the
    new buffer still holds susceptible, then recovers in the new buffer.

    The pass is proved equal to a declarative next state (`NextLabel`), and
    equal to the variant that tests susceptibility in the OLD buffer. */
module CascadePass {

  datatype Label = Susceptible | Infected | Recovered

  /** `source` tries to infect `target` using draw number `draw` of the stream. */
  datatype Attempt = Attempt(source: nat, target: nat, draw: nat)

  /** The node iteration order and, for the node at each position of it, the
      identifiers of its neighbours. */
  datatype Topology = Topology(order: seq<nat>, nbrs: seq<seq<nat>>)

  /** Every node and neighbour identifier indexes a buffer of length `n`. */
  predicate Fits(t: Topology, n: nat) {
    && |t.order| == |t.nbrs|
    && (forall k :: 0 <= k < |t.order| ==> t.order[k] < n)
    && (forall k, j :: 0 <= k < |t.nbrs| && 0 <= j < |t.nbrs[k]| ==> t.nbrs[k][j] < n)
  }

  /** The neighbours of `v` zipped with the draws from `pos` on. */
  function Edges(v: nat, ns: seq<nat>, pos: nat): (r: seq<Attempt>)
    ensures |r| == |ns|
    ensures forall j :: 0 <= j < |ns| ==> r[j] == Attempt(v, ns[j], pos + j)
  {
    seq(|ns|, j requires 0 <= j < |ns| => Attempt(v, ns[j], pos + j))
  }

  /** The inner loop of the step: a successful draw infects the target when
      the NEW buffer still holds it susceptible. */
  function Spread(buf: seq<Label>, es: seq<Attempt>, stream: nat -> real, p: real): (r: seq<Label>)
    requires forall e :: e in es ==> e.target < |buf|
    ensures |r| == |buf|
    decreases |es|
  {
    if es == [] then buf
    else
      var e := es[0];
      var next := if stream(e.draw) <= p && buf[e.target] == Susceptible then buf[e.target := Infected] else buf;
      Spread(next, es[1..], stream, p)
  }

  /** The attempts the pass makes from position `k` of the order on, the
      first one using draw `pos`: the pairs (infected node, neighbour) in
      node order, then neighbour order. */
  function Attempts(prev: seq<Label>, t: Topology, k: nat, pos: nat): (r: seq<Attempt>)
    requires Fits(t, |prev|) && k <= |t.order|
    ensures forall e :: e in r ==> e.target < |prev|
    decreases |t.order| - k
  {
    if k == |t.order| then []
    else if prev[t.order[k]] == Infected then
      Edges(t.order[k], t.nbrs[k], pos) + Attempts(prev, t, k + 1, pos + |t.nbrs[k]|)
    else Attempts(prev, t, k + 1, pos)
  }

  /** The new buffer, the stream position after the pass, and whether any
      infected node was met. */
  datatype PassResult = PassResult(buffer: seq<Label>, pos: nat, anyInfected: bool)

  /** The outer loop of the step from position `k` of the order on. Whether a
      node spreads is decided on the OLD buffer `prev`; its infections and its
      recovery are written to the new one. */
  function Pass(prev: seq<Label>, t: Topology, k: nat, buf: seq<Label>, stream: nat -> real, pos: nat, p: real)
    : (r: PassResult)
    requires Fits(t, |prev|) && k <= |t.order| && |buf| == |prev|
    ensures |r.buffer| == |prev|
    decreases |t.order| - k
  {
    if k == |t.order| then PassResult(buf, pos, false)
    else
      var v := t.order[k];
      if prev[v] != Infected then Pass(prev, t, k + 1, buf, stream, pos, p)
      else
        var es := Edges(v, t.nbrs[k], pos);
        var spread := Spread(buf, es, stream, p)[v := Recovered];
        var rest := Pass(prev, t, k + 1, spread, stream, pos + |es|, p);
        PassResult(rest.buffer, rest.pos, true)
  }

  // ---------------------------------------------------------------------------
  // The declarative next state

  /** Some attempt on `i` in `es` drew at most `p`. */
  ghost predicate Hit(i: nat, es: seq<Attempt>, stream: nat -> real, p: real) {
    exists m :: 0 <= m < |es| && es[m].target == i && stream(es[m].draw) <= p
  }

  /** Node `i` is still to be visited from position `k` of the order on. */
  ghost predicate Pending(t: Topology, k: nat, i: nat) {
    exists m :: k <= m < |t.order| && t.order[m] == i
  }

  /** The label of node `i` after the step: infected nodes of the order
      recover; a susceptible node is infected exactly when an attempt on it
      succeeds; every other label is kept. */
  ghost function NextLabel(prev: seq<Label>, t: Topology, stream: nat -> real, pos: nat, p: real, i: nat): Label
    requires Fits(t, |prev|) && i < |prev|
  {
    if i in t.order && prev[i] == Infected then Recovered
    else if prev[i] == Susceptible && Hit(i, Attempts(prev, t, 0, pos), stream, p) then Infected
    else prev[i]
  }

  /** Every label of `buf` is one a pass can produce from `prev`: no label
      ever becomes susceptible, and recovered is final. */
  predicate Consistent(prev: seq<Label>, buf: seq<Label>) {
    && |buf| == |prev|
    && forall i :: 0 <= i < |prev| ==>
         && (prev[i] == Susceptible ==> buf[i] != Recovered)
         && (prev[i] == Infected ==> buf[i] != Susceptible)
         && (prev[i] == Recovered ==> buf[i] == Recovered)
  }

  /** The label of `i` after the rest of a pass, from position `k` on with
      the attempts `es` still to come and the new buffer at `buf`. */
  ghost function Expected(prev: seq<Label>, buf: seq<Label>, t: Topology, k: nat, es: seq<Attempt>,
                          stream: nat -> real, p: real, i: nat): Label
    requires i < |prev| && |buf| == |prev|
  {
    if Pending(t, k, i) && prev[i] == Infected then Recovered
    else if prev[i] == Susceptible && (buf[i] == Infected || Hit(i, es, stream, p)) then Infected
    else buf[i]
  }

  lemma HitCons(i: nat, es: seq<Attempt>, stream: nat -> real, p: real)
    requires es != []
    ensures Hit(i, es, stream, p) <==>
              (es[0].target == i && stream(es[0].draw) <= p) || Hit(i, es[1..], stream, p)
  {
  }

  lemma HitConcat(i: nat, a: seq<Attempt>, b: seq<Attempt>, stream: nat -> real, p: real)
    ensures Hit(i, a + b, stream, p) <==> Hit(i, a, stream, p) || Hit(i, b, stream, p)
  {
    if Hit(i, a + b, stream, p) {
      var m :| 0 <= m < |a + b| && (a + b)[m].target == i && stream((a + b)[m].draw) <= p;
      if m >= |a| {
        assert b[m - |a|] == (a + b)[m];
      }
    }
    if Hit(i, b, stream, p) {
      var m :| 0 <= m < |b| && b[m].target == i && stream(b[m].draw) <= p;
      assert (a + b)[|a| + m] == b[m];
    }
    if Hit(i, a, stream, p) {
      var m :| 0 <= m < |a| && a[m].target == i && stream(a[m].draw) <= p;
      assert (a + b)[m] == a[m];
    }
  }

  lemma PendingStep(t: Topology, k: nat, i: nat)
    requires k < |t.order|
    ensures Pending(t, k, i) <==> t.order[k] == i || Pending(t, k + 1, i)
  {
  }

  /** The inner loop infects exactly the susceptible targets of successful
      draws, whichever buffer it tests. */
  lemma {:induction false} SpreadEffect(prev: seq<Label>, buf: seq<Label>, es: seq<Attempt>, stream: nat -> real, p: real)
    requires Consistent(prev, buf)
    requires forall e :: e in es ==> e.target < |buf|
    ensures Consistent(prev, Spread(buf, es, stream, p))
    ensures forall i :: 0 <= i < |prev| ==>
              Spread(buf, es, stream, p)[i]
              == (if prev[i] == Susceptible && (buf[i] == Infected || Hit(i, es, stream, p)) then Infected else buf[i])
    decreases |es|
  {
    if es != [] {
      var e := es[0];
      var next := if stream(e.draw) <= p && buf[e.target] == Susceptible then buf[e.target := Infected] else buf;
      assert forall x :: x in es[1..] ==> x in es;
      SpreadEffect(prev, next, es[1..], stream, p);
      forall i | 0 <= i < |prev|
        ensures Spread(buf, es, stream, p)[i]
                == (if prev[i] == Susceptible && (buf[i] == Infected || Hit(i, es, stream, p)) then Infected else buf[i])
      {
        HitCons(i, es, stream, p);
      }
    }
  }

  /** The rest of a pass consumes one draw per attempt. */
  lemma {:induction false} PassDraws(prev: seq<Label>, t: Topology, k: nat, buf: seq<Label>,
                                     stream: nat -> real, pos: nat, p: real)
    requires Fits(t, |prev|) && k <= |t.order| && |buf| == |prev|
    ensures Pass(prev, t, k, buf, stream, pos, p).pos == pos + |Attempts(prev, t, k, pos)|
    decreases |t.order| - k
  {
    if k < |t.order| {
      var v := t.order[k];
      if prev[v] != Infected {
        PassDraws(prev, t, k + 1, buf, stream, pos, p);
      } else {
        var edges := Edges(v, t.nbrs[k], pos);
        PassDraws(prev, t, k + 1, Spread(buf, edges, stream, p)[v := Recovered], stream, pos + |edges|, p);
      }
    }
  }

  /** The rest of a pass reports an infected node exactly when one is left
      in the order. */
  lemma {:induction false} PassMeetsInfected(prev: seq<Label>, t: Topology, k: nat, buf: seq<Label>,
                                             stream: nat -> real, pos: nat, p: real)
    requires Fits(t, |prev|) && k <= |t.order| && |buf| == |prev|
    ensures Pass(prev, t, k, buf, stream, pos, p).anyInfected <==>
              (exists m :: k <= m < |t.order| && prev[t.order[m]] == Infected)
    decreases |t.order| - k
  {
    if k < |t.order| {
      var v := t.order[k];
      if prev[v] != Infected {
        PassMeetsInfected(prev, t, k + 1, buf, stream, pos, p);
        if exists m :: k <= m < |t.order| && prev[t.order[m]] == Infected {
          var m :| k <= m < |t.order| && prev[t.order[m]] == Infected;
          assert m != k;
        }
      }
    }
  }

  /** Skipping a node that is not infected changes no expected label. */
  lemma ExpectedSkip(prev: seq<Label>, buf: seq<Label>, t: Topology, k: nat, es: seq<Attempt>,
                     stream: nat -> real, p: real, i: nat)
    requires Fits(t, |prev|) && k < |t.order| && prev[t.order[k]] != Infected
    requires i < |prev| && |buf| == |prev|
    ensures Expected(prev, buf, t, k + 1, es, stream, p, i) == Expected(prev, buf, t, k, es, stream, p, i)
  {
  }

  /** Visiting an infected node: its attempts move from the expected future
      into the new buffer, and it recovers. */
  lemma ExpectedVisit(prev: seq<Label>, buf: seq<Label>, spread: seq<Label>, t: Topology, k: nat,
                      edges: seq<Attempt>, later: seq<Attempt>, stream: nat -> real, p: real, i: nat)
    requires Fits(t, |prev|) && k < |t.order| && prev[t.order[k]] == Infected
    requires i < |prev| && |buf| == |prev| && |spread| == |prev|
    requires Consistent(prev, buf)
    requires spread[t.order[k]] == Recovered
    requires i != t.order[k] ==>
               spread[i] == (if prev[i] == Susceptible && (buf[i] == Infected || Hit(i, edges, stream, p))
                             then Infected else buf[i])
    ensures Expected(prev, spread, t, k + 1, later, stream, p, i)
            == Expected(prev, buf, t, k, edges + later, stream, p, i)
  {
    PendingStep(t, k, i);
    HitConcat(i, edges, later, stream, p);
  }

  /** The rest of a pass from position `k` on leaves `Expected` at every node. */
  lemma {:induction false} PassEffect(prev: seq<Label>, t: Topology, k: nat, buf: seq<Label>,
                                      stream: nat -> real, pos: nat, p: real)
    requires Fits(t, |prev|) && k <= |t.order|
    requires Consistent(prev, buf)
    ensures forall i :: 0 <= i < |prev| ==>
              Pass(prev, t, k, buf, stream, pos, p).buffer[i]
              == Expected(prev, buf, t, k, Attempts(prev, t, k, pos), stream, p, i)
    decreases |t.order| - k
  {
    if k < |t.order| {
      var v := t.order[k];
      var es := Attempts(prev, t, k, pos);
      if prev[v] != Infected {
        PassEffect(prev, t, k + 1, buf, stream, pos, p);
        forall i | 0 <= i < |prev|
          ensures Expected(prev, buf, t, k + 1, es, stream, p, i) == Expected(prev, buf, t, k, es, stream, p, i)
        {
          ExpectedSkip(prev, buf, t, k, es, stream, p, i);
        }
      } else {
        var edges := Edges(v, t.nbrs[k], pos);
        var spread := Spread(buf, edges, stream, p)[v := Recovered];
        var later := Attempts(prev, t, k + 1, pos + |edges|);
        assert es == edges + later;
        SpreadEffect(prev, buf, edges, stream, p);
        PassEffect(prev, t, k + 1, spread, stream, pos + |edges|, p);
        forall i | 0 <= i < |prev|
          ensures Expected(prev, spread, t, k + 1, later, stream, p, i) == Expected(prev, buf, t, k, es, stream, p, i)
        {
          ExpectedVisit(prev, buf, spread, t, k, edges, later, stream, p, i);
        }
      }
    }
  }

  /** A whole pass, started with the new buffer a copy of the old one, yields
      `NextLabel` at every node, consumes one draw per attempt, and reports
      whether any node of the order was infected. */
  lemma PassCorrect(prev: seq<Label>, t: Topology, stream: nat -> real, pos: nat, p: real)
    requires Fits(t, |prev|)
    ensures Pass(prev, t, 0, prev, stream, pos, p).pos == pos + |Attempts(prev, t, 0, pos)|
    ensures Pass(prev, t, 0, prev, stream, pos, p).anyInfected <==>
              (exists m :: 0 <= m < |t.order| && prev[t.order[m]] == Infected)
    ensures forall i :: 0 <= i < |prev| ==>
              Pass(prev, t, 0, prev, stream, pos, p).buffer[i] == NextLabel(prev, t, stream, pos, p, i)
  {
    PassDraws(prev, t, 0, prev, stream, pos, p);
    PassMeetsInfected(prev, t, 0, prev, stream, pos, p);
    PassEffect(prev, t, 0, prev, stream, pos, p);
    forall i | 0 <= i < |prev|
      ensures Pending(t, 0, i) <==> i in t.order
    {
      if i in t.order {
        var m :| 0 <= m < |t.order| && t.order[m] == i;
      }
    }
  }

  // ---------------------------------------------------------------------------
  // Which buffer the susceptibility test reads

  /** The inner loop as it would read if it tested the OLD buffer. */
  function SpreadOnPrev(prev: seq<Label>, buf: seq<Label>, es: seq<Attempt>, stream: nat -> real, p: real)
    : (r: seq<Label>)
    requires |buf| == |prev|
    requires forall e :: e in es ==> e.target < |buf|
    ensures |r| == |buf|
    decreases |es|
  {
    if es == [] then buf
    else
      var e := es[0];
      var next := if stream(e.draw) <= p && prev[e.target] == Susceptible then buf[e.target := Infected] else buf;
      SpreadOnPrev(prev, next, es[1..], stream, p)
  }

  /** The outer loop with the susceptibility test on the OLD buffer. */
  function PassOnPrev(prev: seq<Label>, t: Topology, k: nat, buf: seq<Label>, stream: nat -> real, pos: nat, p: real)
    : (r: PassResult)
    requires Fits(t, |prev|) && k <= |t.order| && |buf| == |prev|
    decreases |t.order| - k
  {
    if k == |t.order| then PassResult(buf, pos, false)
    else
      var v := t.order[k];
      if prev[v] != Infected then PassOnPrev(prev, t, k + 1, buf, stream, pos, p)
      else
        var es := Edges(v, t.nbrs[k], pos);
        var spread := SpreadOnPrev(prev, buf, es, stream, p)[v := Recovered];
        var rest := PassOnPrev(prev, t, k + 1, spread, stream, pos + |es|, p);
        PassResult(rest.buffer, rest.pos, true)
  }

  /** Testing the new buffer or the old one gives the same inner loop: the
      new buffer differs from the old one only where a node was already
      infected in this step, and infecting it again changes nothing. */
  lemma {:induction false} SpreadEitherBuffer(prev: seq<Label>, buf: seq<Label>, es: seq<Attempt>,
                                              stream: nat -> real, p: real)
    requires Consistent(prev, buf)
    requires forall e :: e in es ==> e.target < |buf|
    ensures Spread(buf, es, stream, p) == SpreadOnPrev(prev, buf, es, stream, p)
    decreases |es|
  {
    if es != [] {
      var e := es[0];
      var next := if stream(e.draw) <= p && buf[e.target] == Susceptible then buf[e.target := Infected] else buf;
      if stream(e.draw) <= p && prev[e.target] == Susceptible && buf[e.target] != Susceptible {
        assert buf[e.target] == Infected;
        assert buf[e.target := Infected] == buf;
      }
      assert forall x :: x in es[1..] ==> x in es;
      SpreadEitherBuffer(prev, next, es[1..], stream, p);
    }
  }

  lemma {:induction false} PassEitherBufferFrom(prev: seq<Label>, t: Topology, k: nat, buf: seq<Label>,
                                                stream: nat -> real, pos: nat, p: real)
    requires Fits(t, |prev|) && k <= |t.order|
    requires Consistent(prev, buf)
    ensures Pass(prev, t, k, buf, stream, pos, p) == PassOnPrev(prev, t, k, buf, stream, pos, p)
    decreases |t.order| - k
  {
    if k < |t.order| {
      var v := t.order[k];
      if prev[v] != Infected {
        PassEitherBufferFrom(prev, t, k + 1, buf, stream, pos, p);
      } else {
        var es := Edges(v, t.nbrs[k], pos);
        SpreadEffect(prev, buf, es, stream, p);
        SpreadEitherBuffer(prev, buf, es, stream, p);
        PassEitherBufferFrom(prev, t, k + 1, Spread(buf, es, stream, p)[v := Recovered], stream, pos + |es|, p);
      }
    }
  }

  /** Reading `new_state[neighbor]` rather than the old state in the
      susceptibility test does not change the outcome of a step. */
  lemma PassEitherBuffer(prev: seq<Label>, t: Topology, stream: nat -> real, pos: nat, p: real)
    requires Fits(t, |prev|)
    ensures Pass(prev, t, 0, prev, stream, pos, p) == PassOnPrev(prev, t, 0, prev, stream, pos, p)
  {
    PassEitherBufferFrom(prev, t, 0, prev, stream, pos, p);
  }

  // ---------------------------------------------------------------------------
  // The attempts

  /** The summed degree of the nodes of the order, from position `k` on, that
      are infected in `prev`. */
  function InfectedDegree(prev: seq<Label>, t: Topology, k: nat): nat
    requires Fits(t, |prev|) && k <= |t.order|
    decreases |t.order| - k
  {
    if k == |t.order| then 0
    else (if prev[t.order[k]] == Infected then |t.nbrs[k]| else 0) + InfectedDegree(prev, t, k + 1)
  }

  /** The attempts use consecutive draws, one per (infected node, neighbour)
      pair: every source is a node of the order infected in the OLD buffer,
      and every target is one of its neighbours. */
  lemma {:induction false} AttemptsShape(prev: seq<Label>, t: Topology, k: nat, pos: nat)
    requires Fits(t, |prev|) && k <= |t.order|
    ensures |Attempts(prev, t, k, pos)| == InfectedDegree(prev, t, k)
    ensures forall m :: 0 <= m < |Attempts(prev, t, k, pos)| ==>
              && Attempts(prev, t, k, pos)[m].draw == pos + m
              && Attempts(prev, t, k, pos)[m].source < |prev|
              && prev[Attempts(prev, t, k, pos)[m].source] == Infected
              && exists q :: k <= q < |t.order| && t.order[q] == Attempts(prev, t, k, pos)[m].source
                             && Attempts(prev, t, k, pos)[m].target in t.nbrs[q]
    decreases |t.order| - k
  {
    if k < |t.order| {
      var v := t.order[k];
      if prev[v] != Infected {
        AttemptsShape(prev, t, k + 1, pos);
      } else {
        var edges := Edges(v, t.nbrs[k], pos);
        var later := Attempts(prev, t, k + 1, pos + |edges|);
        AttemptsShape(prev, t, k + 1, pos + |edges|);
        var es := Attempts(prev, t, k, pos);
        assert es == edges + later;
        forall m | 0 <= m < |es|
          ensures && es[m].draw == pos + m
                  && es[m].source < |prev|
                  && prev[es[m].source] == Infected
                  && exists q :: k <= q < |t.order| && t.order[q] == es[m].source && es[m].target in t.nbrs[q]
        {
          if m < |edges| {
            assert es[m] == edges[m];
            assert t.nbrs[k][m] in t.nbrs[k];
          } else {
            assert es[m] == later[m - |edges|];
          }
        }
      }
    }
  }

  /** Conversely, every listed edge out of a node infected before the step is
      attempted once the pass reaches that node. */
  lemma {:induction false} AttemptsComplete(prev: seq<Label>, t: Topology, k: nat, pos: nat, q: nat, j: nat)
    requires Fits(t, |prev|) && k <= q < |t.order|
    requires prev[t.order[q]] == Infected && j < |t.nbrs[q]|
    ensures exists m :: 0 <= m < |Attempts(prev, t, k, pos)|
                        && Attempts(prev, t, k, pos)[m].source == t.order[q]
                        && Attempts(prev, t, k, pos)[m].target == t.nbrs[q][j]
    decreases q - k
  {
    var es := Attempts(prev, t, k, pos);
    var v := t.order[k];
    if prev[v] != Infected {
      AttemptsComplete(prev, t, k + 1, pos, q, j);
    } else {
      var edges := Edges(v, t.nbrs[k], pos);
      var later := Attempts(prev, t, k + 1, pos + |edges|);
      assert es == edges + later;
      if q == k {
        assert es[j] == edges[j];
      } else {
        AttemptsComplete(prev, t, k + 1, pos + |edges|, q, j);
        var m :| 0 <= m < |later| && later[m].source == t.order[q] && later[m].target == t.nbrs[q][j];
        assert es[|edges| + m] == later[m];
      }
    }
  }
}

/** Sequence helpers shared by the graph check and the simulation: Python's list
    repetition, an insertion sort (the model of `sorted`), distinctness and
    permutations of index ranges. */
module Seqs {

  /** No element occurs twice. */
  predicate Distinct<T(==)>(s: seq<T>) {
    forall i, j :: 0 <= i < j < |s| ==> s[i] != s[j]
  }

  /** The list `list(range(n))`. */
  function Range(n: nat): (r: seq<nat>)
    ensures |r| == n
    ensures forall i :: 0 <= i < n ==> r[i] == i
  {
    seq(n, i => i)
  }

  /** Python's `[x] * n`: a non-positive factor gives the empty list. */
  function Repeat<T>(x: T, n: int): (r: seq<T>)
    ensures |r| == if n > 0 then n else 0
    ensures forall i :: 0 <= i < |r| ==> r[i] == x
    ensures multiset(r)[x] == |r|
    decreases if n > 0 then n else 0
  {
    if n <= 0 then [] else [x] + Repeat(x, n - 1)
  }

  predicate Sorted(s: seq<int>) {
    forall i, j :: 0 <= i < j < |s| ==> s[i] <= s[j]
  }

  /** A value no larger than every element of a sorted sequence can lead it. */
  lemma SortedCons(a: int, t: seq<int>)
    requires Sorted(t)
    requires forall y :: y in multiset(t) ==> a <= y
    ensures Sorted([a] + t)
  {
    forall i, j | 0 <= i < j < |[a] + t|
      ensures ([a] + t)[i] <= ([a] + t)[j]
    {
      assert ([a] + t)[j] == t[j - 1] && t[j - 1] in multiset(t);
      if i > 0 {
        assert ([a] + t)[i] == t[i - 1];
      }
    }
  }

  /** The head of a sorted sequence is below its tail and anything larger. */
  lemma HeadBelow(s: seq<int>, x: int)
    requires Sorted(s) && s != [] && s[0] < x
    ensures forall y :: y in multiset(s[1..]) + multiset{x} ==> s[0] <= y
  {
    forall y | y in multiset(s[1..]) + multiset{x}
      ensures s[0] <= y
    {
      if y != x {
        var k :| 0 <= k < |s[1..]| && s[1..][k] == y;
        assert s[k + 1] == y;
      }
    }
  }

  /** Inserts `x` in front of the first larger element of the sorted `s`. */
  function Insert(x: int, s: seq<int>): (r: seq<int>)
    requires Sorted(s)
    ensures Sorted(r)
    ensures multiset(r) == multiset(s) + multiset{x}
  {
    if s == [] || x <= s[0] then [x] + s
    else
      var tail := Insert(x, s[1..]);
      assert multiset(s) == multiset{s[0]} + multiset(s[1..]) by {
        assert s == [s[0]] + s[1..];
      }
      HeadBelow(s, x);
      SortedCons(s[0], tail);
      [s[0]] + tail
  }

  /** Python's `sorted` on integers, as an insertion sort. */
  function Sort(s: seq<int>): (r: seq<int>)
    ensures Sorted(r)
    ensures multiset(r) == multiset(s)
  {
    if s == [] then []
    else
      assert s == [s[0]] + s[1..];
      Insert(s[0], Sort(s[1..]))
  }

  lemma SortedTail(s: seq<int>)
    requires Sorted(s) && s != []
    ensures Sorted(s[1..])
  {
    forall i, j | 0 <= i < j < |s[1..]|
      ensures s[1..][i] <= s[1..][j]
    {
      assert s[1..][i] == s[i + 1] && s[1..][j] == s[j + 1];
    }
  }

  /** Two non-empty sorted sequences with the same elements start alike:
      each head is in the other sequence, so each bounds the other from below. */
  lemma SortedHeadsEqual(a: seq<int>, b: seq<int>)
    requires Sorted(a) && Sorted(b) && a != []
    requires multiset(a) == multiset(b)
    ensures b != [] && a[0] == b[0]
  {
    assert a[0] in multiset(b);
    var i :| 0 <= i < |b| && b[i] == a[0];
    assert b[0] in multiset(a);
    var j :| 0 <= j < |a| && a[j] == b[0];
    assert b[0] <= b[i] && a[0] <= a[j];
  }

  /** Two sorted sequences with the same elements are equal: sorting has one answer. */
  lemma {:induction false} SortedUnique(a: seq<int>, b: seq<int>)
    requires Sorted(a) && Sorted(b)
    requires multiset(a) == multiset(b)
    ensures a == b
  {
    if a != [] {
      SortedHeadsEqual(a, b);
      assert a == [a[0]] + a[1..] && b == [b[0]] + b[1..];
      assert multiset(a[1..]) == multiset(a) - multiset{a[0]};
      assert multiset(b[1..]) == multiset(b) - multiset{b[0]};
      SortedTail(a);
      SortedTail(b);
      SortedUnique(a[1..], b[1..]);
    }
  }

  /** `p` lists each of `0..n-1` exactly once. */
  predicate IsPermutation(p: seq<nat>, n: nat) {
    && |p| == n
    && (forall k :: 0 <= k < n ==> p[k] < n)
    && Distinct(p)
  }

  /** The elements of `s`, as a set. */
  function Elems<T>(s: seq<T>): set<T> {
    set x | x in s
  }

  lemma {:induction false} DistinctSetSize<T>(s: seq<T>)
    requires Distinct(s)
    ensures |Elems(s)| == |s|
  {
    if s != [] {
      var init := s[..|s| - 1];
      var last := s[|s| - 1];
      assert s == init + [last];
      assert Distinct(init) by {
        forall i, j | 0 <= i < j < |init|
          ensures init[i] != init[j]
        {
          assert init[i] == s[i] && init[j] == s[j];
        }
      }
      DistinctSetSize(init);
      assert forall k :: 0 <= k < |init| ==> init[k] != last;
      assert Elems(s) == Elems(init) + {last};
    }
  }

  /** Pigeonhole: a permutation of `0..n-1` contains every index. */
  lemma PermutationCovers(p: seq<nat>, n: nat)
    requires IsPermutation(p, n)
    ensures forall x: nat :: x < n ==> x in p
  {
    var inP := Elems(p);
    var below := Elems(Range(n));
    DistinctSetSize(p);
    DistinctSetSize(Range(n));
    forall y | y in inP
      ensures y in below
    {
      assert Range(n)[y] == y;
    }
    assert below == inP + (below - inP);
    assert inP * (below - inP) == {};
    assert |below - inP| == 0;
    forall x: nat | x < n
      ensures x in p
    {
      assert Range(n)[x] == x;
      assert x in below;
    }
  }

  lemma IndexOf<T>(s: seq<T>, x: T) returns (t: nat)
    requires x in s
    ensures t < |s| && s[t] == x
  {
    t :| 0 <= t < |s| && s[t] == x;
  }

  /** `Permute(s, p)[k] == s[p[k]]`: the list `s` rearranged by the index list `p`. */
  function Permute<T>(s: seq<T>, p: seq<nat>): (r: seq<T>)
    requires forall k :: 0 <= k < |p| ==> p[k] < |s|
    ensures |r| == |p|
  {
    seq(|p|, k requires 0 <= k < |p| => s[p[k]])
  }

  /** Dropping the entry `n - 1` from a permutation of `0..n-1` leaves a
      permutation of `0..n-2`. */
  lemma DropLast(p: seq<nat>, n: nat, t: nat)
    requires IsPermutation(p, n)
    requires t < n && p[t] == n - 1
    ensures IsPermutation(p[..t] + p[t + 1..], n - 1)
  {
  }

  lemma PermuteSplit<T>(s: seq<T>, p: seq<nat>, t: nat)
    requires |s| > 0 && IsPermutation(p, |s|)
    requires t < |s| && p[t] == |s| - 1
    requires IsPermutation(p[..t] + p[t + 1..], |s| - 1)
    ensures Permute(s, p) == Permute(s[..|s| - 1], p[..t] + p[t + 1..])[..t] + [s[|s| - 1]]
                             + Permute(s[..|s| - 1], p[..t] + p[t + 1..])[t..]
  {
  }

  lemma SpliceMultiset<T>(s: seq<T>, t: nat, x: T)
    requires t <= |s|
    ensures multiset(s[..t] + [x] + s[t..]) == multiset(s) + multiset{x}
  {
    assert s == s[..t] + s[t..];
  }

  /** Rearranging by a permutation keeps every element with its multiplicity. */
  lemma {:induction false} PermutePreservesMultiset<T>(s: seq<T>, p: seq<nat>)
    requires IsPermutation(p, |s|)
    ensures multiset(Permute(s, p)) == multiset(s)
  {
    var n := |s|;
    if n > 0 {
      PermutationCovers(p, n);
      var t := IndexOf(p, n - 1);
      var p' := p[..t] + p[t + 1..];
      var s' := s[..n - 1];
      DropLast(p, n, t);
      PermutePreservesMultiset(s', p');
      PermuteSplit(s, p, t);
      var rest := Permute(s', p');
      SpliceMultiset(rest, t, s[n - 1]);
      assert s == s' + [s[n - 1]];
    }
  }
}

/** Sequences of draws: the Fisher-Yates shuffle that reorders the students
    still in play at the start of every round, and the sums and maps the
    trial loop takes over a shuffled sequence. */
module Shuffling {

  /** `f` applied to every element, in order. */
  function Map<T, U>(f: T -> U, s: seq<T>): (r: seq<U>)
    ensures |r| == |s|
    ensures forall i :: 0 <= i < |s| ==> r[i] == f(s[i])
  {
    seq(|s|, i requires 0 <= i < |s| => f(s[i]))
  }

  lemma MapAppend<T, U>(f: T -> U, a: seq<T>, b: seq<T>)
    ensures Map(f, a + b) == Map(f, a) + Map(f, b)
  {
    assert forall i :: 0 <= i < |a + b| ==> Map(f, a + b)[i] == (Map(f, a) + Map(f, b))[i];
  }

  function Sum(s: seq<nat>): nat
  {
    if s == [] then 0 else s[0] + Sum(s[1..])
  }

  lemma {:induction false} SumAppend(a: seq<nat>, b: seq<nat>)
    ensures Sum(a + b) == Sum(a) + Sum(b)
  {
    if a == [] {
      assert a + b == b;
    } else {
      assert (a + b)[1..] == a[1..] + b;
      SumAppend(a[1..], b);
    }
  }

  /** Overwriting one element changes the sum by the difference. */
  lemma {:induction false} SumUpdate(s: seq<nat>, i: nat, v: nat)
    requires i < |s|
    ensures Sum(s[i := v]) + s[i] == Sum(s) + v
  {
    if i == 0 {
      assert s[i := v][1..] == s[1..];
    } else {
      assert s[i := v][1..] == s[1..][i - 1 := v];
      SumUpdate(s[1..], i - 1, v);
    }
  }

  /** Exchanges the elements at `i` and `j` (the slice's `swap`). */
  function Swap<T>(s: seq<T>, i: nat, j: nat): (r: seq<T>)
    requires i < |s| && j < |s|
    ensures |r| == |s| && r[i] == s[j] && r[j] == s[i]
    ensures forall k :: 0 <= k < |s| && k != i && k != j ==> r[k] == s[k]
    ensures multiset(r) == multiset(s)
  {
    s[i := s[j]][j := s[i]]
  }

  lemma MapSwap<T, U>(f: T -> U, s: seq<T>, i: nat, j: nat)
    requires i < |s| && j < |s|
    ensures Map(f, Swap(s, i, j)) == Swap(Map(f, s), i, j)
  {
  }

  lemma SumSwap(s: seq<nat>, i: nat, j: nat)
    requires i < |s| && j < |s|
    ensures Sum(Swap(s, i, j)) == Sum(s)
  {
    SumUpdate(s, i, s[j]);
    SumUpdate(s[i := s[j]], j, s[i]);
  }

  /** The Fisher-Yates steps for positions `k - 1` down to `1`: position `i`
      is exchanged with a position drawn from `[0, i]`. Draw number `pos`
      of the stream `rng` is used first, one draw per step. */
  function ShuffleFrom<T>(s: seq<T>, k: nat, rng: nat -> nat, pos: nat): (r: seq<T>)
    requires k <= |s|
    ensures |r| == |s| && multiset(r) == multiset(s)
    decreases k
  {
    if k <= 1 then s else ShuffleFrom(Swap(s, k - 1, rng(pos) % k), k - 1, rng, pos + 1)
  }

  /** How many draws a shuffle of `n` elements consumes. */
  function ShuffleDraws(n: nat): nat
  {
    if n <= 1 then 0 else n - 1
  }

  /** `shuffle`: a permutation of `s` chosen by the draws from `pos` on. */
  function Shuffle<T>(s: seq<T>, rng: nat -> nat, pos: nat): (r: seq<T>)
    ensures |r| == |s| && multiset(r) == multiset(s)
  {
    ShuffleFrom(s, |s|, rng, pos)
  }

  /** The positions a shuffle picks do not depend on the elements, so
      shuffling commutes with mapping. */
  lemma {:induction false} MapShuffleFrom<T, U>(f: T -> U, s: seq<T>, k: nat, rng: nat -> nat, pos: nat)
    requires k <= |s|
    ensures Map(f, ShuffleFrom(s, k, rng, pos)) == ShuffleFrom(Map(f, s), k, rng, pos)
    decreases k
  {
    if k > 1 {
      var j := rng(pos) % k;
      MapSwap(f, s, k - 1, j);
      MapShuffleFrom(f, Swap(s, k - 1, j), k - 1, rng, pos + 1);
    }
  }

  lemma MapShuffle<T, U>(f: T -> U, s: seq<T>, rng: nat -> nat, pos: nat)
    ensures Map(f, Shuffle(s, rng, pos)) == Shuffle(Map(f, s), rng, pos)
  {
    MapShuffleFrom(f, s, |s|, rng, pos);
  }

  lemma {:induction false} SumShuffleFrom(s: seq<nat>, k: nat, rng: nat -> nat, pos: nat)
    requires k <= |s|
    ensures Sum(ShuffleFrom(s, k, rng, pos)) == Sum(s)
    decreases k
  {
    if k > 1 {
      var j := rng(pos) % k;
      SumSwap(s, k - 1, j);
      SumShuffleFrom(Swap(s, k - 1, j), k - 1, rng, pos + 1);
    }
  }

  /** A shuffle keeps the sum of a sequence of numbers. */
  lemma SumShuffle(s: seq<nat>, rng: nat -> nat, pos: nat)
    ensures Sum(Shuffle(s, rng, pos)) == Sum(s)
  {
    SumShuffleFrom(s, |s|, rng, pos);
  }

}

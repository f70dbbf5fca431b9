/**
 `random.shuffle` (streamlit_app.py lines 34-35) as the Fisher-Yates walk the
 Python runtime performs: for i from n-1 down to 1, pick j in [0, i] and swap
 positions i and j. The random picks are supplied by the caller, so the model
 covers every outcome the shuffle can produce, without its probabilities.
 */
module Shuffling {

  /** Picks the random source may return for a list of length n: the pick for index i lies in [0, i]. */
  predicate ValidPicks(n: nat, picks: seq<nat>)
  {
    |picks| == n && forall i :: 0 <= i < n ==> picks[i] <= i
  }

  /** Exchange the elements at positions i and j. */
  function Swap<T>(xs: seq<T>, i: nat, j: nat): (r: seq<T>)
    requires i < |xs| && j < |xs|
    ensures |r| == |xs| && r[i] == xs[j] && r[j] == xs[i]
    ensures forall k :: 0 <= k < |xs| && k != i && k != j ==> r[k] == xs[k]
    ensures multiset(r) == multiset(xs)
  {
    xs[i := xs[j]][j := xs[i]]
  }

  /** The shuffle steps for indices i-1 down to 1; positions from i on are already final. */
  function ShuffleBelow<T>(xs: seq<T>, picks: seq<nat>, i: nat): (r: seq<T>)
    requires i <= |xs| && ValidPicks(|xs|, picks)
    ensures |r| == |xs|
    ensures multiset(r) == multiset(xs)
    ensures forall k :: i <= k < |xs| ==> r[k] == xs[k]
    decreases i
  {
    if i <= 1 then xs
    else ShuffleBelow(Swap(xs, i - 1, picks[i - 1]), picks, i - 1)
  }

  /** `random.shuffle(xs)` for the given picks: a reordering of `xs`, nothing added or lost. */
  function Shuffle<T>(xs: seq<T>, picks: seq<nat>): (r: seq<T>)
    requires ValidPicks(|xs|, picks)
    ensures |r| == |xs|
    ensures multiset(r) == multiset(xs)
  {
    ShuffleBelow(xs, picks, |xs|)
  }

  /** Equal one-element multisets hold the same element. */
  lemma SingletonContent<T>(xs: seq<T>, ys: seq<T>)
    requires |xs| == 1 && |ys| == 1 && multiset(xs) == multiset(ys)
    ensures xs == ys
  {
    assert xs[0] in multiset(ys);
  }

  /**
   One backward shuffle step that brings ys[i-1] to position i-1 keeps the
   precondition of the steps below.
   */
  lemma StepTowards<T>(xs: seq<T>, ys: seq<T>, i: nat, j: nat)
    requires |ys| == |xs| && 1 < i <= |xs| && j < i && xs[j] == ys[i - 1]
    requires multiset(xs[..i]) == multiset(ys[..i]) && xs[i..] == ys[i..]
    ensures var xs' := Swap(xs, i - 1, j);
            multiset(xs'[..i - 1]) == multiset(ys[..i - 1]) && xs'[i - 1..] == ys[i - 1..]
  {
    var y := ys[i - 1];
    var xs' := Swap(xs, i - 1, j);
    assert ys[..i] == ys[..i - 1] + [y];
    assert xs'[..i] == Swap(xs[..i], i - 1, j);
    assert xs'[..i] == xs'[..i - 1] + [y];
    assert multiset(xs'[..i]) == multiset(xs[..i]) == multiset(ys[..i]);
    assert multiset(xs'[..i - 1]) == multiset(xs'[..i]) - multiset{y};
    assert multiset(ys[..i - 1]) == multiset(ys[..i]) - multiset{y} by {
      assert multiset(ys[..i]) == multiset(ys[..i - 1]) + multiset{y};
    }
    assert xs'[i - 1..] == [y] + xs'[i..] && ys[i - 1..] == [y] + ys[i..];
    assert xs'[i..] == xs[i..];
  }

  /** Where, below i, `xs` holds the element `ys` has at i-1. */
  lemma SourceOf<T>(xs: seq<T>, ys: seq<T>, i: nat) returns (j: nat)
    requires 0 < i <= |xs| && i <= |ys| && multiset(xs[..i]) == multiset(ys[..i])
    ensures j < i && xs[j] == ys[i - 1]
  {
    assert ys[..i][i - 1] == ys[i - 1];
    assert ys[i - 1] in multiset(xs[..i]);
    j :| 0 <= j < i && xs[..i][j] == ys[i - 1];
  }

  /** Picks that end like `base` with position k set to j carry j at k and `base` after it. */
  lemma SetPick(picks: seq<nat>, base: seq<nat>, k: nat, j: nat)
    requires k < |base| && |picks| == |base| && picks[k..] == base[k := j][k..]
    ensures picks[k] == j && picks[k + 1..] == base[k + 1..]
  {
  }

  /** The step at index i-1 swaps with the pick for i-1, then the steps below continue. */
  lemma ShuffleStep<T>(xs: seq<T>, picks: seq<nat>, i: nat)
    requires 1 < i <= |xs| && ValidPicks(|xs|, picks)
    ensures ShuffleBelow(xs, picks, i) == ShuffleBelow(Swap(xs, i - 1, picks[i - 1]), picks, i - 1)
  {
  }

  /**
   Builds picks that make the steps below i turn `xs` into `ys`, given that
   the two agree from i on and hold the same elements below i; picks from i
   on are taken from `base`.
   */
  lemma {:induction false} PicksFor<T>(xs: seq<T>, ys: seq<T>, i: nat, base: seq<nat>) returns (picks: seq<nat>)
    requires |ys| == |xs| && i <= |xs| && ValidPicks(|xs|, base)
    requires multiset(xs[..i]) == multiset(ys[..i]) && xs[i..] == ys[i..]
    ensures ValidPicks(|xs|, picks) && picks[i..] == base[i..]
    ensures ShuffleBelow(xs, picks, i) == ys
    decreases i
  {
    if i <= 1 {
      picks := base;
      if i == 1 {
        SingletonContent(xs[..1], ys[..1]);
      }
      assert xs == xs[..i] + xs[i..] && ys == ys[..i] + ys[i..];
    } else {
      var j := SourceOf(xs, ys, i);
      StepTowards(xs, ys, i, j);
      picks := PicksFor(Swap(xs, i - 1, j), ys, i - 1, base[i - 1 := j]);
      SetPick(picks, base, i - 1, j);
      ShuffleStep(xs, picks, i);
    }
  }

  /** Every reordering of a list is an outcome of the shuffle for some picks. */
  lemma EveryReorderingReachable<T>(xs: seq<T>, ys: seq<T>)
    requires multiset(xs) == multiset(ys)
    ensures exists picks :: ValidPicks(|xs|, picks) && Shuffle(xs, picks) == ys
  {
    assert |xs| == |multiset(xs)| == |ys|;
    var base := seq(|xs|, k => k);
    assert xs[..|xs|] == xs && ys[..|ys|] == ys;
    var picks := PicksFor(xs, ys, |xs|, base);
    assert Shuffle(xs, picks) == ys;
  }
}

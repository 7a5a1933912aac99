/** Sums, maxima and tallies of sequences, accumulated left to right as the selectors do. */
module Sums {

  function Sum(s: seq<int>): int {
    if s == [] then 0 else Sum(s[..|s| - 1]) + s[|s| - 1]
  }

  lemma MulNext(a: int, b: int)
    ensures a * (b + 1) == a * b + a
  {
  }

  lemma SumSnoc(s: seq<int>, x: int)
    ensures Sum(s + [x]) == Sum(s) + x
  {
    assert (s + [x])[..|s|] == s;
  }

  lemma {:induction false} SumUpdate(s: seq<int>, i: nat, x: int)
    requires i < |s|
    ensures Sum(s[i := x]) == Sum(s) - s[i] + x
  {
    var n := |s| - 1;
    if i == n {
      assert s[i := x][..n] == s[..n];
    } else {
      assert s[i := x][..n] == s[..n][i := x];
      SumUpdate(s[..n], i, x);
    }
  }

  /** The sum of a pointwise sum. */
  lemma {:induction false} SumPointwise(a: seq<int>, b: seq<int>, c: seq<int>)
    requires |a| == |b| == |c|
    requires forall i :: 0 <= i < |a| ==> c[i] == a[i] + b[i]
    ensures Sum(c) == Sum(a) + Sum(b)
  {
    if a != [] {
      var n := |a| - 1;
      SumPointwise(a[..n], b[..n], c[..n]);
    }
  }

  lemma {:induction false} SumMonotone(a: seq<int>, b: seq<int>)
    requires |a| == |b|
    requires forall i :: 0 <= i < |a| ==> a[i] <= b[i]
    ensures Sum(a) <= Sum(b)
  {
    if a != [] {
      var n := |a| - 1;
      SumMonotone(a[..n], b[..n]);
    }
  }

  lemma {:induction false} SumAtLeast(s: seq<int>, low: int)
    requires forall i :: 0 <= i < |s| ==> low <= s[i]
    ensures |s| * low <= Sum(s)
  {
    if s != [] {
      SumAtLeast(s[..|s| - 1], low);
      MulNext(low, |s| - 1);
    }
  }

  /** An element of a non-negative sequence is at most the sum. */
  lemma ElementAtMostSum(s: seq<int>, i: nat)
    requires i < |s|
    requires forall j :: 0 <= j < |s| ==> 0 <= s[j]
    ensures s[i] <= Sum(s)
  {
    SumUpdate(s, i, 0);
    SumAtLeast(s[i := 0], 0);
  }

  lemma {:induction false} PrefixAtMostSum(s: seq<int>, k: nat)
    requires k <= |s|
    requires forall j :: 0 <= j < |s| ==> 0 <= s[j]
    ensures 0 <= Sum(s[..k]) <= Sum(s)
    decreases |s|
  {
    var n := |s| - 1;
    if k == |s| {
      assert s[..k] == s;
      SumAtLeast(s, 0);
    } else {
      assert s[..n][..k] == s[..k];
      PrefixAtMostSum(s[..n], k);
    }
  }

  lemma ZeroSumOfNonNegatives(s: seq<int>)
    requires forall i :: 0 <= i < |s| ==> 0 <= s[i]
    requires Sum(s) == 0
    ensures forall i :: 0 <= i < |s| ==> s[i] == 0
  {
    forall i | 0 <= i < |s| ensures s[i] == 0 {
      ElementAtMostSum(s, i);
    }
  }

  /** With every element at least `low`, no element can exceed what the others leave. */
  lemma ElementAtMost(s: seq<int>, low: int, i: nat)
    requires i < |s|
    requires forall j :: 0 <= j < |s| ==> low <= s[j]
    ensures s[i] <= Sum(s) - (|s| - 1) * low
  {
    hide Sum;
    SumUpdate(s, i, low);
    SumAtLeast(s[i := low], low);
    MulNext(low, |s| - 1);
  }

  lemma SomePositive(s: seq<int>)
    requires Sum(s) > 0
    ensures exists i :: 0 <= i < |s| && s[i] > 0
  {
    if forall i :: 0 <= i < |s| ==> s[i] <= 0 {
      var zeros := seq(|s|, _ => 0);
      SumMonotone(s, zeros);
      SumOfZeros(zeros);
    }
  }

  lemma {:induction false} SumOfZeros(s: seq<int>)
    requires forall i :: 0 <= i < |s| ==> s[i] == 0
    ensures Sum(s) == 0
  {
    if s != [] {
      SumOfZeros(s[..|s| - 1]);
    }
  }

  /** The position of the first largest element. */
  function FirstMax(s: seq<int>): (best: nat)
    requires s != []
    ensures best < |s|
    ensures forall j :: 0 <= j < |s| ==> s[j] <= s[best]
    ensures forall j :: 0 <= j < best ==> s[j] < s[best]
  {
    var n := |s| - 1;
    if n == 0 then 0 else
      var best := FirstMax(s[..n]);
      if s[n] > s[best] then n else best
  }

  /** Configured weights: at least one upstream, each weight at least 1. */
  ghost predicate AllPositive(s: seq<int>) {
    s != [] && forall i :: 0 <= i < |s| ==> 1 <= s[i]
  }

  type Weights = s: seq<int> | AllPositive(s) ghost witness [1]

  function Total(weights: Weights): (total: nat)
    ensures |weights| <= total
  {
    SumAtLeast(weights, 1);
    Sum(weights)
  }

  /** How often `i` occurs among the picks. */
  function Tally(picks: seq<nat>, i: nat): nat {
    multiset(picks)[i]
  }

  lemma TallyAtMostOne(present: bool, x: nat, i: nat)
    ensures Tally(if present then [x] else [], i) == if present && i == x then 1 else 0
  {
  }

  lemma TallySnoc(picks: seq<nat>, x: nat, i: nat)
    ensures Tally(picks + [x], i) == Tally(picks, i) + if i == x then 1 else 0
  {
  }

  lemma TallyConcat(a: seq<nat>, b: seq<nat>, i: nat)
    ensures Tally(a + b, i) == Tally(a, i) + Tally(b, i)
  {
  }

  /** Tallies over all upstreams account for every pick. */
  lemma {:induction false} TalliesAddUp(picks: seq<nat>, tallies: seq<int>)
    requires forall x :: x in picks ==> x < |tallies|
    requires forall i :: 0 <= i < |tallies| ==> tallies[i] == Tally(picks, i)
    ensures Sum(tallies) == |picks|
  {
    if picks == [] {
      SumOfZeros(tallies);
    } else {
      var n := |picks| - 1;
      var x := picks[n];
      assert picks == picks[..n] + [x] && x in picks;
      assert forall y :: y in picks[..n] ==> y in picks;
      var fewer := tallies[x := tallies[x] - 1];
      TalliesAddUp(picks[..n], fewer);
      SumUpdate(tallies, x, tallies[x] - 1);
    }
  }

  lemma {:induction false} SumScaled(g: int, shares: seq<int>, s: seq<int>)
    requires |shares| == |s| && forall i :: 0 <= i < |s| ==> s[i] == g * shares[i]
    ensures Sum(s) == g * Sum(shares)
  {
    if s != [] {
      var n := |s| - 1;
      SumScaled(g, shares[..n], s[..n]);
      assert g * Sum(shares) == g * Sum(shares[..n]) + g * shares[n];
    }
  }
}

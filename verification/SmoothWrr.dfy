/**
 * Smooth weighted round robin, the rule behind the nginx-style selector.
 *
 * Every call raises each upstream's credit by its effective weight, picks the
 * first largest credit and charges it the total. Health events move effective
 * weights between calls.
 */
module SmoothWrr {
  import opened Sums
  import opened Int32
  import opened Health

  datatype Pool = Pool(weights: seq<int>, effective: seq<int>, credits: seq<int>) {
    predicate Shaped() {
      |weights| == |effective| == |credits| > 0
    }
  }

  function Raised(m: Arith, p: Pool): (r: seq<int>)
    requires p.Shaped()
    ensures |r| == |p.credits|
    ensures forall i :: 0 <= i < |r| ==> r[i] == Norm(m, p.credits[i] + p.effective[i])
  {
    seq(|p.credits|, i requires 0 <= i < |p.credits| => Norm(m, p.credits[i] + p.effective[i]))
  }

  function Best(m: Arith, p: Pool): (best: nat)
    requires p.Shaped()
    ensures best < |p.credits|
  {
    FirstMax(Raised(m, p))
  }

  function AfterGet(m: Arith, p: Pool): (q: Pool)
    requires p.Shaped()
    ensures q.Shaped() && q.weights == p.weights && q.effective == p.effective
  {
    var raised := Raised(m, p);
    var best := FirstMax(raised);
    p.(credits := raised[best := Norm(m, raised[best] - Norm(m, Sum(p.effective)))])
  }

  /** The running total of a scan that has passed the first i upstreams. */
  ghost function TotalUpTo(m: Arith, p: Pool, i: nat): int
    requires p.Shaped() && i <= |p.credits|
  {
    Norm(m, Sum(p.effective[..i]))
  }

  /** The best upstream of such a scan. */
  ghost function BestUpTo(m: Arith, p: Pool, i: nat): (best: nat)
    requires p.Shaped() && 1 <= i <= |p.credits|
    ensures best < i
  {
    FirstMax(Raised(m, p)[..i])
  }

  lemma ScanStep(m: Arith, p: Pool, i: nat)
    requires p.Shaped() && i < |p.credits|
    ensures TotalUpTo(m, p, i + 1) == Norm(m, TotalUpTo(m, p, i) + p.effective[i])
    ensures var raised := Raised(m, p);
            BestUpTo(m, p, i + 1) ==
            if i == 0 || raised[i] > raised[BestUpTo(m, p, i)] then i else BestUpTo(m, p, i)
  {
    assert p.effective[..i + 1] == p.effective[..i] + [p.effective[i]];
    SumSnoc(p.effective[..i], p.effective[i]);
    NormAccumulates(m, Sum(p.effective[..i]), p.effective[i]);
    assert Raised(m, p)[..i + 1][..i] == Raised(m, p)[..i];
  }

  lemma ScanEnds(m: Arith, p: Pool)
    requires p.Shaped()
    ensures TotalUpTo(m, p, 0) == 0
    ensures BestUpTo(m, p, |p.credits|) == Best(m, p)
    ensures AfterGet(m, p) ==
            var best, raised := Best(m, p), Raised(m, p);
            p.(credits := raised[best := Norm(m, raised[best] - TotalUpTo(m, p, |p.credits|))])
  {
    var raised := Raised(m, p);
    assert raised[..|raised|] == raised && p.effective[..|raised|] == p.effective;
  }

  function AfterAdjust(m: Arith, p: Pool, i: nat, delta: int): (q: Pool)
    requires p.Shaped() && i < |p.weights|
    ensures q.Shaped() && |q.credits| == |p.credits|
  {
    p.(effective := p.effective[i := Settle(m, p.weights[i], p.effective[i], delta)])
  }

  /** An event that names no upstream or no known amount changes nothing. */
  function Step(m: Arith, p: Pool, e: Event): (q: Pool)
    requires p.Shaped()
    ensures q.Shaped() && q.weights == p.weights
  {
    if e.Get? then AfterGet(m, p)
    else if Possible(|p.weights|, e) then AfterAdjust(m, p, e.upstream, e.delta)
    else p
  }

  /** The pool after a whole history of calls and health events. */
  function Run(m: Arith, p: Pool, events: seq<Event>): (q: Pool)
    requires p.Shaped()
    ensures q.Shaped() && q.weights == p.weights
  {
    if events == [] then p else
      var n := |events| - 1;
      Step(m, Run(m, p, events[..n]), events[n])
  }

  /** The upstreams picked along that history, in order. */
  function Picks(m: Arith, p: Pool, events: seq<Event>): (picks: seq<nat>)
    requires p.Shaped()
    ensures forall k :: 0 <= k < |picks| ==> picks[k] < |p.weights|
  {
    if events == [] then [] else
      var n := |events| - 1;
      var before := Run(m, p, events[..n]);
      Picks(m, p, events[..n]) + if events[n].Get? then [Best(m, before)] else []
  }

  /** A selector right after its upstreams were added. */
  function Fresh(weights: seq<int>): (p: Pool)
    requires weights != []
    ensures p.Shaped()
  {
    Pool(weights, weights, seq(|weights|, _ => 0))
  }

  // ----- What every reachable pool satisfies

  /**
   * Credits cancel out, none falls as far as the total configured weight, and
   * effective weights stay between 1 and the configured weight.
   */
  ghost predicate Healthy(p: Pool) {
    && p.Shaped()
    && (forall i :: 0 <= i < |p.weights| ==> 1 <= p.effective[i] <= p.weights[i])
    && Sum(p.credits) == 0
    && (forall i :: 0 <= i < |p.weights| ==> 1 - Sum(p.weights) <= p.credits[i])
  }

  lemma TotalBounds(p: Pool)
    requires Healthy(p)
    ensures |p.weights| <= Sum(p.effective) <= Sum(p.weights)
  {
    SumAtLeast(p.effective, 1);
    SumMonotone(p.effective, p.weights);
  }

  lemma FreshIsHealthy(weights: Weights)
    ensures Healthy(Fresh(weights))
  {
    SumOfZeros(Fresh(weights).credits);
    SumAtLeast(weights, 1);
  }

  /** The pick holds a positive credit: the raised credits add up to the positive total. */
  lemma PickIsPositive(p: Pool)
    requires p.Shaped() && Sum(p.credits) == 0 && Sum(p.effective) > 0
    ensures p.credits[Best(Exact, p)] + p.effective[Best(Exact, p)] >= 1
    ensures Sum(AfterGet(Exact, p).credits) == 0
  {
    hide Sum, FirstMax;
    var raised := Raised(Exact, p);
    SumPointwise(p.credits, p.effective, raised);
    SomePositive(raised);
    var best := FirstMax(raised);
    SumUpdate(raised, best, raised[best] - Sum(p.effective));
  }

  lemma StepKeepsHealthy(p: Pool, e: Event)
    requires Healthy(p)
    ensures Healthy(Step(Exact, p, e))
  {
    if e.Get? {
      TotalBounds(p);
      PickIsPositive(p);
    }
  }

  /** Over any history the invariant survives. */
  lemma {:induction false} RunKeepsHealthy(p: Pool, events: seq<Event>)
    requires Healthy(p)
    ensures Healthy(Run(Exact, p, events))
  {
    if events != [] {
      var n := |events| - 1;
      RunKeepsHealthy(p, events[..n]);
      StepKeepsHealthy(Run(Exact, p, events[..n]), events[n]);
    }
  }

  /** A credit is also bounded above, by what the others can owe. */
  lemma CreditCeiling(p: Pool, i: nat)
    requires Healthy(p) && i < |p.weights|
    ensures p.credits[i] <= (|p.weights| - 1) * (Sum(p.weights) - 1)
  {
    var low := 1 - Sum(p.weights);
    ElementAtMost(p.credits, low, i);
    assert (|p.weights| - 1) * (Sum(p.weights) - 1) == - ((|p.weights| - 1) * low);
  }

  // ----- Histories compose

  lemma {:induction false} RunConcat(m: Arith, p: Pool, a: seq<Event>, b: seq<Event>)
    requires p.Shaped()
    ensures Run(m, p, a + b) == Run(m, Run(m, p, a), b)
    ensures Picks(m, p, a + b) == Picks(m, p, a) + Picks(m, Run(m, p, a), b)
  {
    if b == [] {
      assert a + b == a;
    } else {
      var n := |b| - 1;
      assert (a + b)[..|a + b| - 1] == a + b[..n];
      RunConcat(m, p, a, b[..n]);
    }
  }

  // ----- Fairness with settled weights

  /** What one call does to one credit. */
  lemma GetEffect(p: Pool, i: nat)
    requires p.Shaped() && i < |p.weights|
    ensures AfterGet(Exact, p).credits[i] ==
            p.credits[i] + p.effective[i] - if i == Best(Exact, p) then Sum(p.effective) else 0
  {
  }

  lemma NoGets(m: Arith, p: Pool)
    requires p.Shaped()
    ensures Run(m, p, Gets(0)) == p && Picks(m, p, Gets(0)) == []
  {
  }

  /** One more call after k calls. */
  lemma OneMoreGet(m: Arith, p: Pool, k: nat)
    requires p.Shaped()
    ensures Run(m, p, Gets(k + 1)) == AfterGet(m, Run(m, p, Gets(k)))
    ensures Picks(m, p, Gets(k + 1)) == Picks(m, p, Gets(k)) + [Best(m, Run(m, p, Gets(k)))]
  {
    hide AfterGet, Best;
    assert Gets(k + 1)[..k] == Gets(k);
  }

  /** Calls alone leave weights alone, and every call picks one upstream. */
  lemma {:induction false} GetsOnly(m: Arith, p: Pool, k: nat)
    requires p.Shaped()
    ensures |Picks(m, p, Gets(k))| == k
    ensures Run(m, p, Gets(k)).effective == p.effective
  {
    hide Run, Picks, AfterGet, Best;
    if k == 0 {
      NoGets(m, p);
    } else {
      GetsOnly(m, p, k - 1);
      OneMoreGet(m, p, k - 1);
    }
  }

  /** The ledger: a credit is what was earned less what was charged. */
  lemma {:induction false} Ledger(p: Pool, k: nat, i: nat)
    requires p.Shaped() && i < |p.weights|
    ensures Run(Exact, p, Gets(k)).credits[i] ==
            p.credits[i] + p.effective[i] * k - Sum(p.effective) * Tally(Picks(Exact, p, Gets(k)), i)
  {
    hide Run, Picks, AfterGet, Best, Sum, Tally;
    if k == 0 {
      NoGets(Exact, p);
      TallyAtMostOne(false, 0, i);
    } else {
      Ledger(p, k - 1, i);
      var before, picks := Run(Exact, p, Gets(k - 1)), Picks(Exact, p, Gets(k - 1));
      GetsOnly(Exact, p, k - 1);
      OneMoreGet(Exact, p, k - 1);
      GetEffect(before, i);
      TallySnoc(picks, Best(Exact, before), i);
      MulNext(Sum(p.effective), Tally(picks, i));
      MulNext(p.effective[i], k - 1);
    }
  }

  ghost predicate NoCredits(p: Pool) {
    forall i :: 0 <= i < |p.credits| ==> p.credits[i] == 0
  }

  /** No credits outstanding, and every upstream worth picking; configured weights do not matter. */
  ghost predicate Even(p: Pool) {
    p.Shaped() && AllPositive(p.effective) && NoCredits(p)
  }

  /** Calls read effective weights only. */
  lemma {:induction false} GetsIgnoreWeights(m: Arith, p: Pool, weights: seq<int>, k: nat)
    requires p.Shaped() && |weights| == |p.weights|
    ensures Run(m, p.(weights := weights), Gets(k)) == Run(m, p, Gets(k)).(weights := weights)
    ensures Picks(m, p.(weights := weights), Gets(k)) == Picks(m, p, Gets(k))
  {
    hide Run, Picks;
    var q := p.(weights := weights);
    if k == 0 {
      NoGets(m, p);
      NoGets(m, q);
    } else {
      GetsIgnoreWeights(m, p, weights, k - 1);
      OneMoreGet(m, p, k - 1);
      OneMoreGet(m, q, k - 1);
      OneGetIgnoresWeights(m, Run(m, p, Gets(k - 1)), weights);
    }
  }

  lemma OneGetIgnoresWeights(m: Arith, p: Pool, weights: seq<int>)
    requires p.Shaped() && |weights| == |p.weights|
    ensures Best(m, p.(weights := weights)) == Best(m, p)
    ensures AfterGet(m, p.(weights := weights)) == AfterGet(m, p).(weights := weights)
  {
    hide Norm, FirstMax, Sum;
    assert Raised(m, p.(weights := weights)) == Raised(m, p);
  }

  /** From an even pool credits keep the bounds that their own total gives. */
  lemma EvenRunBounds(p: Pool, k: nat)
    requires Even(p)
    ensures var q := Run(Exact, p, Gets(k));
            && Sum(q.credits) == 0
            && forall i :: 0 <= i < |q.credits| ==> 1 - Sum(p.effective) <= q.credits[i]
  {
    hide Run, Sum;
    var same := Fresh(p.effective);
    assert same == p.(weights := p.effective);
    FreshIsHealthy(p.effective);
    RunKeepsHealthy(same, Gets(k));
    GetsIgnoreWeights(Exact, p, p.effective, k);
  }

  /** After one full cycle every credit is zero again and every share is exact. */
  lemma {:induction false} CycleIsExact(p: Pool)
    requires Even(p)
    ensures Run(Exact, p, Gets(Total(p.effective))) == p
    ensures forall i :: 0 <= i < |p.effective| ==>
              Tally(Picks(Exact, p, Gets(Total(p.effective))), i) == p.effective[i]
  {
    hide Run, Picks, Sum;
    var w, W := p.effective, Total(p.effective);
    GetsOnly(Exact, p, W);
    var q, picks := Run(Exact, p, Gets(W)), Picks(Exact, p, Gets(W));
    EvenRunBounds(p, W);
    forall i | 0 <= i < |w|
      ensures q.credits[i] == W * (w[i] - Tally(picks, i)) && q.credits[i] >= 0
    {
      Ledger(p, W, i);
      var x := w[i] - Tally(picks, i);
      assert W * x == W * w[i] - W * Tally(picks, i);
      NoNegativeMultiple(W, x);
    }
    ZeroSumOfNonNegatives(q.credits);
    assert q.credits == p.credits;
    forall i | 0 <= i < |w| ensures Tally(picks, i) == w[i] {
      ZeroProduct(W, w[i] - Tally(picks, i));
    }
  }

  /** The schedule repeats: a cycle later the pool is the same. */
  lemma Periodic(p: Pool, k: nat)
    requires Even(p)
    ensures Run(Exact, p, Gets(k + Total(p.effective))) == Run(Exact, p, Gets(k))
  {
    hide Run, Picks, Sum;
    var W := Total(p.effective);
    assert Gets(W) + Gets(k) == Gets(k + W);
    RunConcat(Exact, p, Gets(W), Gets(k));
    CycleIsExact(p);
  }

  /** Every window of one cycle's length gives every upstream exactly its effective weight. */
  lemma {:induction false} EveryWindowIsExact(p: Pool, k: nat, i: nat)
    requires Even(p) && i < |p.effective|
    ensures var picks := Picks(Exact, p, Gets(k + Total(p.effective)));
            |picks| == k + Total(p.effective) && Tally(picks[k..], i) == p.effective[i]
  {
    hide Run, Picks, Sum;
    var W := Total(p.effective);
    GetsOnly(Exact, p, k);
    GetsOnly(Exact, p, k + W);
    assert Gets(k) + Gets(W) == Gets(k + W);
    RunConcat(Exact, p, Gets(k), Gets(W));
    var q := Run(Exact, p, Gets(k));
    var window := Picks(Exact, q, Gets(W));
    assert Picks(Exact, p, Gets(k + W))[k..] == window;
    Periodic(p, k);
    Ledger(q, W, i);
    var x := p.effective[i] - Tally(window, i);
    assert W * x == W * p.effective[i] - W * Tally(window, i);
    ZeroProduct(W, x);
  }

  /** Credits cancel out, none is below -d, and one charge cannot take a positive credit below. */
  ghost predicate OwesAtMost(p: Pool, d: int) {
    && p.Shaped()
    && AllPositive(p.effective)
    && Sum(p.credits) == 0
    && Sum(p.effective) - 1 <= d
    && forall i :: 0 <= i < |p.credits| ==> -d <= p.credits[i]
  }

  lemma {:induction false} GetsKeepDebts(p: Pool, d: int, k: nat)
    requires OwesAtMost(p, d)
    ensures OwesAtMost(Run(Exact, p, Gets(k)), d)
  {
    hide Run, Picks, Sum;
    if k == 0 {
      NoGets(Exact, p);
    } else {
      GetsKeepDebts(p, d, k - 1);
      OneMoreGet(Exact, p, k - 1);
      GetKeepsDebts(Run(Exact, p, Gets(k - 1)), d);
    }
  }

  lemma GetKeepsDebts(p: Pool, d: int)
    requires OwesAtMost(p, d)
    ensures OwesAtMost(AfterGet(Exact, p), d)
  {
    hide Sum, AfterGet, Best;
    SumAtLeast(p.effective, 1);
    PickIsPositive(p);
    forall i | 0 <= i < |p.credits| ensures -d <= AfterGet(Exact, p).credits[i] {
      GetEffect(p, i);
    }
  }

  /**
   * From any pool whose credits cancel out, however they came about, k calls serve each
   * upstream its proportional share up to a lag that the deepest debt bounds.
   */
  lemma {:induction false} LagWithin(p: Pool, d: int, k: nat, i: nat)
    requires OwesAtMost(p, d) && i < |p.effective|
    ensures var lag := Sum(p.effective) * Tally(Picks(Exact, p, Gets(k)), i) - p.effective[i] * k;
            -(d * |p.effective|) <= lag <= d * |p.effective|
  {
    hide Run, Picks, Sum, Tally;
    GetsOnly(Exact, p, k);
    GetsKeepDebts(p, d, k);
    Ledger(p, k, i);
    var n, q := |p.effective|, Run(Exact, p, Gets(k));
    ElementAtMost(p.credits, -d, i);
    ElementAtMost(q.credits, -d, i);
    assert (n - 1) * -d == -(d * (n - 1));
    MulNext(d, n - 1);
  }

  /** From any healthy pool the lag stays below n times the total configured weight. */
  lemma {:induction false} BoundedLag(p: Pool, k: nat, i: nat)
    requires Healthy(p) && i < |p.weights|
    ensures var lag := Sum(p.effective) * Tally(Picks(Exact, p, Gets(k)), i) - p.effective[i] * k;
            var bound := |p.weights| * Sum(p.weights);
            -bound < lag < bound
  {
    hide Run, Picks, Sum, Tally;
    TotalBounds(p);
    var n, W := |p.weights|, Sum(p.weights);
    LagWithin(p, W - 1, k, i);
    MulNext(n, W - 1);
  }

  // ----- No starvation while weights move

  /** One event: an upstream's credit falls only if it is the one picked. */
  lemma UnpickedEffect(p: Pool, e: Event, i: nat)
    requires Healthy(p) && i < |p.weights|
    requires e.Get? ==> i != Best(Exact, p)
    ensures Step(Exact, p, e).credits[i] >= p.credits[i] + if e.Get? then 1 else 0
  {
    if e.Get? {
      GetEffect(p, i);
    }
  }

  /** An upstream that is not picked earns at least 1 at every pick of another. */
  lemma {:induction false} UnpickedCreditGrows(p: Pool, events: seq<Event>, i: nat)
    requires Healthy(p) && i < |p.weights|
    requires i !in Picks(Exact, p, events)
    ensures Run(Exact, p, events).credits[i] >= p.credits[i] + |Picks(Exact, p, events)|
  {
    if events != [] {
      hide Step, Best, Healthy;
      var n := |events| - 1;
      UnpickedCreditGrows(p, events[..n], i);
      RunKeepsHealthy(p, events[..n]);
      UnpickedEffect(Run(Exact, p, events[..n]), events[n], i);
    }
  }

  /**
   * However reports and probes move the effective weights, no n * (W - 1) + 1
   * picks in a row leave an upstream out; W is the total configured weight.
   */
  lemma {:induction false} NoStarvation(p: Pool, events: seq<Event>, i: nat)
    requires Healthy(p) && i < |p.weights|
    requires |Picks(Exact, p, events)| > |p.weights| * (Sum(p.weights) - 1)
    ensures i in Picks(Exact, p, events)
  {
    hide Run, Picks, Sum;
    var n, W := |p.weights|, Sum(p.weights);
    assert (n - 1) * (W - 1) + (W - 1) == n * (W - 1);
    if i !in Picks(Exact, p, events) {
      UnpickedCreditGrows(p, events, i);
      RunKeepsHealthy(p, events);
      CreditCeiling(Run(Exact, p, events), i);
    }
  }

  // ----- 32-bit arithmetic

  /** Weights for which no 32-bit operation can wrap. */
  ghost predicate Fits(weights: seq<int>) {
    && |weights| * Sum(weights) <= MAX
    && forall i :: 0 <= i < |weights| ==> weights[i] + 5 <= MAX
  }

  /** A healthy pool stays inside 32 bits, also half-way through a call. */
  lemma HealthyFits(p: Pool)
    requires Healthy(p) && Fits(p.weights)
    ensures forall k :: 0 <= k <= |p.effective| ==> InRange(Sum(p.effective[..k]))
    ensures forall i :: 0 <= i < |p.weights| ==>
              && InRange(p.effective[i]) && InRange(p.credits[i]) && InRange(p.credits[i] + p.effective[i])
              && (p.credits[i] + p.effective[i] >= 1 ==> InRange(p.credits[i] + p.effective[i] - Sum(p.effective)))
  {
    hide Sum;
    var n, W := |p.weights|, Sum(p.weights);
    TotalBounds(p);
    FitsBounds(n, W);
    forall k | 0 <= k <= n ensures InRange(Sum(p.effective[..k])) {
      PrefixAtMostSum(p.effective, k);
    }
    forall i | 0 <= i < n
      ensures 1 - W <= p.credits[i] <= (n - 1) * (W - 1) && 1 <= p.effective[i] <= W
    {
      CreditCeiling(p, i);
      ElementAtMostSum(p.effective, i);
    }
  }

  lemma FitsBounds(n: int, W: int)
    requires 1 <= n <= W && n * W <= MAX
    ensures W <= MAX && (n - 1) * (W - 1) + W <= MAX
  {
    assert n * W == (n - 1) * W + W;
    assert (n - 1) * (W - 1) + W + (n - 1) == n * W;
  }

  lemma RaisedDoesNotWrap(p: Pool)
    requires Healthy(p) && Fits(p.weights)
    ensures Raised(Wrapping, p) == Raised(Exact, p)
  {
    hide Sum, Fits;
    HealthyFits(p);
  }

  lemma GetDoesNotWrap(p: Pool)
    requires Healthy(p) && Fits(p.weights)
    ensures Raised(Wrapping, p) == Raised(Exact, p) && AfterGet(Wrapping, p) == AfterGet(Exact, p)
  {
    hide Sum, Fits, FirstMax;
    RaisedDoesNotWrap(p);
    TotalBounds(p);
    PickIsPositive(p);
    HealthyFits(p);
    assert p.effective[..|p.effective|] == p.effective;
  }

  lemma StepDoesNotWrap(p: Pool, e: Event)
    requires Healthy(p) && Fits(p.weights)
    ensures Step(Wrapping, p, e) == Step(Exact, p, e)
    ensures Best(Wrapping, p) == Best(Exact, p)
  {
    hide Healthy, Fits, AfterGet, AfterAdjust, Raised;
    GetDoesNotWrap(p);
    if !e.Get? && Possible(|p.weights|, e) {
      SettleDoesNotWrap(p, e.upstream, e.delta);
    }
  }

  lemma SettleDoesNotWrap(p: Pool, i: nat, delta: int)
    requires Healthy(p) && Fits(p.weights) && i < |p.weights| && delta in DELTAS
    ensures AfterAdjust(Wrapping, p, i, delta) == AfterAdjust(Exact, p, i, delta)
  {
    hide Sum;
  }

  /** Over whole histories the 32-bit selector is the unbounded one. */
  lemma {:induction false} RunDoesNotWrap(p: Pool, events: seq<Event>)
    requires Healthy(p) && Fits(p.weights)
    ensures Run(Wrapping, p, events) == Run(Exact, p, events)
    ensures Picks(Wrapping, p, events) == Picks(Exact, p, events)
  {
    if events != [] {
      var n := |events| - 1;
      RunDoesNotWrap(p, events[..n]);
      hide Step, Best, Healthy, Fits;
      RunKeepsHealthy(p, events[..n]);
      StepDoesNotWrap(Run(Exact, p, events[..n]), events[n]);
    }
  }

  // ----- The 32-bit selector, from start-up

  /** After any history at all, calls with settled weights stay within the lag. */
  lemma SelectorLagIsBounded(weights: Weights, history: seq<Event>, k: nat, i: nat)
    requires Fits(weights) && i < |weights|
    ensures var p := Run(Wrapping, Fresh(weights), history);
            var lag := Sum(p.effective) * Tally(Picks(Wrapping, p, Gets(k)), i) - p.effective[i] * k;
            var bound := |weights| * Sum(weights);
            -bound < lag < bound
  {
    hide Run, Picks, Sum, Tally, Fits;
    ReachesHealthy(weights, history);
    var p := Run(Exact, Fresh(weights), history);
    RunDoesNotWrap(p, Gets(k));
    BoundedLag(p, k, i);
  }

  /** After any history at all, no later run of enough picks leaves an upstream out. */
  lemma {:induction false} SelectorNeverStarves(weights: Weights, history: seq<Event>, events: seq<Event>, i: nat)
    requires Fits(weights) && i < |weights|
    requires |Picks(Wrapping, Run(Wrapping, Fresh(weights), history), events)| > |weights| * (Sum(weights) - 1)
    ensures i in Picks(Wrapping, Run(Wrapping, Fresh(weights), history), events)
  {
    hide Run, Picks, Sum, Fits;
    ReachesHealthy(weights, history);
    var p := Run(Exact, Fresh(weights), history);
    RunDoesNotWrap(p, events);
    NoStarvation(p, events, i);
  }

  /**
   * After any history that leaves no credits outstanding, every window of one cycle of the
   * effective weights is exact in 32 bits too.
   */
  lemma SelectorIsFair(weights: Weights, history: seq<Event>, p: Pool, k: nat, i: nat)
    requires Fits(weights) && p == Run(Wrapping, Fresh(weights), history) && NoCredits(p) && i < |p.effective|
    ensures AllPositive(p.effective)
    ensures var picks := Picks(Wrapping, p, Gets(k + Total(p.effective)));
            |picks| == k + Total(p.effective) && Tally(picks[k..], i) == p.effective[i]
  {
    hide Run, Picks, Sum, Tally, Fits, Fresh;
    ReachesHealthy(weights, history);
    EvenIsFair(p, k, i);
  }

  lemma EvenIsFair(p: Pool, k: nat, i: nat)
    requires Healthy(p) && Fits(p.weights) && Even(p) && i < |p.effective|
    ensures var picks := Picks(Wrapping, p, Gets(k + Total(p.effective)));
            |picks| == k + Total(p.effective) && Tally(picks[k..], i) == p.effective[i]
  {
    hide Run, Picks, Sum, Tally, Fits, Healthy;
    RunDoesNotWrap(p, Gets(k + Total(p.effective)));
    EveryWindowIsExact(p, k, i);
  }

  /** Reports and probes before the first call leave no credits outstanding. */
  lemma {:induction false} ReportsLeaveCredits(m: Arith, p: Pool, events: seq<Event>)
    requires p.Shaped() && Event.Get !in events
    ensures Run(m, p, events).credits == p.credits
  {
    hide AfterGet, Settle;
    if events != [] {
      var n := |events| - 1;
      assert events[n] in events;
      assert forall e :: e in events[..n] ==> e in events;
      ReportsLeaveCredits(m, p, events[..n]);
    }
  }

  lemma ReachesHealthy(weights: Weights, history: seq<Event>)
    requires Fits(weights)
    ensures var p := Run(Wrapping, Fresh(weights), history);
            p == Run(Exact, Fresh(weights), history) && Healthy(p) && p.weights == weights
  {
    hide Run, Picks, Sum, Healthy, Fits;
    FreshIsHealthy(weights);
    RunDoesNotWrap(Fresh(weights), history);
    RunKeepsHealthy(Fresh(weights), history);
  }

  // ----- Arithmetic helpers

  lemma NoNegativeMultiple(a: int, x: int)
    requires a >= 1 && a * x > -a
    ensures x >= 0 && a * x >= 0
  {
    if x >= 0 {
      assert a * x >= 0;
    } else {
      assert false;
    }
  }

  lemma ZeroProduct(a: int, x: int)
    requires a >= 1 && a * x == 0
    ensures x == 0
  {
  }
}

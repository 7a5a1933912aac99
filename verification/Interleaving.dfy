/**
 * The nginx-style selector under concurrency: any number of threads, each doing
 * one atomic operation at a time.
 *
 * A thread is inside a call, between a report's add and its store, or neither.
 * Requests and probes may start at any moment and in any order.
 */
module Interleaving {
  import opened Sums
  import opened Int32
  import opened Health
  import opened SmoothWrr

  /** Where a thread stands; each state but the first and last names its next atomic operation. */
  datatype Local =
    | Idle
    | LoadWeight(i: nat, total: int, best: int)
    | AddCredit(i: nat, total: int, best: int, effective: int)
    | LoadCredit(i: nat, total: int, best: int)
    | LoadBest(i: nat, total: int, best: int, credit: int)
    | Charge(total: int, best: int)
    | StoreFloor(upstream: nat)
    | StoreWeight(upstream: nat)
    | Chosen(upstream: nat)

  datatype Action = Begin | Report(upstream: nat, delta: int) | Advance

  datatype Op = Op(thread: nat, action: Action)

  datatype System = System(pool: Pool, threads: seq<Local>)

  /** The end of one loop iteration: go on with the next upstream, or charge. */
  function AfterIteration(n: nat, i: nat, total: int, best: int): Local {
    if i + 1 < n then LoadWeight(i + 1, total, best) else Charge(total, best)
  }

  ghost predicate LocalOk(n: nat, l: Local) {
    match l
    case Idle => true
    case LoadWeight(i, _, best) => i < n && -1 <= best < i && (best == -1 <==> i == 0)
    case AddCredit(i, _, best, _) => i < n && -1 <= best < i && (best == -1 <==> i == 0)
    case LoadCredit(i, _, best) => i < n && 0 <= best < i
    case LoadBest(i, _, best, _) => i < n && 0 <= best < i
    case Charge(_, best) => 0 <= best < n
    case StoreFloor(u) => u < n
    case StoreWeight(u) => u < n
    case Chosen(u) => u < n
  }

  ghost predicate Formed(s: System) {
    && s.pool.Shaped()
    && (forall t :: 0 <= t < |s.threads| ==> LocalOk(|s.pool.weights|, s.threads[t]))
  }

  /** The thread's next atomic operation: the new pool and the thread's new state. */
  ghost function Atomic(m: Arith, p: Pool, l: Local): (r: (Pool, Local))
    requires p.Shaped() && LocalOk(|p.weights|, l)
    ensures r.0.Shaped() && r.0.weights == p.weights && LocalOk(|p.weights|, r.1)
  {
    var n := |p.weights|;
    match l
    case Idle => (p, Idle)
    case LoadWeight(i, total, best) => (p, AddCredit(i, total, best, p.effective[i]))
    case AddCredit(i, total, best, effective) =>
      var q := p.(credits := p.credits[i := Norm(m, p.credits[i] + effective)]);
      var total' := Norm(m, total + effective);
      (q, if best == -1 then AfterIteration(n, i, total', i) else LoadCredit(i, total', best))
    case LoadCredit(i, total, best) => (p, LoadBest(i, total, best, p.credits[i]))
    case LoadBest(i, total, best, credit) =>
      (p, AfterIteration(n, i, total, if credit > p.credits[best] then i else best))
    case Charge(total, best) =>
      (p.(credits := p.credits[best := Norm(m, p.credits[best] - total)]), Chosen(best))
    case StoreFloor(u) => (p.(effective := p.effective[u := 1]), Idle)
    case StoreWeight(u) => (p.(effective := p.effective[u := p.weights[u]]), Idle)
    case Chosen(u) => (p, Idle)
  }

  /** The add of a report; the store follows only if the sum crossed the bound. */
  ghost function ReportAdd(m: Arith, p: Pool, u: nat, delta: int): (r: (Pool, Local))
    requires p.Shaped() && u < |p.weights|
    ensures r.0.Shaped() && r.0.weights == p.weights && LocalOk(|p.weights|, r.1)
  {
    var sum := Norm(m, p.effective[u] + delta);
    (p.(effective := p.effective[u := sum]),
     if delta < 0 && sum < 1 then StoreFloor(u)
     else if delta > 0 && sum > p.weights[u] then StoreWeight(u)
     else Idle)
  }

  ghost predicate CanReport(p: Pool, l: Local, u: nat, delta: int) {
    u < |p.weights| && delta in DELTAS && (l.Idle? || l == Chosen(u))
  }

  /** One scheduled operation; one that its thread cannot take changes nothing. */
  ghost function Next(m: Arith, s: System, op: Op): (s': System)
    requires Formed(s)
    ensures Formed(s') && |s'.threads| == |s.threads| && s'.pool.weights == s.pool.weights
  {
    if op.thread >= |s.threads| then s else
      var l := s.threads[op.thread];
      var r :=
        match op.action
        case Begin => (s.pool, if l.Idle? then LoadWeight(0, 0, -1) else l)
        case Report(u, delta) => if CanReport(s.pool, l, u, delta) then ReportAdd(m, s.pool, u, delta) else (s.pool, l)
        case Advance => Atomic(m, s.pool, l);
      System(r.0, s.threads[op.thread := r.1])
  }

  ghost function Schedule(m: Arith, s: System, ops: seq<Op>): (s': System)
    requires Formed(s)
    ensures Formed(s') && |s'.threads| == |s.threads| && s'.pool.weights == s.pool.weights
    decreases |ops|
  {
    if ops == [] then s else Schedule(m, Next(m, s, ops[0]), ops[1..])
  }

  // ----- What the threads owe

  ghost function SumOver(f: Local -> int, threads: seq<Local>): int {
    if threads == [] then 0 else f(threads[0]) + SumOver(f, threads[1..])
  }

  lemma {:induction false} SumOverUpdate(f: Local -> int, threads: seq<Local>, t: nat, l: Local)
    requires t < |threads|
    ensures SumOver(f, threads[t := l]) == SumOver(f, threads) - f(threads[t]) + f(l)
  {
    if t == 0 {
      assert threads[t := l][1..] == threads[1..];
    } else {
      assert threads[t := l][1..] == threads[1..][t - 1 := l];
      SumOverUpdate(f, threads[1..], t - 1, l);
    }
  }

  lemma {:induction false} SumOverBounds(f: Local -> int, threads: seq<Local>)
    requires forall l :: 0 <= f(l) <= 1
    ensures 0 <= SumOver(f, threads) <= |threads|
  {
    if threads != [] {
      SumOverBounds(f, threads[1..]);
    }
  }

  /** What a call has added to credits and not yet charged. */
  ghost function Owing(): Local -> int {
    (l: Local) =>
      if l.LoadWeight? || l.AddCredit? || l.LoadCredit? || l.LoadBest? || l.Charge? then l.total else 0
  }

  ghost function FloorPending(u: nat): Local -> int {
    (l: Local) => if l == StoreFloor(u) then 1 else 0
  }

  ghost function WeightPending(u: nat): Local -> int {
    (l: Local) => if l == StoreWeight(u) then 1 else 0
  }

  /** Credits add up to what calls in flight still owe. */
  ghost predicate Balanced(m: Arith, s: System) {
    Agree(m, Sum(s.pool.credits), SumOver(Owing(), s.threads))
  }

  /** An effective weight strays past a bound only as far as pending stores will repair. */
  ghost predicate Clamped(s: System, u: nat)
    requires s.pool.Shaped() && u < |s.pool.weights|
  {
    1 - 10 * SumOver(FloorPending(u), s.threads)
      <= s.pool.effective[u]
      <= s.pool.weights[u] + 5 * SumOver(WeightPending(u), s.threads)
  }

  ghost predicate AllClamped(s: System)
    requires s.pool.Shaped()
  {
    forall u :: 0 <= u < |s.pool.weights| ==> Clamped(s, u)
  }

  /** In 32 bits: few enough threads that pending repairs cannot wrap an effective weight. */
  ghost predicate Roomy(m: Arith, s: System) {
    m.Wrapping? ==>
      && 10 * |s.threads| <= MAX
      && forall u :: 0 <= u < |s.pool.weights| ==> s.pool.weights[u] + 5 * |s.threads| <= MAX
  }

  ghost predicate Invariant(m: Arith, s: System) {
    && Formed(s)
    && AllPositive(s.pool.weights)
    && Balanced(m, s)
    && AllClamped(s)
  }

  // ----- Every step keeps it

  /** A thread's own operation keeps credits less its debt. */
  lemma AtomicBalance(m: Arith, p: Pool, l: Local)
    requires p.Shaped() && LocalOk(|p.weights|, l)
    ensures var r := Atomic(m, p, l);
            Agree(m, Sum(r.0.credits) - Owing()(r.1), Sum(p.credits) - Owing()(l))
  {
    hide Norm, Agree, Sum;
    var base := Sum(p.credits) - Owing()(l);
    NormCancels(m, base, 0, 0);
    if l.AddCredit? {
      SumUpdate(p.credits, l.i, Norm(m, p.credits[l.i] + l.effective));
      NormCancels(m, base, p.credits[l.i] + l.effective, l.total + l.effective);
    } else if l.Charge? {
      SumUpdate(p.credits, l.best, Norm(m, p.credits[l.best] - l.total));
      NormCancels(m, base, p.credits[l.best] - l.total, 0);
    }
    NormOfZero(m);
  }

  lemma NormOfZero(m: Arith)
    ensures Norm(m, 0) == 0
  {
  }

  lemma NextBalances(m: Arith, s: System, op: Op)
    requires Formed(s) && Balanced(m, s)
    ensures Balanced(m, Next(m, s, op))
  {
    hide Agree, Norm, Atomic, ReportAdd, SumOver, Sum;
    if op.thread < |s.threads| {
      var t := op.thread;
      var l, s' := s.threads[t], Next(m, s, op);
      SumOverUpdate(Owing(), s.threads, t, s'.threads[t]);
      var others := SumOver(Owing(), s.threads) - Owing()(l);
      if op.action.Advance? {
        AtomicBalance(m, s.pool, l);
        BalanceMoves(m, Sum(s.pool.credits), Owing()(l), Sum(s'.pool.credits), Owing()(s'.threads[t]), others);
      } else {
        ReportOwesNothing(m, s, op);
      }
    }
  }

  lemma BalanceMoves(m: Arith, sum: int, owed: int, sum': int, owed': int, others: int)
    requires Agree(m, sum' - owed', sum - owed) && Agree(m, sum, owed + others)
    ensures Agree(m, sum', owed' + others)
  {
  }

  lemma ReportOwesNothing(m: Arith, s: System, op: Op)
    requires Formed(s) && op.thread < |s.threads| && !op.action.Advance?
    ensures var s' := Next(m, s, op);
            && s'.pool.credits == s.pool.credits
            && Owing()(s'.threads[op.thread]) == Owing()(s.threads[op.thread])
  {
  }

  /** How one thread's move changes the number of stores pending on an upstream. */
  lemma PendingAfter(threads: seq<Local>, t: nat, l: Local, u: nat)
    requires t < |threads|
    ensures SumOver(FloorPending(u), threads[t := l]) ==
            SumOver(FloorPending(u), threads) - FloorPending(u)(threads[t]) + FloorPending(u)(l)
    ensures SumOver(WeightPending(u), threads[t := l]) ==
            SumOver(WeightPending(u), threads) - WeightPending(u)(threads[t]) + WeightPending(u)(l)
    ensures 0 <= SumOver(FloorPending(u), threads) - FloorPending(u)(threads[t]) <= |threads| - 1
    ensures 0 <= SumOver(WeightPending(u), threads) - WeightPending(u)(threads[t]) <= |threads| - 1
  {
    SumOverUpdate(FloorPending(u), threads, t, l);
    SumOverUpdate(WeightPending(u), threads, t, l);
    SumOverUpdate(FloorPending(u), threads, t, StoreFloor(u));
    SumOverUpdate(WeightPending(u), threads, t, StoreWeight(u));
    SumOverUpdate(FloorPending(u), threads, t, Idle);
    SumOverUpdate(WeightPending(u), threads, t, Idle);
    SumOverBounds(FloorPending(u), threads[t := StoreFloor(u)]);
    SumOverBounds(WeightPending(u), threads[t := StoreWeight(u)]);
    SumOverBounds(FloorPending(u), threads[t := Idle]);
    SumOverBounds(WeightPending(u), threads[t := Idle]);
  }

  /** The add of one report, given p floor stores and q weight stores already pending. */
  lemma ReportStrays(m: Arith, weight: int, effective: int, delta: int, p: nat, q: nat)
    requires 1 <= weight && delta in DELTAS
    requires 1 - 10 * p <= effective <= weight + 5 * q
    requires m.Wrapping? ==> 10 * (p + 1) <= MAX && weight + 5 * (q + 1) <= MAX
    ensures var sum := Norm(m, effective + delta);
            && 1 - 10 * (if delta < 0 && sum < 1 then p + 1 else p) <= sum
            && sum <= weight + 5 * (if delta > 0 && sum > weight then q + 1 else q)
  {
    assert m.Wrapping? ==> InRange(effective + delta);
  }

  lemma NextClamps(m: Arith, s: System, op: Op, u: nat)
    requires Formed(s) && AllPositive(s.pool.weights) && AllClamped(s) && Roomy(m, s)
    requires u < |s.pool.weights|
    ensures Clamped(Next(m, s, op), u)
  {
    hide SumOver, Norm;
    assert Clamped(s, u);
    if op.thread < |s.threads| {
      var t := op.thread;
      var l := s.threads[t];
      var p, q := SumOver(FloorPending(u), s.threads), SumOver(WeightPending(u), s.threads);
      PendingAfter(s.threads, t, Next(m, s, op).threads[t], u);
      match op.action
      case Begin =>
      case Advance =>
      case Report(v, delta) =>
        if CanReport(s.pool, l, v, delta) && v == u {
          ReportStrays(m, s.pool.weights[u], s.pool.effective[u], delta, p, q);
        }
    }
  }

  lemma NextKeepsInvariant(m: Arith, s: System, op: Op)
    requires Invariant(m, s) && Roomy(m, s)
    ensures Invariant(m, Next(m, s, op)) && Roomy(m, Next(m, s, op))
  {
    NextBalances(m, s, op);
    forall u | 0 <= u < |s.pool.weights| ensures Clamped(Next(m, s, op), u) {
      NextClamps(m, s, op, u);
    }
  }

  /** Safety over every interleaving of every length. */
  lemma {:induction false} ScheduleKeepsInvariant(m: Arith, s: System, ops: seq<Op>)
    requires Invariant(m, s) && Roomy(m, s)
    ensures Invariant(m, Schedule(m, s, ops))
    decreases |ops|
  {
    if ops != [] {
      NextKeepsInvariant(m, s, ops[0]);
      ScheduleKeepsInvariant(m, Next(m, s, ops[0]), ops[1..]);
    }
  }

  // ----- Main results, from start-up, over every interleaving

  ghost function Boot(weights: seq<int>, threadCount: nat): (s: System)
    requires weights != []
    ensures Formed(s) && |s.threads| == threadCount
  {
    System(Fresh(weights), seq(threadCount, _ => Idle))
  }

  lemma {:induction false} SumOverIdle(f: Local -> int, threads: seq<Local>)
    requires forall t :: 0 <= t < |threads| ==> f(threads[t]) == 0
    ensures SumOver(f, threads) == 0
  {
    if threads != [] {
      SumOverIdle(f, threads[1..]);
    }
  }

  lemma BootInvariant(m: Arith, weights: Weights, threadCount: nat)
    ensures Invariant(m, Boot(weights, threadCount))
  {
    var s := Boot(weights, threadCount);
    SumOfZeros(s.pool.credits);
    SumOverIdle(Owing(), s.threads);
    forall u | 0 <= u < |weights| ensures Clamped(s, u) {
      SumOverIdle(FloorPending(u), s.threads);
      SumOverIdle(WeightPending(u), s.threads);
    }
  }

  /** In no call: nothing added and not yet charged. */
  predicate AtRest(l: Local) {
    l.Idle? || l.Chosen? || l.StoreFloor? || l.StoreWeight?
  }

  /** The balance needs nothing else: it is kept by every interleaving on its own. */
  lemma {:induction false} ScheduleBalances(m: Arith, s: System, ops: seq<Op>)
    requires Formed(s) && Balanced(m, s)
    ensures Balanced(m, Schedule(m, s, ops))
    decreases |ops|
  {
    hide Balanced, Next;
    if ops != [] {
      NextBalances(m, s, ops[0]);
      ScheduleBalances(m, Next(m, s, ops[0]), ops[1..]);
    }
  }

  /**
   * Conservation, for all weights and any number of threads: after any interleaving the
   * credits add up to the totals of the calls in flight, and to zero whenever no call is
   * in flight.
   */
  lemma CreditsConserved(m: Arith, weights: seq<int>, threadCount: nat, ops: seq<Op>)
    requires weights != []
    ensures var s := Schedule(m, Boot(weights, threadCount), ops);
            && Agree(m, Sum(s.pool.credits), SumOver(Owing(), s.threads))
            && ((forall t :: 0 <= t < |s.threads| ==> AtRest(s.threads[t])) ==> Agree(m, Sum(s.pool.credits), 0))
  {
    var s0 := Boot(weights, threadCount);
    SumOfZeros(s0.pool.credits);
    SumOverIdle(Owing(), s0.threads);
    ScheduleBalances(m, s0, ops);
    var s := Schedule(m, s0, ops);
    if forall t :: 0 <= t < |s.threads| ==> AtRest(s.threads[t]) {
      SumOverIdle(Owing(), s.threads);
    }
  }

  /**
   * The clamp: with p floor stores and q weight stores pending on an upstream, its
   * effective weight is between 1 - 10p and weight + 5q; outside [1, weight] some
   * thread holds the store that repairs it.
   */
  lemma ClampHolds(m: Arith, weights: Weights, threadCount: nat, ops: seq<Op>, u: nat)
    requires Roomy(m, Boot(weights, threadCount)) && u < |weights|
    ensures var s := Schedule(m, Boot(weights, threadCount), ops);
            && 1 - 10 * SumOver(FloorPending(u), s.threads) <= s.pool.effective[u]
            && s.pool.effective[u] <= weights[u] + 5 * SumOver(WeightPending(u), s.threads)
            && (s.pool.effective[u] < 1 ==> StoreFloor(u) in s.threads)
            && (s.pool.effective[u] > weights[u] ==> StoreWeight(u) in s.threads)
            && (m.Wrapping? ==> InRange(s.pool.effective[u]))
  {
    BootInvariant(m, weights, threadCount);
    ScheduleKeepsInvariant(m, Boot(weights, threadCount), ops);
    var s := Schedule(m, Boot(weights, threadCount), ops);
    assert s.pool.weights == weights;
    assert Clamped(s, u);
    SumOverBounds(FloorPending(u), s.threads);
    SumOverBounds(WeightPending(u), s.threads);
    if StoreFloor(u) !in s.threads {
      SumOverIdle(FloorPending(u), s.threads);
    }
    if StoreWeight(u) !in s.threads {
      SumOverIdle(WeightPending(u), s.threads);
    }
  }

  /**
   * Fairness after concurrency: whatever interleaving went before, once every thread is
   * idle or has merely chosen, calls one at a time stay within the lag that the deepest
   * debt left behind bounds.
   */
  lemma LagAfterInterleaving(weights: Weights, threadCount: nat, ops: seq<Op>, s: System, d: int, k: nat, i: nat)
    requires s == Schedule(Exact, Boot(weights, threadCount), ops)
    requires forall t :: 0 <= t < |s.threads| ==> s.threads[t].Idle? || s.threads[t].Chosen?
    requires Sum(s.pool.effective) - 1 <= d && forall j :: 0 <= j < |s.pool.credits| ==> -d <= s.pool.credits[j]
    requires i < |weights|
    ensures forall u :: 0 <= u < |weights| ==> 1 <= s.pool.effective[u] <= weights[u]
    ensures var p := s.pool;
            var lag := Sum(p.effective) * Tally(Picks(Exact, p, Gets(k)), i) - p.effective[i] * k;
            -(d * |weights|) <= lag <= d * |weights|
  {
    hide Schedule, Sum, SumOver, Picks, Tally;
    CreditsConserved(Exact, weights, threadCount, ops);
    forall u | 0 <= u < |weights| ensures 1 <= s.pool.effective[u] <= weights[u] {
      ClampHolds(Exact, weights, threadCount, ops, u);
    }
    LagWithin(s.pool, d, k, i);
  }

  // ----- A thread that is not interrupted does what the sequential selector does

  lemma {:induction false} ScheduleConcat(m: Arith, s: System, a: seq<Op>, b: seq<Op>)
    requires Formed(s)
    ensures Schedule(m, s, a + b) == Schedule(m, Schedule(m, s, a), b)
    decreases |a|
  {
    hide Next;
    if a == [] {
      assert a + b == b;
    } else {
      assert (a + b)[1..] == a[1..] + b;
      ScheduleConcat(m, Next(m, s, a[0]), a[1..], b);
    }
  }

  ghost predicate By(t: nat, ops: seq<Op>) {
    forall k :: 0 <= k < |ops| ==> ops[k].thread == t
  }

  /** A call by thread t on pool p, with the first i upstreams already passed. */
  ghost function MidCall(m: Arith, s: System, t: nat, i: nat): System
    requires Formed(s) && t < |s.threads| && i <= |s.pool.weights|
  {
    var p := s.pool;
    var best := if i == 0 then -1 else BestUpTo(m, p, i);
    System(p.(credits := Raised(m, p)[..i] + p.credits[i..]),
           s.threads[t := if i < |p.weights| then LoadWeight(i, TotalUpTo(m, p, i), best)
                          else Charge(TotalUpTo(m, p, i), best)])
  }

  lemma MidCallFormed(m: Arith, s: System, t: nat, i: nat)
    requires Formed(s) && t < |s.threads| && i <= |s.pool.weights|
    ensures Formed(MidCall(m, s, t, i))
  {
  }

  /** The load and the add of one iteration, run alone. */
  lemma SoloAdd(m: Arith, s: System, t: nat, i: nat)
    requires Formed(s) && t < |s.threads| && i < |s.pool.weights|
    ensures Formed(MidCall(m, s, t, i))
    ensures var p, step := s.pool, Op(t, Advance);
            var s2 := Next(m, Next(m, MidCall(m, s, t, i), step), step);
            && s2.pool == p.(credits := Raised(m, p)[..i + 1] + p.credits[i + 1..])
            && s2.threads == s.threads[t :=
                 if i == 0 then AfterIteration(|p.weights|, i, TotalUpTo(m, p, i + 1), i)
                 else LoadCredit(i, TotalUpTo(m, p, i + 1), BestUpTo(m, p, i))]
  {
    hide TotalUpTo, BestUpTo, Raised, Norm;
    MidCallFormed(m, s, t, i);
    ScanStep(m, s.pool, i);
    var step, p := Op(t, Advance), s.pool;
    var s2 := Next(m, Next(m, MidCall(m, s, t, i), step), step);
    assert s2.pool.credits == Raised(m, p)[..i + 1] + p.credits[i + 1..];
  }

  /** The two loads that compare with the best so far, run alone. */
  lemma SoloCompare(m: Arith, s: System, s2: System, t: nat, i: nat)
    requires Formed(s) && Formed(s2) && t < |s.threads| && 0 < i < |s.pool.weights|
    requires s2.pool == s.pool.(credits := Raised(m, s.pool)[..i + 1] + s.pool.credits[i + 1..])
    requires s2.threads == s.threads[t := LoadCredit(i, TotalUpTo(m, s.pool, i + 1), BestUpTo(m, s.pool, i))]
    ensures Next(m, Next(m, s2, Op(t, Advance)), Op(t, Advance)) == MidCall(m, s, t, i + 1)
  {
    hide TotalUpTo, BestUpTo, Raised, Norm;
    ScanStep(m, s.pool, i);
  }

  /** One iteration, run alone. */
  lemma SoloIteration(m: Arith, s: System, t: nat, i: nat) returns (ops: seq<Op>)
    requires Formed(s) && t < |s.threads| && i < |s.pool.weights|
    ensures By(t, ops) && Formed(MidCall(m, s, t, i))
    ensures Schedule(m, MidCall(m, s, t, i), ops) == MidCall(m, s, t, i + 1)
  {
    hide TotalUpTo, BestUpTo, Raised, Norm, Next, Schedule;
    var step, s0 := Op(t, Advance), MidCall(m, s, t, i);
    SoloAdd(m, s, t, i);
    ScheduleTwo(m, s0, step);
    ops := [step, step];
    if i == 0 {
      ScanStep(m, s.pool, i);
    } else {
      var s2 := Schedule(m, s0, ops);
      SoloCompare(m, s, s2, t, i);
      ScheduleTwo(m, s2, step);
      ScheduleConcat(m, s0, ops, ops);
      ops := ops + ops;
    }
  }

  lemma ScheduleTwo(m: Arith, s: System, op: Op)
    requires Formed(s)
    ensures Schedule(m, s, [op, op]) == Next(m, Next(m, s, op), op)
  {
    hide Next;
    assert [op, op][1..] == [op] && [op][1..] == [];
    assert Schedule(m, Next(m, s, op), [op]) == Next(m, Next(m, s, op), op);
  }

  lemma ScheduleOne(m: Arith, s: System, op: Op)
    requires Formed(s)
    ensures Schedule(m, s, [op]) == Next(m, s, op)
  {
    hide Next;
    assert [op][1..] == [];
  }

  lemma {:induction false} SoloScan(m: Arith, s: System, t: nat, i: nat) returns (ops: seq<Op>)
    requires Formed(s) && t < |s.threads| && i <= |s.pool.weights|
    ensures By(t, ops) && Formed(MidCall(m, s, t, 0))
    ensures Schedule(m, MidCall(m, s, t, 0), ops) == MidCall(m, s, t, i)
  {
    hide MidCall, Next;
    MidCallFormed(m, s, t, 0);
    if i == 0 {
      ops := [];
    } else {
      var first := SoloScan(m, s, t, i - 1);
      var last := SoloIteration(m, s, t, i - 1);
      ops := first + last;
      ScheduleConcat(m, MidCall(m, s, t, 0), first, last);
    }
  }

  lemma SoloBegin(m: Arith, s: System, t: nat)
    requires Formed(s) && t < |s.threads| && s.threads[t].Idle?
    ensures Next(m, s, Op(t, Begin)) == MidCall(m, s, t, 0)
  {
    hide TotalUpTo, BestUpTo, Raised, Norm, AfterGet, Best;
    ScanEnds(m, s.pool);
    assert Raised(m, s.pool)[..0] + s.pool.credits[0..] == s.pool.credits;
  }

  lemma SoloCharge(m: Arith, s: System, t: nat)
    requires Formed(s) && t < |s.threads|
    ensures Formed(MidCall(m, s, t, |s.pool.weights|))
    ensures Next(m, MidCall(m, s, t, |s.pool.weights|), Op(t, Advance)) ==
            System(AfterGet(m, s.pool), s.threads[t := Chosen(Best(m, s.pool))])
  {
    hide TotalUpTo, BestUpTo, Raised, Norm, AfterGet, Best;
    var n := |s.pool.weights|;
    ScanEnds(m, s.pool);
    MidCallFormed(m, s, t, n);
    assert Raised(m, s.pool)[..n] + s.pool.credits[n..] == Raised(m, s.pool);
  }

  /** Run alone, a call is the sequential one: same pick, same credits, in either arithmetic. */
  lemma SoloGet(m: Arith, s: System, t: nat) returns (ops: seq<Op>)
    requires Formed(s) && t < |s.threads| && s.threads[t].Idle?
    ensures By(t, ops)
    ensures Schedule(m, s, ops) == System(AfterGet(m, s.pool), s.threads[t := Chosen(Best(m, s.pool))])
  {
    hide MidCall, AfterGet, Best, Schedule, Next;
    var n := |s.pool.weights|;
    var begin, charge := Op(t, Begin), Op(t, Advance);
    SoloBegin(m, s, t);
    var scan := SoloScan(m, s, t, n);
    SoloCharge(m, s, t);
    ops := [begin] + scan + [charge];
    ScheduleOne(m, s, begin);
    ScheduleConcat(m, s, [begin], scan);
    ScheduleConcat(m, s, [begin] + scan, [charge]);
    ScheduleOne(m, MidCall(m, s, t, n), charge);
  }

  /** Run alone, a report is the sequential one. */
  lemma SoloReport(m: Arith, s: System, t: nat, u: nat, delta: int) returns (ops: seq<Op>)
    requires Formed(s) && t < |s.threads| && u < |s.pool.weights| && delta in DELTAS
    requires s.threads[t].Idle? || s.threads[t] == Chosen(u)
    ensures By(t, ops)
    ensures Schedule(m, s, ops) == System(AfterAdjust(m, s.pool, u, delta), s.threads[t := Idle])
  {
    var add, store := Op(t, Report(u, delta)), Op(t, Advance);
    ScheduleOne(m, s, add);
    var s1 := Next(m, s, add);
    if s1.threads[t].Idle? {
      ops := [add];
    } else {
      ops := [add] + [store];
      ScheduleConcat(m, s, [add], [store]);
      ScheduleOne(m, s1, store);
    }
  }
}

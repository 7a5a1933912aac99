/** Whole histories of the LVS-style selector: calls mixed with reports and probes. */
module LvsHistory {
  import opened Sums
  import opened Gcds
  import opened Int32
  import opened Health
  import opened LevelSchedule

  datatype LvsState = Running(weights: seq<int>, effective: seq<int>, cursor: Cursor) | Crashed

  /** In 32 bits: a reward cannot wrap at the configured weight. */
  ghost predicate RewardsFit(m: Arith, weights: seq<int>) {
    m.Wrapping? ==> forall i :: 0 <= i < |weights| ==> weights[i] + 5 <= MAX
  }

  /**
   * What every history keeps: effective weights within [1, weight], and a threshold
   * that is either untouched or between 1 and the largest configured weight.
   */
  ghost predicate Ready(m: Arith, s: LvsState) {
    s.Running? ==>
      && AllPositive(s.weights) && RewardsFit(m, s.weights)
      && |s.effective| == |s.weights|
      && (forall i :: 0 <= i < |s.weights| ==> 1 <= s.effective[i] <= s.weights[i])
      && (s.cursor == FRESH || (Started(s.effective, s.cursor) && s.cursor.level <= MaxOf(s.weights)))
  }

  lemma MaxMonotone(a: Weights, b: Weights)
    requires |a| == |b| && forall i :: 0 <= i < |a| ==> a[i] <= b[i]
    ensures MaxOf(a) <= MaxOf(b)
  {
  }

  /** A single upstream is returned without touching the cursor. */
  ghost function Call(m: Arith, s: LvsState): (s': LvsState)
    requires Ready(m, s) && s.Running?
    ensures Ready(m, s')
  {
    if |s.effective| == 1 then s else
      LoopPanicsExactly(s.effective, s.cursor);
      MaxMonotone(s.effective, s.weights);
      var o := Choose(s.effective, s.cursor);
      if o.Panicked? then Crashed else s.(cursor := o.cursor)
  }

  ghost function Step(m: Arith, s: LvsState, e: Event): (s': LvsState)
    requires Ready(m, s)
    ensures Ready(m, s')
    ensures s'.Running? ==> s.Running? && s'.weights == s.weights
  {
    if s.Crashed? then s
    else if e.Get? then Call(m, s)
    else if Possible(|s.weights|, e) then
      s.(effective := s.effective[e.upstream := Settle(m, s.weights[e.upstream], s.effective[e.upstream], e.delta)])
    else s
  }

  ghost function Run(m: Arith, s: LvsState, events: seq<Event>): (s': LvsState)
    requires Ready(m, s)
    ensures Ready(m, s')
    ensures s'.Running? ==> s.Running? && s'.weights == s.weights
    decreases |events|
  {
    if events == [] then s else Run(m, Step(m, s, events[0]), events[1..])
  }

  ghost function Start(weights: Weights): LvsState {
    Running(weights, weights, FRESH)
  }

  /** Once a call has succeeded, no later event can make a call panic. */
  lemma {:induction false} StartedNeverCrashes(m: Arith, s: LvsState, events: seq<Event>)
    requires Ready(m, s) && s.Running? && (|s.weights| == 1 || s.cursor != FRESH)
    ensures Run(m, s, events).Running?
    decreases |events|
  {
    if events != [] {
      if |s.weights| > 1 {
        LoopPanicsExactly(s.effective, s.cursor);
      }
      StartedNeverCrashes(m, Step(m, s, events[0]), events[1..]);
    }
  }

  lemma {:induction false} RunConcat(m: Arith, s: LvsState, a: seq<Event>, b: seq<Event>)
    requires Ready(m, s)
    ensures Run(m, s, a + b) == Run(m, Run(m, s, a), b)
    decreases |a|
  {
    hide Step, Ready;
    if a == [] {
      assert a + b == b;
    } else {
      assert (a + b)[1..] == a[1..] + b;
      RunConcat(m, Step(m, s, a[0]), a[1..], b);
    }
  }

  /** Reports alone neither crash the selector nor move its cursor. */
  lemma {:induction false} ReportsKeepCursor(m: Arith, s: LvsState, events: seq<Event>)
    requires Ready(m, s) && s.Running? && Event.Get !in events
    ensures Run(m, s, events).Running? && Run(m, s, events).cursor == s.cursor
    decreases |events|
  {
    if events != [] {
      assert events[0] in events;
      ReportsKeepCursor(m, Step(m, s, events[0]), events[1..]);
    }
  }

  /**
   * The panic over whole histories: with two or more upstreams it happens exactly
   * when the first call of all finds every effective weight equal.
   */
  lemma CrashExactly(m: Arith, weights: Weights, before: seq<Event>, after: seq<Event>)
    requires |weights| >= 2 && RewardsFit(m, weights) && Event.Get !in before
    ensures Ready(m, Start(weights)) && Run(m, Start(weights), before).Running?
    ensures Run(m, Start(weights), before + [Event.Get] + after).Crashed?
            <==> AllEqual(Run(m, Start(weights), before).effective)
  {
    var s := Start(weights);
    assert Ready(m, s);
    ReportsKeepCursor(m, s, before);
    var s1 := Run(m, s, before);
    LoopPanicsExactly(s1.effective, s1.cursor);
    RunConcat(m, s, before, [Event.Get]);
    RunConcat(m, s, before + [Event.Get], after);
    var s2 := Run(m, s1, [Event.Get]);
    assert s2 == Call(m, s1) by {
      assert [Event.Get][1..] == [];
      assert Run(m, Step(m, s1, Event.Get), []) == Step(m, s1, Event.Get);
    }
    if s2.Running? {
      StartedNeverCrashes(m, s2, after);
    } else {
      CrashedStays(m, after);
    }
  }

  lemma {:induction false} CrashedStays(m: Arith, events: seq<Event>)
    ensures Run(m, Crashed, events).Crashed?
    decreases |events|
  {
    if events != [] {
      CrashedStays(m, events[1..]);
    }
  }

  /** Equal weights and the first request. */
  lemma EqualCrash(w: Weights)
    requires |w| >= 2 && RewardsFit(Wrapping, w) && AllEqual(w)
    ensures Ready(Wrapping, Start(w)) && Run(Wrapping, Start(w), [Event.Get]).Crashed?
  {
    hide GcdOf, MaxOf, Call, Step, AllEqual;
    assert Run(Wrapping, Start(w), []) == Start(w);
    CrashExactly(Wrapping, w, [], []);
    assert [] + [Event.Get] + [] == [Event.Get];
  }

  /** The smallest documented case: two upstreams of weight 50. */
  lemma EqualWeightsCrash()
    ensures Ready(Wrapping, Start([50, 50])) && Run(Wrapping, Start([50, 50]), [Event.Get]).Crashed?
  {
    hide Run, Ready;
    EqualCrash([50, 50]);
  }

  // ----- Fairness after any history

  /** With two or more upstreams, a run of calls is the loop run again and again. */
  lemma {:induction false} GetsAreCalls(m: Arith, s: LvsState, k: nat)
    requires Ready(m, s) && s.Running? && |s.effective| >= 2 && Safe(s.effective, s.cursor)
    ensures Run(m, s, Gets(k)) == s.(cursor := AfterCalls(s.effective, s.cursor, k))
    decreases k
  {
    if k > 0 {
      assert Gets(k)[0] == Event.Get && Gets(k)[1..] == Gets(k - 1);
      LoopPanicsExactly(s.effective, s.cursor);
      var s' := Step(m, s, Event.Get);
      assert s' == s.(cursor := AfterCall(s.effective, s.cursor));
      GetsAreCalls(m, s', k - 1);
    }
  }

  /**
   * Whatever calls, reports and probes went before: unless the selector crashed, or is
   * about to at its first call, every W/g further calls serve upstream i of the weights
   * left behind exactly its share.
   */
  lemma FairAfterAnyHistory(m: Arith, weights: Weights, history: seq<Event>, s: LvsState, k: nat, i: nat)
    requires RewardsFit(m, weights)
    requires s == Run(m, Start(weights), history) && s.Running? && i < |s.effective|
    requires !(s.cursor == FRESH && AllEqual(s.effective))
    ensures Safe(s.effective, s.cursor)
    ensures GcdOf(s.effective) * |Cycle(s.effective)| == Total(s.effective)
    ensures var picks := Served(s.effective, s.cursor, k + |Cycle(s.effective)|);
            GcdOf(s.effective) * Tally(picks[k..], i) == s.effective[i]
  {
    hide Run;
    EveryWindowIsExact(s.effective, s.cursor, k, i);
  }
}

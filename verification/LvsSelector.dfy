/** The LVS-style selector, one call at a time, tied to the level schedule. */
module LvsSelector {
  import opened Sums
  import opened Gcds
  import opened Int32
  import opened Health
  import opened Upstreams
  import opened LevelSchedule
  import LvsHistory

  class LvsWrrSelector {
    var upstreams: seq<Upstream>
    var lastChoose: int32
    var currentWeight: int32

    ghost function Effective(): (w: seq<int>)
      reads this`upstreams, upstreams
    {
      EffectiveWeights(upstreams)
    }

    ghost function At(): Cursor
      reads this
    {
      Cursor(lastChoose, currentWeight)
    }

    /** The whole state, as the histories see it. */
    ghost function State(): LvsHistory.LvsState
      reads this, upstreams
    {
      LvsHistory.Running(ConfiguredWeights(upstreams), Effective(), At())
    }

    /** No call so far, or the last one left a positive threshold. */
    ghost predicate Valid()
      reads this
    {
      && |upstreams| <= MAX
      && (forall i, j :: 0 <= i < j < |upstreams| ==> upstreams[i] != upstreams[j])
      && (At() == FRESH || (0 <= lastChoose < |upstreams| && 1 <= currentWeight))
    }

    constructor ()
      ensures Valid() && upstreams == [] && At() == FRESH
    {
      upstreams, lastChoose, currentWeight := [], -1, 0;
    }

    /** Unlike the nginx-style selector, this one rejects weights below 1. */
    method Add(url: string, kind: Kind, weight: int32) returns (ok: bool)
      requires Valid() && |upstreams| < MAX
      modifies this`upstreams
      ensures Valid() && ok == (weight >= 1) && At() == old(At())
      ensures !ok ==> upstreams == old(upstreams)
      ensures ok ==> old(upstreams) < upstreams && fresh(upstreams[old(|upstreams|)])
      ensures Names(upstreams) == old(Names(upstreams)) + if ok then [(kind, url)] else []
      ensures ConfiguredWeights(upstreams) == old(ConfiguredWeights(upstreams)) + if ok then [weight as int] else []
      ensures Effective() == old(Effective()) + if ok then [weight as int] else []
    {
      if weight < 1 {
        return false;
      }
      var u := new Upstream(kind, url, weight);
      upstreams := upstreams + [u];
      return true;
    }

    method GcdWeight() returns (res: int)
      requires AllPositive(Effective())
      ensures IsGcdOf(res, Effective()) && res == GcdOf(Effective())
      ensures 1 <= res <= upstreams[0].effectiveWeight
    {
      ghost var w := Effective();
      res := Gcd(upstreams[0].effectiveWeight, upstreams[0].effectiveWeight);
      SelfDivides(w[0]);
      assert DividesBoth(w[0], w[0], w[0]);
      DivisorAtMost(w[0], res);
      DivisorAtMost(res, w[0]);
      SingletonGcd(w[0]);
      assert w[..1] == [w[0]];
      for i := 1 to |upstreams|
        invariant IsGcdOf(res, w[..i])
      {
        ghost var before := res;
        res := Gcd(res, upstreams[i].effectiveWeight);
        GcdSnoc(before, w[..i], w[i], res);
        assert w[..i + 1] == w[..i] + [w[i]];
      }
      assert w[..|upstreams|] == w;
      GcdOfUnique(res, GcdOf(w), w);
    }

    method MaxWeight() returns (res: int)
      requires AllPositive(Effective())
      ensures res == MaxOf(Effective())
    {
      ghost var w := Effective();
      ghost var at := 0;
      res := 0;
      for i := 0 to |upstreams|
        invariant if i == 0 then res == 0 else 0 <= at < i && res == w[at]
        invariant forall j :: 0 <= j < i ==> w[j] <= res
      {
        assert upstreams[i].effectiveWeight == w[i] >= 1;
        if upstreams[i].effectiveWeight > res {
          res := upstreams[i].effectiveWeight;
          at := i;
        }
      }
    }

    /** A new round: the threshold falls by the gcd, and once used up is raised by the maximum. */
    method LowerThreshold() returns (zero: bool)
      requires upstreams != [] && AllPositive(Effective()) && 0 <= currentWeight
      modifies this`currentWeight
      ensures var level := old(currentWeight) - GcdOf(Effective());
              && currentWeight == (if level <= 0 then level + MaxOf(Effective()) else level)
              && zero == (level <= 0 && currentWeight == 0)
    {
      hide GcdOf, MaxOf, EffectiveWeights, IsGcdOf, AllPositive;
      zero := false;
      var g := GcdWeight();
      currentWeight := currentWeight - g;
      if currentWeight <= 0 {
        var max := MaxWeight();
        currentWeight := currentWeight + max;
        zero := currentWeight == 0;
      }
    }

    /** The head of the loop: next upstream, and at the first one a new threshold. */
    method Tick() returns (zero: bool)
      requires Valid() && |upstreams| >= 2 && AllPositive(Effective())
      modifies this`lastChoose, this`currentWeight
      ensures At() == Advance(Effective(), old(At())) && zero == Panics(Effective(), old(At()))
      ensures zero || Valid()
      ensures zero ==> At() == Cursor(0, 0)
    {
      hide GcdOf, MaxOf, EffectiveWeights, NextIndex, IsGcdOf, AllPositive;
      ghost var w: Weights, c := Effective(), At();
      AdvanceReachable(w, c);
      NextIndexIsRemainder(|upstreams|, lastChoose);
      zero := false;
      lastChoose := (lastChoose + 1) % |upstreams|;
      assert lastChoose == NextIndex(|w|, c.last);
      if lastChoose == 0 {
        zero := LowerThreshold();
      }
      assert Effective() == w && At() == Advance(w, c);
    }

    /** `picked` is null exactly when the call panics. */
    method Get() returns (picked: Upstream?)
      requires Valid() && AllPositive(Effective())
      modifies this`lastChoose, this`currentWeight
      ensures |upstreams| == 1 ==> picked == upstreams[0] && At() == old(At())
      ensures |upstreams| >= 2 ==>
                var o := Choose(Effective(), old(At()));
                if o.Panicked? then picked == null && At() == Cursor(0, 0)
                else Valid() && At() == o.cursor && picked == upstreams[o.cursor.last]
      ensures LvsHistory.Ready(Wrapping, old(State())) ==>
                LvsHistory.Step(Wrapping, old(State()), Event.Get) ==
                if picked == null then LvsHistory.Crashed else State()
    {
      hide Choose, Excess, Gap, EffectiveWeights, ConfiguredWeights, Advance, Panics;
      if |upstreams| == 1 {
        return upstreams[0];
      }
      ghost var w := Effective();
      ghost var goal := Choose(w, At());
      while true
        invariant Valid() && Effective() == w
        invariant var o := Choose(w, At());
                  if goal.Panicked? then o.Panicked? else o.Picked? && o.cursor == goal.cursor
        decreases Excess(w, At()), Gap(w, At())
      {
        ghost var c := At();
        ChooseIteration(w, c);
        var zero := Tick();
        if zero {
          return null;
        }
        if upstreams[lastChoose].effectiveWeight >= currentWeight {
          return upstreams[lastChoose];
        }
        MeasureDrops(w, c);
      }
    }

    method ReportUpstreamStatus(upstream: Upstream, status: Status, ghost i: nat)
      requires Valid() && i < |upstreams| && upstreams[i] == upstream
      modifies upstream`effectiveWeight
      ensures Effective() ==
              old(Effective())[i := Settle(Wrapping, upstream.weight, old(upstream.effectiveWeight),
                                           ReportDelta(Lvs, status))]
      ensures LvsHistory.Ready(Wrapping, old(State())) ==>
                State() == LvsHistory.Step(Wrapping, old(State()), Event.Adjust(i, ReportDelta(Lvs, status)))
    {
      upstream.Adjust(ReportDelta(Lvs, status));
    }

    /** One upstream's turn in the evaluation loop. */
    method Evaluate(upstream: Upstream, probe: Probe, ghost i: nat)
      requires Valid() && i < |upstreams| && upstreams[i] == upstream
      modifies upstream`effectiveWeight
      ensures Effective() ==
              old(Effective())[i := Settle(Wrapping, upstream.weight, old(upstream.effectiveWeight),
                                           ProbeDelta(Lvs, upstream.kind, probe))]
      ensures LvsHistory.Ready(Wrapping, old(State())) ==>
                var event := Event.Adjust(i, ProbeDelta(Lvs, upstream.kind, probe));
                State() == LvsHistory.Step(Wrapping, old(State()), event)
    {
      upstream.Adjust(ProbeDelta(Lvs, upstream.kind, probe));
    }
  }

  /** Every weight is one that `Add` takes. */
  ghost predicate Admitted(details: seq<Detail>) {
    forall i :: 0 <= i < |details| ==> details[i].weight >= 1
  }

  lemma AdmittedWeights(a: seq<Detail>, b: seq<Detail>)
    requires a + b != []
    ensures AllPositive(WeightsOf(a) + WeightsOf(b)) <==> Admitted(a) && Admitted(b)
  {
    var w := WeightsOf(a) + WeightsOf(b);
    assert |w| == |a| + |b|;
    assert forall i :: 0 <= i < |a| ==> w[i] == a[i].weight;
    assert forall i :: 0 <= i < |b| ==> w[|a| + i] == b[i].weight;
  }

  /** Adds every upstream of one kind; stops at the first that is rejected. */
  method AddAll(s: LvsWrrSelector, kind: Kind, details: seq<Detail>) returns (ok: bool)
    requires s.Valid() && |s.upstreams| + |details| <= MAX
    modifies s`upstreams
    ensures s.Valid() && s.At() == old(s.At()) && ok == Admitted(details)
    ensures ok ==>
              && Names(s.upstreams) == old(Names(s.upstreams)) + NamesOf(kind, details)
              && ConfiguredWeights(s.upstreams) == old(ConfiguredWeights(s.upstreams)) + WeightsOf(details)
              && s.Effective() == old(s.Effective()) + WeightsOf(details)
    ensures |s.upstreams| <= old(|s.upstreams|) + |details| && old(s.upstreams) <= s.upstreams
    ensures forall i :: old(|s.upstreams|) <= i < |s.upstreams| ==> fresh(s.upstreams[i])
  {
    hide EffectiveWeights, ConfiguredWeights, WeightsOf, Names, NamesOf;
    for k := 0 to |details|
      invariant s.Valid() && s.At() == old(s.At()) && |s.upstreams| == old(|s.upstreams|) + k
      invariant forall i :: 0 <= i < k ==> details[i].weight >= 1
      invariant Names(s.upstreams) == old(Names(s.upstreams)) + NamesOf(kind, details)[..k]
      invariant ConfiguredWeights(s.upstreams) == old(ConfiguredWeights(s.upstreams)) + WeightsOf(details)[..k]
      invariant s.Effective() == old(s.Effective()) + WeightsOf(details)[..k]
      invariant old(s.upstreams) <= s.upstreams
      invariant forall i :: old(|s.upstreams|) <= i < |s.upstreams| ==> fresh(s.upstreams[i])
    {
      var added := s.Add(details[k].url, kind, details[k].weight);
      if !added {
        return false;
      }
      assert NamesOf(kind, details)[..k + 1] == NamesOf(kind, details)[..k] + [NamesOf(kind, details)[k]];
      assert WeightsOf(details)[..k + 1] == WeightsOf(details)[..k] + [WeightsOf(details)[k]];
    }
    assert WeightsOf(details)[..|details|] == WeightsOf(details);
    assert NamesOf(kind, details)[..|details|] == NamesOf(kind, details);
    return true;
  }

  /**
   * The client's start-up: Google upstreams, then IETF ones. A selector that every weight
   * admits starts the histories at the configured weights.
   */
  method FromConfig(google: seq<Detail>, ietf: seq<Detail>) returns (ok: bool, s: LvsWrrSelector)
    requires 1 <= |google| + |ietf| <= MAX
    ensures fresh(s) && s.Valid() && forall i :: 0 <= i < |s.upstreams| ==> fresh(s.upstreams[i])
    ensures ok <==> AllPositive(WeightsOf(google) + WeightsOf(ietf))
    ensures ok ==> s.State() == LvsHistory.Start(WeightsOf(google) + WeightsOf(ietf))
    ensures ok ==> Names(s.upstreams) == NamesOf(Google, google) + NamesOf(IETF, ietf)
  {
    hide EffectiveWeights, ConfiguredWeights, WeightsOf, Names, NamesOf, Admitted, AllPositive;
    AdmittedWeights(google, ietf);
    NoWeights();
    s := new LvsWrrSelector();
    ok := AddAll(s, Google, google);
    assert [] + WeightsOf(google) == WeightsOf(google) && [] + NamesOf(Google, google) == NamesOf(Google, google);
    if ok {
      ok := AddAll(s, IETF, ietf);
    }
  }

  lemma NoWeights()
    ensures EffectiveWeights([]) == [] && ConfiguredWeights([]) == [] && Names([]) == []
  {
  }
}

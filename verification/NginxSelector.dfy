/** The nginx-style selector, one call at a time, tied to smooth weighted round robin. */
module NginxSelector {
  import opened Int32
  import opened Health
  import opened Upstreams
  import opened SmoothWrr

  class NginxWrrSelector {
    var upstreams: seq<Upstream>

    ghost predicate Valid()
      reads this
    {
      forall i, j :: 0 <= i < j < |upstreams| ==> upstreams[i] != upstreams[j]
    }

    /** The selector's whole state as a value. */
    ghost function State(): (p: Pool)
      reads this, upstreams
      ensures |p.weights| == |p.effective| == |p.credits| == |upstreams|
      ensures forall i :: 0 <= i < |upstreams| ==>
                && p.weights[i] == upstreams[i].weight
                && p.effective[i] == upstreams[i].effectiveWeight
                && p.credits[i] == upstreams[i].currentWeight
    {
      Pool(
        seq(|upstreams|, i requires 0 <= i < |upstreams| reads this => upstreams[i].weight),
        seq(|upstreams|, i requires 0 <= i < |upstreams| reads this, upstreams => upstreams[i].effectiveWeight),
        seq(|upstreams|, i requires 0 <= i < |upstreams| reads this, upstreams => upstreams[i].currentWeight))
    }

    constructor ()
      ensures Valid() && upstreams == []
    {
      upstreams := [];
    }

    /** The weight is taken as it is: this selector does not reject weights below 1. */
    method Add(url: string, kind: Kind, weight: int32)
      requires Valid()
      modifies this
      ensures Valid() && |upstreams| == old(|upstreams|) + 1
      ensures old(upstreams) <= upstreams && fresh(upstreams[old(|upstreams|)])
      ensures Names(upstreams) == old(Names(upstreams)) + [(kind, url)]
      ensures State().weights == old(State().weights) + [weight as int]
      ensures State().effective == old(State().effective) + [weight as int]
      ensures State().credits == old(State().credits) + [0]
    {
      var u := new Upstream(kind, url, weight);
      upstreams := upstreams + [u];
    }

    /** The loop of a call: raise every credit, add up the weights, keep the first largest. */
    method Scan() returns (total: int32, best: int)
      requires Valid() && upstreams != []
      modifies upstreams
      ensures total == TotalUpTo(Wrapping, old(State()), |upstreams|) && best == Best(Wrapping, old(State()))
      ensures State() == old(State()).(credits := Raised(Wrapping, old(State())))
    {
      hide TotalUpTo, BestUpTo, Norm, Raised, State, Best, AfterGet;
      ghost var p := State();
      ghost var raised := Raised(Wrapping, p);
      ScanEnds(Wrapping, p);
      total, best := 0, -1;
      for i := 0 to |upstreams|
        invariant total == TotalUpTo(Wrapping, p, i)
        invariant if i == 0 then best == -1 else best == BestUpTo(Wrapping, p, i)
        invariant forall j :: 0 <= j < |upstreams| ==>
                    && upstreams[j].effectiveWeight == p.effective[j]
                    && upstreams[j].currentWeight == if j < i then raised[j] else p.credits[j]
      {
        ScanStep(Wrapping, p, i);
        var effectiveWeight := upstreams[i].effectiveWeight;
        upstreams[i].currentWeight := Norm(Wrapping, upstreams[i].currentWeight + effectiveWeight);
        total := Norm(Wrapping, total + effectiveWeight);
        if best == -1 || upstreams[i].currentWeight > upstreams[best].currentWeight {
          best := i;
        }
      }
      assert State().weights == p.weights && State().effective == p.effective && State().credits == raised;
    }

    method Get() returns (picked: Upstream, ghost index: nat)
      requires Valid() && upstreams != []
      modifies upstreams
      ensures index == Best(Wrapping, old(State())) && picked == upstreams[index]
      ensures State() == Step(Wrapping, old(State()), Event.Get)
    {
      hide TotalUpTo, BestUpTo, Norm, Raised, State, Best, AfterGet, AfterAdjust, Possible;
      ghost var p := State();
      ScanEnds(Wrapping, p);
      var total, best := Scan();
      ghost var q := State();
      upstreams[best].currentWeight := Norm(Wrapping, upstreams[best].currentWeight - total);
      picked, index := upstreams[best], best;
      assert State().credits == q.credits[best := Norm(Wrapping, q.credits[best] - total)];
      assert State().weights == p.weights && State().effective == p.effective;
    }

    method ReportUpstreamStatus(upstream: Upstream, status: Status, ghost i: nat)
      requires Valid() && i < |upstreams| && upstreams[i] == upstream
      modifies upstream`effectiveWeight
      ensures State() == Step(Wrapping, old(State()), Event.Adjust(i, ReportDelta(Nginx, status)))
    {
      ghost var p := State();
      upstream.Adjust(ReportDelta(Nginx, status));
      assert State().effective == AfterAdjust(Wrapping, p, i, ReportDelta(Nginx, status)).effective;
    }

    /** One upstream's turn in the evaluation loop. */
    method Evaluate(upstream: Upstream, probe: Probe, ghost i: nat)
      requires Valid() && i < |upstreams| && upstreams[i] == upstream
      modifies upstream`effectiveWeight
      ensures State() == Step(Wrapping, old(State()), Event.Adjust(i, ProbeDelta(Nginx, upstream.kind, probe)))
    {
      ghost var p := State();
      upstream.Adjust(ProbeDelta(Nginx, upstream.kind, probe));
      assert State().effective == AfterAdjust(Wrapping, p, i, ProbeDelta(Nginx, upstream.kind, probe)).effective;
    }

    /** A forwarded request: choose an upstream, then report what became of it. */
    method HandleRequest(outcome: Outcome) returns (picked: Upstream, ghost index: nat, ghost events: seq<Event>)
      requires Valid() && upstreams != []
      modifies upstreams
      ensures index < |upstreams| && picked == upstreams[index]
      ensures events == [Event.Get] +
                if outcome == NoResponse(true) then [Event.Adjust(index, -5)]
                else if outcome.Responded? && 500 <= outcome.code < 600 then [Event.Adjust(index, -3)]
                else if outcome.Responded? && 200 <= outcome.code < 300 then [Event.Adjust(index, 1)]
                else []
      ensures Picks(Wrapping, old(State()), events) == [index]
      ensures State() == Run(Wrapping, old(State()), events)
    {
      hide State, Step, Run, Picks, Best, RequestEvents, ReportDelta, Reported;
      ghost var p := State();
      picked, index := Get();
      events := RequestEvents(index, outcome);
      var reports := Reported(outcome);
      if reports != [] {
        ReportUpstreamStatus(picked, reports[0], index);
      }
      RequestRun(p, index, outcome);
      RequestEventsExactly(index, outcome);
    }
  }

  ghost function RequestEvents(index: nat, outcome: Outcome): seq<Event> {
    var reports := Reported(outcome);
    if reports == [] then [Event.Get]
    else [Event.Get, Event.Adjust(index, ReportDelta(Nginx, reports[0]))]
  }

  lemma RequestEventsExactly(index: nat, outcome: Outcome)
    ensures RequestEvents(index, outcome) ==
            [Event.Get] +
              if outcome == NoResponse(true) then [Event.Adjust(index, -5)]
              else if outcome.Responded? && 500 <= outcome.code < 600 then [Event.Adjust(index, -3)]
              else if outcome.Responded? && 200 <= outcome.code < 300 then [Event.Adjust(index, 1)]
              else []
  {
  }

  lemma RequestRun(p: Pool, index: nat, outcome: Outcome)
    requires p.Shaped() && index == Best(Wrapping, p)
    ensures var events := RequestEvents(index, outcome);
            var reports := Reported(outcome);
            var q := Step(Wrapping, p, Event.Get);
            && Picks(Wrapping, p, events) == [index]
            && Run(Wrapping, p, events) ==
               if reports == [] then q
               else Step(Wrapping, q, Event.Adjust(index, ReportDelta(Nginx, reports[0])))
  {
    hide Step, Best;
    var first := [Event.Get];
    assert first[..0] == [];
    assert Run(Wrapping, p, first) == Step(Wrapping, p, Event.Get);
    assert Picks(Wrapping, p, first) == [index];
    var events := RequestEvents(index, outcome);
    if events != first {
      assert events[..1] == first;
    }
  }

  lemma StillNoCredits(p: Pool, q: Pool)
    requires q.credits == p.credits + [0]
    ensures NoCredits(p) ==> NoCredits(q)
  {
  }

  /** Adds every upstream of one kind, whatever its weight. */
  method AddAll(s: NginxWrrSelector, kind: Kind, details: seq<Detail>)
    requires s.Valid()
    modifies s
    ensures s.Valid()
    ensures Names(s.upstreams) == old(Names(s.upstreams)) + NamesOf(kind, details)
    ensures s.State().weights == old(s.State().weights) + WeightsOf(details)
    ensures s.State().effective == old(s.State().effective) + WeightsOf(details)
    ensures |s.State().credits| == old(|s.State().credits|) + |details|
    ensures old(NoCredits(s.State())) ==> NoCredits(s.State())
    ensures old(s.upstreams) <= s.upstreams
    ensures forall i :: old(|s.upstreams|) <= i < |s.upstreams| ==> fresh(s.upstreams[i])
  {
    hide WeightsOf, Names, NamesOf, NginxWrrSelector.State, NoCredits;
    for k := 0 to |details|
      invariant s.Valid()
      invariant Names(s.upstreams) == old(Names(s.upstreams)) + NamesOf(kind, details)[..k]
      invariant s.State().weights == old(s.State().weights) + WeightsOf(details)[..k]
      invariant s.State().effective == old(s.State().effective) + WeightsOf(details)[..k]
      invariant |s.State().credits| == old(|s.State().credits|) + k
      invariant old(NoCredits(s.State())) ==> NoCredits(s.State())
      invariant old(s.upstreams) <= s.upstreams
      invariant forall i :: old(|s.upstreams|) <= i < |s.upstreams| ==> fresh(s.upstreams[i])
    {
      ghost var p := s.State();
      s.Add(details[k].url, kind, details[k].weight);
      StillNoCredits(p, s.State());
      assert NamesOf(kind, details)[..k + 1] == NamesOf(kind, details)[..k] + [NamesOf(kind, details)[k]];
      assert WeightsOf(details)[..k + 1] == WeightsOf(details)[..k] + [WeightsOf(details)[k]];
    }
    assert WeightsOf(details)[..|details|] == WeightsOf(details);
    assert NamesOf(kind, details)[..|details|] == NamesOf(kind, details);
  }

  /** The client's start-up: Google upstreams, then IETF ones, give a fresh pool. */
  method FromConfig(google: seq<Detail>, ietf: seq<Detail>) returns (s: NginxWrrSelector)
    requires google != [] || ietf != []
    ensures fresh(s) && s.Valid() && forall i :: 0 <= i < |s.upstreams| ==> fresh(s.upstreams[i])
    ensures s.State() == Fresh(WeightsOf(google) + WeightsOf(ietf))
    ensures Names(s.upstreams) == NamesOf(Google, google) + NamesOf(IETF, ietf)
  {
    hide WeightsOf, Names, NamesOf, NginxWrrSelector.State;
    s := new NginxWrrSelector();
    assert s.State().weights == [] && s.State().effective == [] && NoCredits(s.State());
    AddAll(s, Google, google);
    AddAll(s, IETF, ietf);
    assert s.State().credits == Fresh(WeightsOf(google) + WeightsOf(ietf)).credits;
  }
}

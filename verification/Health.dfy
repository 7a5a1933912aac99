/** How health reports and probes move an upstream's effective weight. */
module Health {
  import opened Int32

  /** Every amount that a report or a probe of either selector adds. */
  const DELTAS: set<int> := {-10, -5, -3, -2, 1, 5}

  datatype Selector = Nginx | Lvs

  datatype Kind = Google | IETF

  datatype Status = Timeout | Error | OK

  /** What a request saw of its upstream: no response, or one with a status code. */
  datatype Outcome = NoResponse(timeout: bool) | Responded(code: nat)

  /** What a probe saw; `body` tells the decoded "Status" member, if the body decodes. */
  datatype Probe = Unreachable | Response(code: nat, body: Body)

  datatype Body = Undecodable | NoError | AnythingElse

  /** What happens to a selector: a call, or one report or probe of one upstream. */
  datatype Event = Get | Adjust(upstream: nat, delta: int)

  /** A run of calls. */
  function Gets(k: nat): (events: seq<Event>)
    ensures |events| == k
    ensures forall j :: 0 <= j < k ==> events[j] == Get
  {
    seq(k, _ => Get)
  }

  predicate Possible(n: nat, e: Event) {
    e.Adjust? ==> e.upstream < n && e.delta in DELTAS
  }

  function ReportDelta(selector: Selector, status: Status): (delta: int)
    ensures delta in DELTAS && (delta == 1 <==> status.OK?) && (delta == -5 <==> status.Timeout?)
    ensures status.Error? <==> delta == if selector.Nginx? then -3 else -2
  {
    match status
    case Timeout => -5
    case Error => if selector.Nginx? then -3 else -2
    case OK => 1
  }

  function ProbeDelta(selector: Selector, kind: Kind, probe: Probe): (delta: int)
    ensures delta in DELTAS
    ensures delta > 0 <==> probe.Response? && probe.code == 200 && (kind.Google? ==> probe.body.NoError?)
    ensures delta > 0 ==> delta == 5
    ensures probe.Unreachable? ==> delta == if selector.Nginx? then -10 else -5
    ensures probe.Response? && probe.code != 200 ==> delta == if kind.IETF? && selector.Nginx? then -5 else -3
    ensures probe.Response? && probe.code == 200 && delta < 0 ==> delta == -2
  {
    match probe
    case Unreachable => if selector.Nginx? then -10 else -5
    case Response(code, body) =>
      if kind.Google? then
        if code != 200 then -3 else if body.NoError? then 5 else -2
      else
        if code != 200 then (if selector.Nginx? then -5 else -3) else 5
  }

  /** The report, if any, that a request files after its outcome is known. */
  function Reported(outcome: Outcome): (status: seq<Status>)
    ensures |status| <= 1
    ensures Timeout in status <==> outcome == NoResponse(true)
    ensures Error in status <==> outcome.Responded? && 500 <= outcome.code < 600
    ensures OK in status <==> outcome.Responded? && 200 <= outcome.code < 300
  {
    match outcome
    case NoResponse(timeout) => if timeout then [Timeout] else []
    case Responded(code) => if code / 100 == 5 then [Error] else if code / 100 == 2 then [OK] else []
  }

  /**
   * One report taken on its own: add, and store the bound when the sum has
   * crossed it. A penalty tests only the floor 1, a reward only the configured weight.
   */
  function Settle(m: Arith, weight: int, effective: int, delta: int): int {
    var sum := Norm(m, effective + delta);
    if delta < 0 then
      if sum < 1 then 1 else sum
    else
      if sum > weight then weight else sum
  }

  /**
   * In 32 bits every report keeps an effective weight in [1, weight] exactly
   * when the largest reward cannot wrap at the configured weight.
   */
  lemma SettleKeepsBounds(weight: int32)
    requires 1 <= weight
    ensures (forall effective, delta {:trigger Settle(Wrapping, weight, effective, delta)} ::
               1 <= effective <= weight && delta in DELTAS ==>
                 1 <= Settle(Wrapping, weight, effective, delta) <= weight)
            <==> weight + 5 <= MAX
  {
    if weight + 5 > MAX {
      assert Settle(Wrapping, weight, weight, 5) < 1;
    }
  }

  /** A report moves the effective weight to the point of [1, weight] nearest to the sum. */
  lemma SettleIsNearest(m: Arith, weight: int, effective: int, delta: int, x: int)
    requires 1 <= effective <= weight && delta in DELTAS && 1 <= x <= weight
    requires m.Wrapping? ==> weight + 5 <= MAX
    ensures var r, sum := Settle(m, weight, effective, delta), effective + delta;
            && 1 <= r <= weight
            && (if sum >= r then sum - r else r - sum) <= (if sum >= x then sum - x else x - sum)
  {
    assert m.Wrapping? ==> InRange(effective + delta);
  }

  /** The largest accepted weight is driven negative by one good probe. */
  lemma HugeWeightGoesNegative()
    ensures Settle(Wrapping, MAX, MAX, 5) == MIN + 4
  {
  }
}

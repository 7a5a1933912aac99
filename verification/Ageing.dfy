/** The client's side of caching: records lose the time the response spent in caches. */
module Ageing {
  import opened Lifetimes
  import opened Records
  import opened Marshalling

  function AgedRecord(rr: Record, delta: nat): (r: Record)
    ensures r.ttl == Aged(rr.ttl, delta) && r.Opt? == rr.Opt?
    ensures r.Name() == rr.Name() && r.Type() == rr.Type() && r.text == rr.text
  {
    rr.(ttl := Aged(rr.ttl, delta))
  }

  function AgedAll(rrs: seq<Record>, delta: nat): (r: seq<Record>)
    ensures |r| == |rrs| && forall i :: 0 <= i < |r| ==> r[i] == AgedRecord(rrs[i], delta)
  {
    seq(|rrs|, i requires 0 <= i < |rrs| => AgedRecord(rrs[i], delta))
  }

  /** In the additional section the OPT record is passed over: its TTL field is not a lifetime. */
  function AgedButOpt(rrs: seq<Record>, delta: nat): (r: seq<Record>)
    ensures |r| == |rrs|
    ensures forall i :: 0 <= i < |r| ==> r[i] == if rrs[i].Opt? then rrs[i] else AgedRecord(rrs[i], delta)
  {
    seq(|rrs|, i requires 0 <= i < |rrs| => if rrs[i].Opt? then rrs[i] else AgedRecord(rrs[i], delta))
  }

  function AgedMessage(msg: Msg, delta: nat): Msg {
    msg.(answer := AgedAll(msg.answer, delta), ns := AgedAll(msg.ns, delta), extra := AgedButOpt(msg.extra, delta))
  }

  /** One section of the reply, aged in place. */
  method AgeSection(section: array<Record>, delta: nat)
    modifies section
    ensures section[..] == AgedAll(old(section[..]), delta)
  {
    hide AgedRecord;
    for i := 0 to section.Length
      invariant forall j :: 0 <= j < section.Length ==>
                  section[j] == if j < i then AgedRecord(old(section[j]), delta) else old(section[j])
    {
      section[i] := AgedRecord(section[i], delta);
    }
  }

  method AgeAdditional(section: array<Record>, delta: nat)
    modifies section
    ensures section[..] == AgedButOpt(old(section[..]), delta)
  {
    hide AgedRecord;
    ghost var before := section[..];
    for i := 0 to section.Length
      invariant forall j :: 0 <= j < section.Length ==>
                  section[j] == if j < i && !before[j].Opt? then AgedRecord(before[j], delta) else before[j]
    {
      if section[i].Opt? {
        continue;
      }
      section[i] := AgedRecord(section[i], delta);
    }
  }

  /** The reply's three sections, aged by what its own headers say. */
  method AgeReply(answer: array<Record>, ns: array<Record>, extra: array<Record>,
                  clock: int, date: Header, lastModified: Header)
    requires answer != ns && ns != extra && answer != extra
    modifies answer, ns, extra
    ensures answer[..] == AgedAll(old(answer[..]), Delta(clock, date, lastModified))
    ensures ns[..] == AgedAll(old(ns[..]), Delta(clock, date, lastModified))
    ensures extra[..] == AgedButOpt(old(extra[..]), Delta(clock, date, lastModified))
  {
    var now := clock;
    if date.At? {
      now := date.instant;
    }
    var modified := now;
    if lastModified.At? {
      modified := lastModified.instant;
    }
    var delta := Since(now, modified);
    if delta < 0 {
      delta := 0;
    }
    AgeSection(answer, delta);
    AgeSection(ns, delta);
    AgeAdditional(extra, delta);
  }

  /** Unless the headers show a cache at work, nothing is taken off. */
  lemma UncachedIsUntouched(clock: int, date: Header, lastModified: Header, rrs: seq<Record>)
    requires !lastModified.At? || (date.At? && date.instant <= lastModified.instant)
    ensures Delta(clock, date, lastModified) == 0
    ensures AgedAll(rrs, 0) == rrs && AgedButOpt(rrs, 0) == rrs
  {
  }

  // ----- Server and client agree on the lifetime

  lemma {:induction false} AgedWithoutOpt(extra: seq<Record>, delta: nat)
    ensures WithoutOpt(AgedButOpt(extra, delta)) == AgedAll(WithoutOpt(extra), delta)
  {
    hide AgedRecord;
    if extra != [] {
      var n := |extra| - 1;
      assert AgedButOpt(extra, delta)[..n] == AgedButOpt(extra[..n], delta);
      AgedWithoutOpt(extra[..n], delta);
    }
  }

  lemma AgedCounted(msg: Msg, delta: nat)
    ensures Counted(AgedMessage(msg, delta)) == AgedAll(Counted(msg), delta)
  {
    hide AgedRecord, WithoutOpt;
    AgedWithoutOpt(msg.extra, delta);
  }

  /** Ageing commutes with the minimum. */
  lemma AgedLeast(least: Least, rrs: seq<Record>, delta: nat, now: int)
    requires IsLeast(least, rrs, now) && least.have
    ensures var ttl := Aged(least.ttl, delta);
            IsLeast(Least(true, ttl, Expiry(now, ttl)), AgedAll(rrs, delta), now)
  {
    var aged := AgedAll(rrs, delta);
    var i :| 0 <= i < |rrs| && rrs[i].ttl == least.ttl;
    assert aged[i].ttl == Aged(least.ttl, delta);
    forall k | 0 <= k < |aged| ensures Aged(least.ttl, delta) <= aged[k].ttl {
      AgedMonotone(least.ttl, rrs[k].ttl, delta);
    }
  }

  /**
   * A response that the server lets caches keep for its least TTL: for as long as that,
   * every record the client ages loses exactly the started seconds, none runs out early,
   * and the least lifetime of the aged message is the aged least lifetime.
   */
  lemma CacheLifetime(msg: Msg, resp: Response, now: int, delta: nat)
    requires IsMarshalled(resp, msg, now) && resp.haveTtl && delta <= resp.leastTtl * SECOND
    ensures var aged := Counted(AgedMessage(msg, delta));
            && |aged| == |Counted(msg)|
            && (forall i :: 0 <= i < |aged| ==>
                  && CeilSeconds(delta) <= Counted(msg)[i].ttl
                  && aged[i].ttl == Counted(msg)[i].ttl - CeilSeconds(delta))
            && var ttl := resp.leastTtl - CeilSeconds(delta);
               IsLeast(Least(true, ttl, Expiry(now, ttl)), aged, now)
  {
    hide AgedRecord, Aged, MarshalAll, FinalStatus, WithoutOpt, CeilSeconds, Counted, AgedMessage;
    var least, rrs := Least(resp.haveTtl, resp.leastTtl, resp.earliestExpires), Counted(msg);
    AgedCounted(msg, delta);
    AgedLeast(least, rrs, delta, now);
    CeilAtMost(delta, resp.leastTtl);
    AgedExactly(resp.leastTtl, delta);
    forall i | 0 <= i < |rrs|
      ensures CeilSeconds(delta) <= rrs[i].ttl && Aged(rrs[i].ttl, delta) == rrs[i].ttl - CeilSeconds(delta)
    {
      AgedExactly(rrs[i].ttl, delta);
    }
  }

  /** The same by the headers: no counted record ends early or more than a second off. */
  lemma CacheLifetimeByHeaders(msg: Msg, resp: Response, served: int, clock: int, date: Header, lastModified: Header)
    requires IsMarshalled(resp, msg, served) && resp.haveTtl && lastModified.At?
    requires 0 <= Now(clock, date) - lastModified.instant <= resp.leastTtl * SECOND
    ensures var now, delta := Now(clock, date), Delta(clock, date, lastModified);
            var aged := Counted(AgedMessage(msg, delta));
            && |aged| == |Counted(msg)|
            && forall i :: 0 <= i < |aged| ==>
                 Expiry(now, aged[i].ttl) <= Expiry(lastModified.instant, Counted(msg)[i].ttl)
                                          < Expiry(now, aged[i].ttl) + SECOND
  {
    hide AgedRecord, Aged, Delta, MarshalAll, FinalStatus, WithoutOpt, Counted, AgedMessage, Expiry;
    var delta, rrs := Delta(clock, date, lastModified), Counted(msg);
    AgedCounted(msg, delta);
    forall i | 0 <= i < |rrs|
      ensures var left := Aged(rrs[i].ttl, delta);
              Expiry(Now(clock, date), left) <= Expiry(lastModified.instant, rrs[i].ttl)
                                             < Expiry(Now(clock, date), left) + SECOND
    {
      AgedByHeaders(clock, date, lastModified, rrs[i].ttl);
    }
  }

  /** Ageing leaves the response code alone, since the OPT record is passed over. */
  lemma {:induction false} AgeingKeepsCode(status: bv32, extra: seq<Record>, delta: nat)
    ensures FinalStatus(status, AgedButOpt(extra, delta)) == FinalStatus(status, extra)
  {
    hide AgedRecord, JoinStatus, FinalStatus, WithoutOpt, AgedButOpt;
    var aged := AgedButOpt(extra, delta);
    if extra == [] {
      assert aged == [];
    } else {
      var n := |extra| - 1;
      AgeingKeepsCode(status, extra[..n], delta);
      assert aged[..n] == AgedButOpt(extra[..n], delta);
      assert aged[..n + 1] == aged && extra[..n + 1] == extra;
      OneMoreRecord(status, extra, n);
      OneMoreRecord(status, aged, n);
    }
  }

  lemma CeilAtMost(delta: nat, ttl: Ttl)
    requires delta <= ttl * SECOND
    ensures CeilSeconds(delta) <= ttl
  {
  }
}

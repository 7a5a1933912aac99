/** A DNS message to JSON, and JSON back to a DNS message. */
module Marshalling {
  import opened Options
  import opened Lifetimes
  import opened Records

  // ----- To JSON

  function MarshalRecord(rr: Record, now: int): JsonRecord {
    var expires := Expiry(now, rr.ttl);
    JsonRecord(rr.Name(), rr.Type(), rr.ttl, expires, Second(Printed(expires)), rr.text)
  }

  function MarshalAll(rrs: seq<Record>, now: int): (js: seq<JsonRecord>)
    ensures |js| == |rrs| && forall i :: 0 <= i < |js| ==> js[i] == MarshalRecord(rrs[i], now)
  {
    seq(|rrs|, i requires 0 <= i < |rrs| => MarshalRecord(rrs[i], now))
  }

  /** The top byte of the OPT record's TTL field supplies bits 4 to 11 of the code. */
  function JoinStatus(status: bv32, flags: bv32): bv32 {
    ((flags & 0xff000000) >> 20) | (status & 0xff)
  }

  /** The status after every OPT record of the additional section, in order. */
  function FinalStatus(status: bv32, extra: seq<Record>): bv32 {
    if extra == [] then status else
      var n := |extra| - 1;
      var before := FinalStatus(status, extra[..n]);
      if extra[n].Opt? then JoinStatus(before, extra[n].ttl as bv32) else before
  }

  /** The least lifetime so far, with the expiry of the record that set it. */
  datatype Least = Least(have: bool, ttl: Ttl, expires: int) {
    function With(j: JsonRecord): Least {
      if !have || j.ttl < ttl then Least(true, j.ttl, j.expires) else this
    }
  }

  const NOTHING := Least(false, 0, 0)

  /** It is the minimum: attained, never undercut, and dated `now` plus the minimum. */
  ghost predicate IsLeast(least: Least, rrs: seq<Record>, now: int) {
    && (least.have <==> rrs != [])
    && (least.have ==>
          && (exists i :: 0 <= i < |rrs| && rrs[i].ttl == least.ttl)
          && (forall i :: 0 <= i < |rrs| ==> least.ttl <= rrs[i].ttl)
          && least.expires == Expiry(now, least.ttl))
    && (!least.have ==> least == NOTHING)
  }

  lemma LeastWith(least: Least, rrs: seq<Record>, rr: Record, now: int)
    requires IsLeast(least, rrs, now)
    ensures IsLeast(least.With(MarshalRecord(rr, now)), rrs + [rr], now)
  {
    var l, all := least.With(MarshalRecord(rr, now)), rrs + [rr];
    assert all[|rrs|] == rr;
    if least.have {
      var i :| 0 <= i < |rrs| && rrs[i].ttl == least.ttl;
      assert all[i] == rrs[i];
    }
  }

  /** The sections, flags and code of the JSON form; the lifetime fields are set apart. */
  ghost predicate IsMarshalled(resp: Response, msg: Msg, now: int) {
    && resp.status == FinalStatus(msg.rcode, msg.extra)
    && resp.tc == msg.truncated && resp.rd == msg.recursionDesired && resp.ra == msg.recursionAvailable
    && resp.ad == msg.authenticatedData && resp.cd == msg.checkingDisabled
    && resp.question == msg.question
    && resp.answer == MarshalAll(msg.answer, now)
    && resp.authority == MarshalAll(msg.ns, now)
    && resp.additional == MarshalAll(WithoutOpt(msg.extra), now)
    && IsLeast(Least(resp.haveTtl, resp.leastTtl, resp.earliestExpires), Counted(msg), now)
  }

  method MarshalSection(rrs: seq<Record>, now: int, least0: Least, ghost counted: seq<Record>)
      returns (section: seq<JsonRecord>, least: Least)
    requires IsLeast(least0, counted, now)
    ensures section == MarshalAll(rrs, now)
    ensures IsLeast(least, counted + rrs, now)
  {
    hide IsLeast, MarshalRecord;
    section, least := [], least0;
    assert counted + rrs[..0] == counted;
    for i := 0 to |rrs|
      invariant section == MarshalAll(rrs[..i], now)
      invariant IsLeast(least, counted + rrs[..i], now)
    {
      var j := MarshalRecord(rrs[i], now);
      LeastWith(least, counted + rrs[..i], rrs[i], now);
      assert counted + rrs[..i] + [rrs[i]] == counted + rrs[..i + 1];
      least := least.With(j);
      section := section + [j];
    }
    assert rrs[..|rrs|] == rrs;
  }

  /** The additional section: OPT records give status bits and are not shown. */
  method MarshalAdditional(extra: seq<Record>, now: int, status0: bv32, least0: Least, ghost counted: seq<Record>)
      returns (section: seq<JsonRecord>, status: bv32, least: Least)
    requires IsLeast(least0, counted, now)
    ensures section == MarshalAll(WithoutOpt(extra), now)
    ensures status == FinalStatus(status0, extra)
    ensures IsLeast(least, counted + WithoutOpt(extra), now)
  {
    hide IsLeast, JoinStatus, MarshalRecord, FinalStatus, WithoutOpt, MarshalAll;
    section, status, least := [], status0, least0;
    NoRecords(status0);
    assert counted + [] == counted;
    for i := 0 to |extra|
      invariant status == FinalStatus(status0, extra[..i])
      invariant section == MarshalAll(WithoutOpt(extra[..i]), now)
      invariant IsLeast(least, counted + WithoutOpt(extra[..i]), now)
    {
      OneMoreRecord(status0, extra, i);
      if extra[i].Opt? {
        assert WithoutOpt(extra[..i + 1]) == WithoutOpt(extra[..i]);
        status := JoinStatus(status, extra[i].ttl as bv32);
        continue;
      }
      var j := MarshalRecord(extra[i], now);
      LeastWith(least, counted + WithoutOpt(extra[..i]), extra[i], now);
      assert counted + WithoutOpt(extra[..i]) + [extra[i]] == counted + WithoutOpt(extra[..i + 1]);
      least := least.With(j);
      section := section + [j];
    }
    assert extra[..|extra|] == extra;
  }

  lemma NoRecords(status: bv32)
    ensures FinalStatus(status, []) == status && WithoutOpt([]) == []
  {
  }

  lemma OneMoreRecord(status: bv32, extra: seq<Record>, i: nat)
    requires i < |extra|
    ensures FinalStatus(status, extra[..i + 1]) ==
            var before := FinalStatus(status, extra[..i]);
            if extra[i].Opt? then JoinStatus(before, extra[i].ttl as bv32) else before
    ensures WithoutOpt(extra[..i + 1]) == WithoutOpt(extra[..i]) + if extra[i].Opt? then [] else [extra[i]]
  {
    hide JoinStatus;
    assert extra[..i + 1][..i] == extra[..i];
  }

  method Marshal(msg: Msg, now: int) returns (resp: Response)
    ensures IsMarshalled(resp, msg, now)
  {
    hide FinalStatus, MarshalAll, WithoutOpt;
    assert [] + msg.answer == msg.answer;
    var answer, least := MarshalSection(msg.answer, now, NOTHING, []);
    var authority, additional, status;
    authority, least := MarshalSection(msg.ns, now, least, msg.answer);
    additional, status, least := MarshalAdditional(msg.extra, now, msg.rcode, least, msg.answer + msg.ns);
    resp := Response(status, msg.truncated, msg.recursionDesired, msg.recursionAvailable,
                     msg.authenticatedData, msg.checkingDisabled, msg.question,
                     answer, authority, additional, least.have, least.ttl, least.expires);
  }

  // ----- From JSON

  /** The record-text library: which types have a name, and what a zone line parses to. */
  datatype Codec = Codec(known: nat -> bool, parse: (string, Ttl, nat, string) -> Option<Record>)

  predicate HasAny(s: string, bad: string) {
    exists i :: 0 <= i < |s| && s[i] in bad
  }

  const NAME_REJECTS := "\t\r\n \"();\\"

  /** A printed expiry is preferred to the relative TTL. */
  function TtlLeft(j: JsonRecord, now: int): Ttl {
    if j.stamp.Second? then ReadBack(j.stamp.second, now, j.ttl) else j.ttl
  }

  function UnmarshalRecord(codec: Codec, j: JsonRecord, now: int): Option<Record> {
    if HasAny(j.name, NAME_REJECTS) || j.stamp.Garbled? || !codec.known(j.rtype) || HasAny(j.data, "\r\n") then None
    else
      codec.parse(j.name, TtlLeft(j, now), j.rtype, j.data)
  }

  /** Records that do not parse are dropped, the others keep their order. */
  function UnmarshalAll(codec: Codec, js: seq<JsonRecord>, now: int): seq<Record> {
    if js == [] then [] else
      var n := |js| - 1;
      var r := UnmarshalRecord(codec, js[n], now);
      UnmarshalAll(codec, js[..n], now) + if r.Some? then [r.value] else []
  }

  /** The top byte of an OPT record's TTL field. */
  function CodeByte(opt: Record): bv32 {
    (opt.ttl as bv32) >> 24
  }

  /** The new OPT record's TTL field: the upper code bits in the top byte, nothing else. */
  function StatusFlags(status: bv32): bv32 {
    (0 & 0x00ffffff) | ((status & 0xff0) << 20)
  }

  function Unmarshalled(codec: Codec, msg: Msg, resp: Response, now: int): Msg {
    msg.(truncated := resp.tc, authenticatedData := resp.ad, checkingDisabled := resp.cd,
         rcode := resp.status & 0xf,
         answer := UnmarshalAll(codec, resp.answer, now),
         ns := UnmarshalAll(codec, resp.authority, now),
         extra := [Opt(StatusFlags(resp.status) as int, "")] + UnmarshalAll(codec, resp.additional, now))
  }

  method UnmarshalSection(codec: Codec, js: seq<JsonRecord>, now: int, start: seq<Record>)
      returns (section: seq<Record>)
    ensures section == start + UnmarshalAll(codec, js, now)
  {
    section := start;
    for i := 0 to |js|
      invariant section == start + UnmarshalAll(codec, js[..i], now)
    {
      assert js[..i + 1][..i] == js[..i];
      var r := UnmarshalRecord(codec, js[i], now);
      if r.Some? {
        section := section + [r.value];
      }
    }
    assert js[..|js|] == js;
  }

  method Unmarshal(codec: Codec, msg: Msg, resp: Response, now: int) returns (reply: Msg)
    ensures reply == Unmarshalled(codec, msg, resp, now)
  {
    hide UnmarshalAll;
    var answer := UnmarshalSection(codec, resp.answer, now, []);
    var ns := UnmarshalSection(codec, resp.authority, now, []);
    var extra := UnmarshalSection(codec, resp.additional, now, [Opt(0, "")]);
    var flags := (0 & 0x00ffffff) | ((resp.status & 0xff0) << 20);
    extra := extra[0 := Opt(flags as int, "")];
    reply := msg.(truncated := resp.tc, authenticatedData := resp.ad, checkingDisabled := resp.cd,
                  rcode := resp.status & 0xf, answer := answer, ns := ns, extra := extra);
  }

  // ----- Response code round trips

  ghost predicate NoOpt(rrs: seq<Record>) {
    forall i :: 0 <= i < |rrs| ==> rrs[i].Plain?
  }

  /** Without OPT records nothing is left out and the status stands. */
  lemma {:induction false} NoOptChangesNothing(status: bv32, extra: seq<Record>)
    requires NoOpt(extra)
    ensures FinalStatus(status, extra) == status && WithoutOpt(extra) == extra
  {
    hide FinalStatus, WithoutOpt, JoinStatus;
    NoRecords(status);
    if extra != [] {
      var n := |extra| - 1;
      NoOptChangesNothing(status, extra[..n]);
      OneMoreRecord(status, extra, n);
      assert extra[..n + 1] == extra == extra[..n] + [extra[n]];
    }
  }

  /** An OPT record is left out where it stands, and the last one joins the status reached before it. */
  lemma {:induction false} LastOpt(status: bv32, a: seq<Record>, opt: Record, b: seq<Record>)
    requires opt.Opt? && NoOpt(b)
    ensures FinalStatus(status, a + [opt] + b) == JoinStatus(FinalStatus(status, a), opt.ttl as bv32)
    ensures WithoutOpt(a + [opt] + b) == WithoutOpt(a) + b
  {
    hide FinalStatus, WithoutOpt, JoinStatus;
    var extra := a + [opt] + b;
    var last := |extra| - 1;
    OneMoreRecord(status, extra, last);
    assert extra[..last + 1] == extra;
    if b == [] {
      assert extra[..last] == a && extra[last] == opt;
      assert WithoutOpt(a) + [] == WithoutOpt(a);
    } else {
      var n := |b| - 1;
      assert extra[..last] == a + [opt] + b[..n] && extra[last] == b[n];
      LastOpt(status, a, opt, b[..n]);
      assert WithoutOpt(a) + b[..n] + [b[n]] == WithoutOpt(a) + b;
    }
  }

  /** A single OPT record decides, wherever it stands. */
  lemma SingleOpt(status: bv32, a: seq<Record>, opt: Record, b: seq<Record>)
    requires opt.Opt? && NoOpt(a) && NoOpt(b)
    ensures FinalStatus(status, a + [opt] + b) == JoinStatus(status, opt.ttl as bv32)
    ensures WithoutOpt(a + [opt] + b) == a + b
  {
    hide JoinStatus, FinalStatus, WithoutOpt;
    LastOpt(status, a, opt, b);
    NoOptChangesNothing(status, a);
  }

  lemma HeadOpt(status: bv32, opt: Record, rest: seq<Record>)
    requires opt.Opt? && NoOpt(rest)
    ensures FinalStatus(status, [opt] + rest) == JoinStatus(status, opt.ttl as bv32)
  {
    hide FinalStatus, WithoutOpt, JoinStatus;
    SingleOpt(status, [], opt, rest);
    assert [] + [opt] + rest == [opt] + rest;
  }

  /** Bit by bit: the low nibble is the status's, the high one the byte's, the middle one either's. */
  lemma JoinedBits(status: bv32, flags: bv32)
    ensures var joined := JoinStatus(status, flags);
            && joined & 0xf == status & 0xf
            && (joined >> 4) & 0xf == ((status >> 4) | (flags >> 24)) & 0xf
            && joined >> 8 == flags >> 28
  {
  }

  lemma BitsRoundTrip(x: bv32)
    ensures 0 <= x as int <= MAX_TTL && (x as int) as bv32 == x
  {
  }

  lemma SplitJoins(status: bv32)
    ensures JoinStatus(status & 0xf, StatusFlags(status)) == status % 4096
    ensures status & 0xf == status % 16 && StatusFlags(status) >> 24 == (status / 16) % 256
    ensures StatusFlags(status) & 0x00ffffff == 0
  {
  }

  /**
   * JSON to DNS to JSON keeps the code modulo 2^12: four bits travel in the header,
   * eight in the top byte of the OPT record's TTL field.
   */
  lemma CodeRoundTrip(codec: Codec, msg: Msg, resp: Response, t1: int, back: Response, t2: int)
    requires NoOpt(UnmarshalAll(codec, resp.additional, t1))
    requires IsMarshalled(back, Unmarshalled(codec, msg, resp, t1), t2)
    ensures back.status == resp.status % 4096
    ensures Unmarshalled(codec, msg, resp, t1).rcode == resp.status % 16
    ensures var opt := Unmarshalled(codec, msg, resp, t1).extra[0];
            opt.Opt? && CodeByte(opt) == (resp.status / 16) % 256
  {
    hide JoinStatus, StatusFlags, FinalStatus, IsLeast, MarshalAll, UnmarshalAll;
    SplitJoins(resp.status);
    BitsRoundTrip(StatusFlags(resp.status));
    var opt, rest := Opt(StatusFlags(resp.status) as int, ""), UnmarshalAll(codec, resp.additional, t1);
    HeadOpt(resp.status & 0xf, opt, rest);
  }

  /**
   * A message as unpacked from the wire, whose 12-bit code already repeats its OPT
   * record's byte, shows that code.
   */
  lemma UnpackedCodeShown(msg: Msg, a: seq<Record>, opt: Record, b: seq<Record>, resp: Response, now: int)
    requires msg.extra == a + [opt] + b && opt.Opt? && NoOpt(a) && NoOpt(b)
    requires msg.rcode < 4096 && CodeByte(opt) == msg.rcode >> 4
    requires IsMarshalled(resp, msg, now)
    ensures resp.status == msg.rcode
  {
    hide FinalStatus, JoinStatus, IsLeast, MarshalAll, WithoutOpt, NoOpt;
    SingleOpt(msg.rcode, a, opt, b);
    JoinRepeats(msg.rcode, opt.ttl as bv32);
  }

  lemma JoinRepeats(code: bv32, flags: bv32)
    requires code < 4096 && flags >> 24 == code >> 4
    ensures JoinStatus(code, flags) == code
  {
  }

  // ----- What survives

  /** Records whose name, expiry, type and data are in order. */
  ghost predicate Acceptable(codec: Codec, j: JsonRecord) {
    && (forall i :: 0 <= i < |j.name| ==>
          j.name[i] !in {'\t', '\r', '\n', ' ', '\"', '(', ')', ';', '\\'})
    && (forall i :: 0 <= i < |j.data| ==> j.data[i] != '\r' && j.data[i] != '\n')
    && !j.stamp.Garbled? && codec.known(j.rtype)
  }

  /** The record as it goes to the parser. */
  function ParsedAs(codec: Codec, j: JsonRecord, now: int): Option<Record> {
    codec.parse(j.name, TtlLeft(j, now), j.rtype, j.data)
  }

  lemma RefusedExactly(codec: Codec, j: JsonRecord, now: int)
    ensures UnmarshalRecord(codec, j, now) == if Acceptable(codec, j) then ParsedAs(codec, j, now) else None
  {
    hide TtlLeft;
    assert HasAny(j.name, NAME_REJECTS) <==>
      exists i :: 0 <= i < |j.name| && j.name[i] in {'\t', '\r', '\n', ' ', '\"', '(', ')', ';', '\\'}
    by {
      assert forall c :: c in NAME_REJECTS <==> c in {'\t', '\r', '\n', ' ', '\"', '(', ')', ';', '\\'};
    }
    assert forall c :: c in "\r\n" <==> c == '\r' || c == '\n';
  }

  /**
   * The survivors are exactly the acceptable records that parse, each at its own place in
   * the order: `from` gives the position each one comes from.
   */
  lemma {:induction false} SurvivorsInOrder(codec: Codec, js: seq<JsonRecord>, now: int) returns (from: seq<nat>)
    ensures |from| == |UnmarshalAll(codec, js, now)|
    ensures forall a, b :: 0 <= a < b < |from| ==> from[a] < from[b]
    ensures forall a :: 0 <= a < |from| ==>
              && from[a] < |js| && Acceptable(codec, js[from[a]])
              && ParsedAs(codec, js[from[a]], now) == Some(UnmarshalAll(codec, js, now)[a])
    ensures forall k :: 0 <= k < |js| && k !in from ==>
              !Acceptable(codec, js[k]) || ParsedAs(codec, js[k], now).None?
  {
    hide Acceptable, ParsedAs, UnmarshalRecord;
    from := [];
    if js != [] {
      var n := |js| - 1;
      from := SurvivorsInOrder(codec, js[..n], now);
      RefusedExactly(codec, js[n], now);
      var before := from;
      if UnmarshalRecord(codec, js[n], now).Some? {
        from := from + [n];
      }
      forall k | 0 <= k < |js| && k !in from
        ensures !Acceptable(codec, js[k]) || ParsedAs(codec, js[k], now).None?
      {
        if k < n {
          assert js[..n][k] == js[k];
          assert k !in before;
        }
      }
    }
  }

  // ----- Section round trip

  /** A record the JSON form can carry: accepted name, type and data, and text that parses back. */
  ghost predicate Carried(codec: Codec, rr: Record) {
    && rr.Plain? && codec.known(rr.rtype)
    && !HasAny(rr.name, NAME_REJECTS) && !HasAny(rr.text, "\r\n")
    && forall ttl: Ttl :: codec.parse(rr.name, ttl, rr.rtype, rr.text) == Some(rr.(ttl := ttl))
  }

  ghost predicate AllCarried(codec: Codec, rrs: seq<Record>) {
    forall i :: 0 <= i < |rrs| ==> Carried(codec, rrs[i])
  }

  /** The same record with what is left of its lifetime. */
  function Retimed(rr: Record, t0: int, t1: int): Record
    requires rr.Plain?
  {
    rr.(ttl := ReadBack(Printed(Expiry(t0, rr.ttl)), t1, rr.ttl))
  }

  /** Same records in the same order, each with the lifetime left. */
  ghost predicate Kept(back: seq<Record>, rrs: seq<Record>, t0: int, t1: int) {
    && |back| == |rrs|
    && forall i :: 0 <= i < |rrs| ==> rrs[i].Plain? && back[i] == Retimed(rrs[i], t0, t1)
  }

  lemma {:induction false} SectionRoundTrip(codec: Codec, rrs: seq<Record>, t0: int, t1: int)
    requires AllCarried(codec, rrs)
    ensures Kept(UnmarshalAll(codec, MarshalAll(rrs, t0), t1), rrs, t0, t1)
  {
    hide HasAny, ReadBack, Printed, Expiry;
    if rrs != [] {
      var n := |rrs| - 1;
      assert MarshalAll(rrs, t0)[..n] == MarshalAll(rrs[..n], t0);
      SectionRoundTrip(codec, rrs[..n], t0, t1);
      assert Carried(codec, rrs[n]);
      assert UnmarshalRecord(codec, MarshalAll(rrs, t0)[n], t1) == Some(Retimed(rrs[n], t0, t1));
    }
  }

  /** The same section from a sender that prints no expiry. */
  function WithoutStamps(js: seq<JsonRecord>): (r: seq<JsonRecord>)
    ensures |r| == |js| && forall i :: 0 <= i < |js| ==> r[i] == js[i].(stamp := Absent)
  {
    seq(|js|, i requires 0 <= i < |js| => js[i].(stamp := Absent))
  }

  /** Without printed expiries every record keeps its TTL, however late it is read. */
  lemma {:induction false} UnstampedRoundTrip(codec: Codec, rrs: seq<Record>, t0: int, t1: int)
    requires AllCarried(codec, rrs)
    ensures UnmarshalAll(codec, WithoutStamps(MarshalAll(rrs, t0)), t1) == rrs
  {
    hide HasAny, ReadBack, Printed, Expiry;
    if rrs != [] {
      var n := |rrs| - 1;
      assert WithoutStamps(MarshalAll(rrs, t0))[..n] == WithoutStamps(MarshalAll(rrs[..n], t0));
      UnstampedRoundTrip(codec, rrs[..n], t0, t1);
      assert Carried(codec, rrs[n]);
      assert UnmarshalRecord(codec, WithoutStamps(MarshalAll(rrs, t0))[n], t1) == Some(rrs[n]);
    }
  }

  /** What the reply takes from the request, and that its OPT record carries nothing but the code. */
  lemma ReplyKeepsRequest(codec: Codec, msg: Msg, resp: Response, now: int)
    ensures var reply := Unmarshalled(codec, msg, resp, now);
            && reply.question == msg.question
            && reply.recursionDesired == msg.recursionDesired
            && reply.recursionAvailable == msg.recursionAvailable
            && reply.extra[0].Opt? && (reply.extra[0].ttl as bv32) & 0x00ffffff == 0
  {
    hide UnmarshalAll;
    SplitJoins(resp.status);
    BitsRoundTrip(StatusFlags(resp.status));
  }

  /**
   * A message through JSON keeps every section's names, types and data in order, with
   * the lifetimes left; its OPT records are replaced by one at the head, which with the
   * header carries the code that the JSON form shows.
   */
  lemma MessageRoundTrip(codec: Codec, msg: Msg, base: Msg, resp: Response, t0: int, t1: int)
    requires IsMarshalled(resp, msg, t0)
    requires AllCarried(codec, msg.answer) && AllCarried(codec, msg.ns) && AllCarried(codec, WithoutOpt(msg.extra))
    ensures var reply := Unmarshalled(codec, base, resp, t1);
            && Kept(reply.answer, msg.answer, t0, t1)
            && Kept(reply.ns, msg.ns, t0, t1)
            && reply.extra[0].Opt? && Kept(reply.extra[1..], WithoutOpt(msg.extra), t0, t1)
            && reply.truncated == msg.truncated && reply.authenticatedData == msg.authenticatedData
            && reply.checkingDisabled == msg.checkingDisabled
            && reply.rcode == FinalStatus(msg.rcode, msg.extra) % 16
            && CodeByte(reply.extra[0]) == (FinalStatus(msg.rcode, msg.extra) / 16) % 256
  {
    hide Kept, AllCarried, IsLeast, StatusFlags, UnmarshalAll, MarshalAll, WithoutOpt, FinalStatus;
    SplitJoins(resp.status);
    BitsRoundTrip(StatusFlags(resp.status));
    SectionRoundTrip(codec, msg.answer, t0, t1);
    SectionRoundTrip(codec, msg.ns, t0, t1);
    SectionRoundTrip(codec, WithoutOpt(msg.extra), t0, t1);
  }

  /**
   * A message as unpacked from the wire, whose 12-bit code repeats its OPT record's byte,
   * comes back with the same low bits in the header and the same byte in its OPT record.
   */
  lemma MessageCodeRoundTrip(codec: Codec, msg: Msg, base: Msg, resp: Response,
                             a: seq<Record>, opt: Record, b: seq<Record>, t0: int, t1: int)
    requires IsMarshalled(resp, msg, t0)
    requires msg.extra == a + [opt] + b && opt.Opt? && NoOpt(a) && NoOpt(b)
    requires msg.rcode < 4096 && CodeByte(opt) == msg.rcode >> 4
    ensures var reply := Unmarshalled(codec, base, resp, t1);
            && reply.rcode == msg.rcode & 0xf
            && reply.extra[0].Opt? && CodeByte(reply.extra[0]) == CodeByte(opt)
  {
    hide FinalStatus, IsLeast, StatusFlags, UnmarshalAll, MarshalAll, WithoutOpt, NoOpt, IsMarshalled;
    UnpackedCodeShown(msg, a, opt, b, resp, t0);
    SplitJoins(resp.status);
    BitsRoundTrip(StatusFlags(resp.status));
    HighByte(msg.rcode);
  }

  lemma HighByte(code: bv32)
    requires code < 4096
    ensures (code / 16) % 256 == code >> 4
  {
  }
}

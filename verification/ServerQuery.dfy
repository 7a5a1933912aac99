/** The server's query loop: retries, and the fall-back from UDP to TCP, against any network. */
module ServerQuery {
  import opened Options
  import opened ServerConfig

  const TYPE_SOA := 6
  const TYPE_IXFR := 251
  const TYPE_AXFR := 252

  datatype Proto = Udp | Tcp | Tls

  datatype Reply = Reply(truncated: bool, answerTypes: seq<nat>, body: int)

  /** What an exchange returns: perhaps a reply, and whether the error is nil. */
  datatype Exchange = Exchange(reply: Option<Reply>, ok: bool)

  /** One exchange of the trace. */
  datatype Sent = Sent(proto: Proto, upstream: string, got: Exchange)

  /** The network decides every exchange by its number, protocol and address. */
  type Network = (nat, Proto, string) -> Exchange

  /** Crashed is the nil dereference of a missing reply, or the choice from no upstreams. */
  datatype Verdict = Answered | Failed | BadConfig | Crashed

  /** The first question of the type, or -1. */
  method IndexQuestionType(questions: seq<nat>, qtype: nat) returns (index: int)
    ensures if qtype in questions
            then 0 <= index < |questions| && questions[index] == qtype && qtype !in questions[..index]
            else index == -1
  {
    for i := 0 to |questions|
      invariant qtype !in questions[..i]
    {
      if questions[i] == qtype {
        return i;
      }
    }
    return -1;
  }

  // ----- The rules of one round

  predicate Truncated(got: Exchange) {
    got.ok && got.reply.Some? && got.reply.value.truncated
  }

  /** The whole answer is one SOA: over UDP that is no zone transfer. */
  predicate LoneSoa(got: Exchange) {
    got.reply.Some? && got.reply.value.answerTypes == [TYPE_SOA]
  }

  function FirstProto(kind: string, questions: seq<nat>): Proto {
    if kind == "tcp-tls" then Tls else if kind == "tcp" || TYPE_AXFR in questions then Tcp else Udp
  }

  /**
   * At most three exchanges: a truncated UDP reply is asked again over TCP, and for an
   * incremental transfer a lone SOA is asked again over TCP; nothing else is repeated.
   */
  ghost predicate ByTheRules(round: seq<Sent>, us: string, questions: seq<nat>) {
    var (address, kind) := AddressAndType(us);
    var ixfr := TYPE_IXFR in questions;
    && 1 <= |round| <= 3
    && round[0].proto == FirstProto(kind, questions)
    && (forall k :: 0 <= k < |round| ==> round[k].upstream == address)
    && (forall k :: 1 <= k < |round| ==> round[k].proto == Tcp)
    && (round[0].proto != Udp ==> |round| == 1)
    && (round[0].proto == Udp && !Truncated(round[0].got) ==>
          |round| == if ixfr && LoneSoa(round[0].got) then 2 else 1)
    && (round[0].proto == Udp && Truncated(round[0].got) ==>
          2 <= |round| && |round| == if ixfr && LoneSoa(round[1].got) then 3 else 2)
  }

  /** TLS and TCP upstreams, and zone transfers, take one exchange of their own protocol. */
  ghost predicate RightProtocol(round: seq<Sent>, us: string, questions: seq<nat>) {
    var kind := AddressAndType(us).1;
    && round != []
    && (kind == "tcp-tls" ==> |round| == 1 && round[0].proto == Tls)
    && (kind == "tcp" ==> |round| == 1 && round[0].proto == Tcp)
    && (kind == "udp" && 252 in questions ==> |round| == 1 && round[0].proto == Tcp)
    && (kind == "udp" && 252 !in questions ==> round[0].proto == Udp)
  }

  lemma RulesGiveProtocol(round: seq<Sent>, us: string, questions: seq<nat>)
    requires ByTheRules(round, us, questions)
    ensures RightProtocol(round, us, questions)
  {
    hide AddressAndType;
  }

  /** The exchange whose reply the incremental-transfer test looks at. */
  ghost function Examined(round: seq<Sent>): Exchange
    requires round != []
  {
    if Truncated(round[0].got) && |round| > 1 then round[1].got else round[0].got
  }

  /** The test would dereference a missing reply. */
  ghost predicate NilReply(round: seq<Sent>, questions: seq<nat>) {
    round != [] && round[0].proto == Udp && TYPE_IXFR in questions && Examined(round).reply.None?
  }

  /** The outcome of a round is that of its last exchange. */
  ghost function Last(round: seq<Sent>): Exchange {
    if round == [] then Exchange(None, false) else round[|round| - 1].got
  }

  /** The exchanges are the network's own, numbered from `start`. */
  ghost predicate FromNetwork(net: Network, round: seq<Sent>, start: nat) {
    forall k :: 0 <= k < |round| ==> round[k].got == net(start + k, round[k].proto, round[k].upstream)
  }

  class DnsRequest {
    const questions: seq<nat>
    var response: Option<Reply>
    var currentUpstream: string

    constructor (questions: seq<nat>)
      ensures this.questions == questions && response.None?
    {
      this.questions, response, currentUpstream := questions, None, "";
    }
  }

  /** The upstream that a random number selects. */
  function Choice(upstreams: seq<string>, r: nat): (us: string)
    requires upstreams != []
    ensures us in upstreams
  {
    upstreams[r % |upstreams|]
  }

  predicate KnownType(us: string) {
    AddressAndType(us).1 in {"udp", "tcp", "tcp-tls"}
  }

  /** One round over UDP first. `alive` is false when the test meets a missing reply. */
  method UdpRound(req: DnsRequest, address: string, net: Network, start: nat, ghost us: string)
      returns (round: seq<Sent>, ok: bool, alive: bool)
    requires AddressAndType(us) == (address, "udp") && TYPE_AXFR !in req.questions
    modifies req`response
    ensures ByTheRules(round, us, req.questions) && FromNetwork(net, round, start)
    ensures ok == Last(round).ok && req.response == Last(round).reply
    ensures alive == !NilReply(round, req.questions)
  {
    hide AddressAndType;
    var got := net(start, Udp, address);
    round := [Sent(Udp, address, got)];
    if got.ok && got.reply.Some? && got.reply.value.truncated {
      got := net(start + 1, Tcp, address);
      round := round + [Sent(Tcp, address, got)];
    }
    req.response, ok, alive := got.reply, got.ok, true;
    var ixfr := IndexQuestionType(req.questions, TYPE_IXFR);
    if ixfr > -1 {
      if req.response.None? {
        alive := false;
        return;
      }
      if |req.response.value.answerTypes| == 1 && req.response.value.answerTypes[0] == TYPE_SOA {
        got := net(start + |round|, Tcp, address);
        round := round + [Sent(Tcp, address, got)];
        req.response, ok := got.reply, got.ok;
      }
    }
  }

  /** One round with the upstream just chosen. */
  method Round(req: DnsRequest, net: Network, start: nat) returns (round: seq<Sent>, ok: bool, alive: bool)
    requires KnownType(req.currentUpstream)
    modifies req`response
    ensures ByTheRules(round, req.currentUpstream, req.questions) && FromNetwork(net, round, start)
    ensures ok == Last(round).ok && req.response == Last(round).reply
    ensures alive == !NilReply(round, req.questions)
  {
    hide AddressAndType;
    var (upstream, t) := AddressAndType(req.currentUpstream);
    var axfr := IndexQuestionType(req.questions, TYPE_AXFR);
    if t == "tcp-tls" || t == "tcp" || axfr > -1 {
      var proto := if t == "tcp-tls" then Tls else Tcp;
      var got := net(start, proto, upstream);
      round := [Sent(proto, upstream, got)];
      req.response, ok, alive := got.reply, got.ok, true;
    } else {
      round, ok, alive := UdpRound(req, upstream, net, start, req.currentUpstream);
    }
  }

  // ----- The loop

  ghost function TotalSent(rounds: seq<seq<Sent>>): nat {
    if rounds == [] then 0 else TotalSent(rounds[..|rounds| - 1]) + |rounds[|rounds| - 1]|
  }

  /** Every round goes by the rules with the network's own exchanges, and all but the last failed. */
  ghost predicate Orderly(net: Network, rounds: seq<seq<Sent>>, tried: seq<string>, questions: seq<nat>) {
    && |tried| == |rounds|
    && (forall i :: 0 <= i < |rounds| ==>
          ByTheRules(rounds[i], tried[i], questions) && FromNetwork(net, rounds[i], TotalSent(rounds[..i])))
    && (forall i :: 0 <= i < |rounds| - 1 ==> Fails(rounds[i], questions))
  }

  ghost predicate Fails(round: seq<Sent>, questions: seq<nat>) {
    !Last(round).ok && !NilReply(round, questions)
  }

  lemma NoRounds(net: Network, questions: seq<nat>)
    ensures Orderly(net, [], [], questions) && TotalSent([]) == 0
  {
  }

  lemma UnusableType(conf: Config, us: string)
    requires us in conf.upstream && !KnownType(us)
    ensures !Usable(conf)
  {
  }

  lemma TotalSentAppend(rounds: seq<seq<Sent>>, round: seq<Sent>)
    ensures TotalSent(rounds + [round]) == TotalSent(rounds) + |round|
  {
    assert (rounds + [round])[..|rounds|] == rounds;
  }

  lemma OneMoreRound(net: Network, rounds: seq<seq<Sent>>, tried: seq<string>, questions: seq<nat>,
                     round: seq<Sent>, us: string)
    requires Orderly(net, rounds, tried, questions)
    requires rounds != [] ==> Fails(rounds[|rounds| - 1], questions)
    requires ByTheRules(round, us, questions) && FromNetwork(net, round, TotalSent(rounds))
    ensures Orderly(net, rounds + [round], tried + [us], questions)
    ensures TotalSent(rounds + [round]) == TotalSent(rounds) + |round|
  {
    hide ByTheRules, FromNetwork, Fails, TotalSent;
    var all, names := rounds + [round], tried + [us];
    TotalSentAppend(rounds, round);
    assert all[..|rounds|] == rounds;
    forall i | 0 <= i < |all|
      ensures ByTheRules(all[i], names[i], questions) && FromNetwork(net, all[i], TotalSent(all[..i]))
    {
      if i < |rounds| {
        assert all[..i] == rounds[..i] && all[i] == rounds[i];
      }
    }
  }

  /** What a caller can look at beforehand: an incremental transfer that may go over UDP. */
  ghost predicate CanCrash(conf: Config, questions: seq<nat>) {
    && TYPE_IXFR in questions && TYPE_AXFR !in questions
    && exists i :: 0 <= i < |conf.upstream| && OverUdp(conf.upstream[i])
  }

  predicate OverUdp(us: string) {
    AddressAndType(us).1 == "udp"
  }

  lemma NilReplyOnlyToIxfr(round: seq<Sent>, us: string, questions: seq<nat>)
    requires ByTheRules(round, us, questions) && NilReply(round, questions) && KnownType(us)
    ensures TYPE_IXFR in questions && TYPE_AXFR !in questions && OverUdp(us)
  {
    hide AddressAndType;
  }

  lemma UdpCanCrash(conf: Config, us: string, questions: seq<nat>)
    requires us in conf.upstream && OverUdp(us) && TYPE_IXFR in questions && TYPE_AXFR !in questions
    ensures CanCrash(conf, questions)
  {
    hide OverUdp;
    var i :| 0 <= i < |conf.upstream| && conf.upstream[i] == us;
  }

  /**
   * `pick` stands for the random choice of each round; `tried` lists the upstreams of the
   * rounds that were carried out.
   */
  method DoDnsQuery(conf: Config, req: DnsRequest, net: Network, pick: nat -> nat)
      returns (verdict: Verdict, rounds: seq<seq<Sent>>, ghost tried: seq<string>)
    modifies req
    ensures |rounds| <= conf.tries && Orderly(net, rounds, tried, req.questions)
    ensures tried != [] ==> conf.upstream != []
    ensures forall i :: 0 <= i < |tried| ==> tried[i] == Choice(conf.upstream, pick(i))
    ensures forall i :: 0 <= i < |rounds| ==> RightProtocol(rounds[i], tried[i], req.questions)
    ensures rounds != [] ==> req.response == Last(rounds[|rounds| - 1]).reply
    ensures match verdict
            case Answered =>
              if rounds == [] then conf.tries == 0
              else Last(rounds[|rounds| - 1]).ok && req.currentUpstream == tried[|tried| - 1]
            case Failed =>
              rounds != [] && |rounds| == conf.tries && Fails(rounds[|rounds| - 1], req.questions)
            case Crashed =>
              if rounds == [] then conf.upstream == [] && conf.tries > 0
              else NilReply(rounds[|rounds| - 1], req.questions)
            case BadConfig =>
              req.currentUpstream in conf.upstream && !KnownType(req.currentUpstream)
    ensures rounds != [] && NilReply(rounds[|rounds| - 1], req.questions) ==> verdict.Crashed?
    ensures Usable(conf) ==> rounds != [] && !verdict.BadConfig?
    ensures Usable(conf) && verdict.Crashed? ==> CanCrash(conf, req.questions)
  {
    hide ByTheRules, FromNetwork, Orderly, NilReply, KnownType, Choice, UsableUpstream, Last, TotalSent, CanCrash,
      RightProtocol;
    rounds, tried := [], [];
    var count := 0;
    NoRounds(net, req.questions);
    for i := 0 to conf.tries
      invariant count == TotalSent(rounds) && (i > 0 ==> conf.upstream != [])
      invariant |rounds| == |tried| == i && Orderly(net, rounds, tried, req.questions)
      invariant forall k :: 0 <= k < i ==> RightProtocol(rounds[k], tried[k], req.questions)
      invariant forall k :: 0 <= k < |tried| ==> tried[k] == Choice(conf.upstream, pick(k))
      invariant i > 0 ==>
                  && Fails(rounds[i - 1], req.questions)
                  && req.response == Last(rounds[i - 1]).reply
    {
      if |conf.upstream| == 0 {
        return Crashed, rounds, tried;
      }
      req.currentUpstream := Choice(conf.upstream, pick(i));
      ghost var us := req.currentUpstream;
      if !KnownType(req.currentUpstream) {
        UnusableType(conf, us);
        return BadConfig, rounds, tried;
      }
      var round, ok, alive := Round(req, net, count);
      OneMoreRound(net, rounds, tried, req.questions, round, us);
      RulesGiveProtocol(round, us, req.questions);
      rounds, tried, count := rounds + [round], tried + [us], count + |round|;
      if !alive {
        NilReplyOnlyToIxfr(round, us, req.questions);
        UdpCanCrash(conf, us, req.questions);
        return Crashed, rounds, tried;
      }
      if ok {
        return Answered, rounds, tried;
      }
    }
    return if conf.tries == 0 then Answered else Failed, rounds, tried;
  }

  // ----- What the rules amount to

  /** No round ends on a truncated UDP reply, nor on a lone SOA over UDP for an incremental transfer. */
  lemma NoPartialAnswer(round: seq<Sent>, us: string, questions: seq<nat>)
    requires ByTheRules(round, us, questions)
    ensures var last := round[|round| - 1];
            last.proto == Udp ==> !Truncated(last.got) && !(TYPE_IXFR in questions && LoneSoa(last.got))
    ensures Last(round).ok && round[0].proto == Udp && Truncated(round[0].got) ==> round[|round| - 1].proto == Tcp
  {
  }

  /** The reply is one SOA record and nothing else. */
  ghost predicate OneSoa(reply: Option<Reply>) {
    reply.Some? && |reply.value.answerTypes| == 1 && reply.value.answerTypes[0] == 6
  }

  /** When a round over UDP goes on, and when the transfer test finds no reply, in the replies' own terms. */
  lemma RetriesExactly(round: seq<Sent>, us: string, questions: seq<nat>)
    requires ByTheRules(round, us, questions) && round[0].proto == Udp
    ensures var first := round[0].got;
            var cut := first.ok && first.reply.Some? && first.reply.value.truncated;
            var ixfr := 251 in questions;
            && (|round| == 1 <==> !cut && !(ixfr && OneSoa(first.reply)))
            && (|round| == 3 <==> cut && ixfr && OneSoa(round[1].got.reply))
            && (NilReply(round, questions) <==>
                  ixfr && |round| == (if cut then 2 else 1) && Last(round).reply.None?)
  {
    hide AddressAndType;
  }

  /**
   * With every exchange failing, the retries all happen and the query fails; but an
   * incremental transfer crashes exactly when some try falls on a UDP upstream.
   */
  method DeadNetwork(conf: Config, questions: seq<nat>, pick: nat -> nat) returns (verdict: Verdict, count: nat)
    requires Usable(conf)
    ensures verdict == Crashed <==>
              && TYPE_IXFR in questions && TYPE_AXFR !in questions
              && exists i :: 0 <= i < conf.tries && OverUdp(Choice(conf.upstream, pick(i)))
    ensures verdict != Crashed ==> verdict == Failed && count == conf.tries
  {
    hide UsableUpstream, Choice, CanCrash, ByTheRules, FromNetwork, NilReply, Last, OverUdp, KnownType, TotalSent;
    var req := new DnsRequest(questions);
    var net: Network := (k, proto, upstream) => Exchange(None, false);
    var rounds;
    ghost var tried;
    verdict, rounds, tried := DoDnsQuery(conf, req, net, pick);
    count := |rounds|;
    forall i | 0 <= i < |rounds|
      ensures !Last(rounds[i]).ok
      ensures NilReply(rounds[i], questions) <==> TYPE_IXFR in questions && TYPE_AXFR !in questions && OverUdp(tried[i])
    {
      UsableIsKnown(conf, tried[i]);
      DeadRound(net, rounds[i], tried[i], questions, TotalSent(rounds[..i]));
    }
  }

  /** The condition is exact: where it holds, a dead network and some choice of upstreams crash. */
  method CrashReached(conf: Config, questions: seq<nat>) returns (verdict: Verdict)
    requires Usable(conf) && CanCrash(conf, questions)
    ensures verdict == Crashed
  {
    hide UsableUpstream, OverUdp;
    var i := 0;
    while !OverUdp(conf.upstream[i])
      invariant i < |conf.upstream|
      invariant forall k :: 0 <= k < i ==> !OverUdp(conf.upstream[k])
      decreases |conf.upstream| - i
    {
      i := i + 1;
    }
    var pick: nat -> nat := _ => i;
    ChoiceInRange(conf.upstream, i);
    assert OverUdp(Choice(conf.upstream, pick(0)));
    var count;
    verdict, count := DeadNetwork(conf, questions, pick);
  }

  lemma ChoiceInRange(upstreams: seq<string>, i: nat)
    requires i < |upstreams|
    ensures Choice(upstreams, i) == upstreams[i]
  {
  }

  lemma UsableIsKnown(conf: Config, us: string)
    requires Usable(conf) && us in conf.upstream
    ensures KnownType(us)
  {
  }

  lemma DeadRound(net: Network, round: seq<Sent>, us: string, questions: seq<nat>, start: nat)
    requires forall k, proto, upstream :: net(k, proto, upstream) == Exchange(None, false)
    requires ByTheRules(round, us, questions) && FromNetwork(net, round, start) && KnownType(us)
    ensures !Last(round).ok
    ensures NilReply(round, questions) <==> TYPE_IXFR in questions && TYPE_AXFR !in questions && OverUdp(us)
  {
    hide AddressAndType;
  }
}

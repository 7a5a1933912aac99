/** DNS messages and their JSON form, as far as sections, lifetimes and codes go. */
module Records {
  import opened Lifetimes

  const TYPE_OPT := 41

  datatype Question = Question(name: string, qtype: nat)

  /**
   * A resource record with its data in text form. The bits of the OPT pseudo-record's
   * TTL field carry the upper part of the response code.
   */
  datatype Record =
    | Plain(name: string, rtype: nat, ttl: Ttl, text: string)
    | Opt(ttl: Ttl, text: string)
  {
    function Name(): string { if Plain? then name else "." }
    function Type(): nat { if Plain? then rtype else TYPE_OPT }
  }

  datatype Msg = Msg(
    rcode: bv32, truncated: bool, recursionDesired: bool, recursionAvailable: bool,
    authenticatedData: bool, checkingDisabled: bool,
    question: seq<Question>, answer: seq<Record>, ns: seq<Record>, extra: seq<Record>)

  /** The "Expires" member: empty, not a date, or a whole second. */
  datatype Stamp = Absent | Garbled | Second(second: int)

  datatype JsonRecord = JsonRecord(name: string, rtype: nat, ttl: Ttl, expires: int, stamp: Stamp, data: string)

  datatype Response = Response(
    status: bv32, tc: bool, rd: bool, ra: bool, ad: bool, cd: bool,
    question: seq<Question>, answer: seq<JsonRecord>, authority: seq<JsonRecord>, additional: seq<JsonRecord>,
    haveTtl: bool, leastTtl: Ttl, earliestExpires: int)

  function WithoutOpt(rrs: seq<Record>): (rest: seq<Record>)
    ensures forall rr :: rr in rest ==> rr.Plain? && rr in rrs
  {
    if rrs == [] then [] else
      var n := |rrs| - 1;
      WithoutOpt(rrs[..n]) + if rrs[n].Opt? then [] else [rrs[n]]
  }

  /** The records whose lifetime bounds the message: all but OPT in the additional section. */
  function Counted(msg: Msg): seq<Record> {
    msg.answer + msg.ns + WithoutOpt(msg.extra)
  }
}

/**
 * The record table and query answering of dns.go: `DNSHandler` maps the
 * fully qualified name `<service>.<zone>.` of every monitored service to the
 * one address currently published for it, keeps that address while it stays
 * healthy (`UpdateRecord`) and answers address queries from the table
 * (`ServeDNS`).
 *
 * DNS messages are the decoded form handed over by the wire-format library:
 * header flags, result code, question section and answer section, with the
 * meaning given in section 4.1.1 of RFC 1035 (the AA bit, RCODE 0 "No error"
 * and RCODE 3 "Name Error") and sections 3.2.2 and 3.2.4 of RFC 1035 (TYPE A
 * is 1, CLASS IN is 1).
 */
module Dns {

  newtype uint16 = x: int | 0 <= x < 0x1_0000
  newtype uint32 = x: int | 0 <= x < 0x1_0000_0000

  const TypeA: uint16 := 1
  const ClassINET: uint16 := 1
  const RcodeSuccess: uint16 := 0
  const RcodeNameError: uint16 := 3

  datatype Question = Question(name: string, qtype: uint16, qclass: uint16)

  /** An address resource record; the address is kept as the stored text. */
  datatype RR = RR(name: string, rrtype: uint16, rrclass: uint16, ttl: uint32, address: string)

  /** A decoded DNS message, used both for the request and for the reply. */
  datatype Msg = Msg(
    id: uint16,
    response: bool,
    authoritative: bool,
    rcode: uint16,
    question: seq<Question>,
    answer: seq<RR>)

  /** The zero value `dns.Msg{}`. */
  const EmptyMsg := Msg(0, false, false, RcodeSuccess, [], [])

  /**
   * `msg.SetReply(r)`: makes `msg` a reply to `r` with the same id, echoing
   * the first question, with result code "No error".  Flags it does not
   * touch (authoritative) and the answer section are kept.
   */
  function SetReply(msg: Msg, r: Msg): Msg
  {
    msg.(id := r.id, response := true, rcode := RcodeSuccess,
         question := if |r.question| > 0 then [r.question[0]] else msg.question)
  }

  /** `msg.SetRcode(r, rcode)`: a reply to `r` as `SetReply` makes it, with result code `rcode`. */
  function SetRcode(msg: Msg, r: Msg, rcode: uint16): Msg
  {
    SetReply(msg, r).(rcode := rcode)
  }

  /** The table key of a service: `fmt.Sprintf("%s.%s.", service, zone)`. */
  function Fqdn(service: string, zone: string): string
  {
    service + "." + zone + "."
  }

  lemma FqdnInjective(s1: string, s2: string, zone: string)
    requires Fqdn(s1, zone) == Fqdn(s2, zone)
    ensures s1 == s2
  {
    var f := Fqdn(s1, zone);
    assert |s1| == |s2|;
    assert s1 == f[..|s1|];
    assert s2 == f[..|s2|];
  }

  /** Go's read `svcMap[rec]`: a missing key yields the zero value "". */
  function Current(svcMap: map<string, string>, rec: string): string
  {
    if rec in svcMap then svcMap[rec] else ""
  }

  /**
   * The table after `UpdateRecord` for key `rec`: unchanged when the current
   * value (or "" for a missing key) is one of `records`, otherwise `rec` now
   * maps to `records[0]`.  `records` is never empty: the caller skips empty
   * lists, and the source would fail on `records[0]`.
   */
  function Updated(svcMap: map<string, string>, rec: string, records: seq<string>): (m: map<string, string>)
    requires |records| > 0
    ensures forall k :: k != rec ==> (k in m <==> k in svcMap)
    ensures forall k :: k != rec && k in svcMap ==> m[k] == svcMap[k]
    ensures svcMap.Keys <= m.Keys
    ensures rec in m ==> m[rec] in records
    ensures Current(svcMap, rec) in records <==> m == svcMap
    ensures Current(svcMap, rec) !in records ==> m[rec] == records[0]
  {
    if Current(svcMap, rec) in records then svcMap else svcMap[rec := records[0]]
  }

  /** Applying the same report twice selects what applying it once does. */
  lemma UpdatedIdempotent(svcMap: map<string, string>, rec: string, records: seq<string>)
    requires |records| > 0
    ensures Updated(Updated(svcMap, rec, records), rec, records) == Updated(svcMap, rec, records)
  {
    var m := Updated(svcMap, rec, records);
    if rec in m {
      assert Current(m, rec) in records;
    } else {
      assert m == svcMap;
    }
  }

  /** Updates of two different names can be made in either order. */
  lemma UpdatedCommutes(svcMap: map<string, string>, rec1: string, records1: seq<string>,
                        rec2: string, records2: seq<string>)
    requires rec1 != rec2 && |records1| > 0 && |records2| > 0
    ensures Updated(Updated(svcMap, rec1, records1), rec2, records2)
         == Updated(Updated(svcMap, rec2, records2), rec1, records1)
  {
    assert Current(Updated(svcMap, rec1, records1), rec2) == Current(svcMap, rec2);
    assert Current(Updated(svcMap, rec2, records2), rec1) == Current(svcMap, rec1);
  }

  /** The reply `ServeDNS` writes for request `r` when the table is `svcMap`. */
  function Respond(svcMap: map<string, string>, r: Msg): (reply: Msg)
    requires |r.question| > 0
    ensures reply.id == r.id && reply.response && reply.question == [r.question[0]]
    ensures reply.authoritative <==> r.question[0].qtype == TypeA
    ensures reply.rcode == RcodeNameError <==>
              r.question[0].qtype == TypeA && r.question[0].name !in svcMap
    ensures reply.rcode != RcodeNameError ==> reply.rcode == RcodeSuccess
    ensures |reply.answer| <= 1
    ensures |reply.answer| == 1 <==> r.question[0].qtype == TypeA && r.question[0].name in svcMap
    ensures forall rr :: rr in reply.answer ==>
              rr.name == r.question[0].name && rr.rrtype == TypeA && rr.rrclass == ClassINET &&
              rr.ttl == 0 && rr.name in svcMap && rr.address == svcMap[rr.name]
  {
    var msg := SetReply(EmptyMsg, r);
    var q := r.question[0];
    if q.qtype != TypeA then msg
    else if q.name !in svcMap then SetRcode(msg.(authoritative := true), r, RcodeNameError)
    else msg.(authoritative := true, answer := [RR(q.name, TypeA, ClassINET, 0, svcMap[q.name])])
  }

  /** The (domain, address) pairs an answer section reports as served, one per record. */
  function ServedBy(answer: seq<RR>): (entries: seq<(string, string)>)
    ensures |entries| == |answer|
    ensures forall i :: 0 <= i < |entries| ==> entries[i] == (answer[i].name, answer[i].address)
  {
    if answer == [] then [] else [(answer[0].name, answer[0].address)] + ServedBy(answer[1..])
  }

  /** Only the first question and the id of a request decide the reply. */
  lemma RespondReadsFirstQuestionOnly(svcMap: map<string, string>, r1: Msg, r2: Msg)
    requires |r1.question| > 0 && |r2.question| > 0
    requires r1.id == r2.id && r1.question[0] == r2.question[0]
    ensures Respond(svcMap, r1) == Respond(svcMap, r2)
  {
  }

  /** A query for a name the table does not hold: authoritative Name Error, nothing served. */
  lemma RespondUnknownName(svcMap: map<string, string>, r: Msg)
    requires |r.question| > 0 && r.question[0].qtype == TypeA && r.question[0].name !in svcMap
    ensures var reply := Respond(svcMap, r);
      reply.authoritative && reply.rcode == RcodeNameError && reply.answer == [] && ServedBy(reply.answer) == []
  {
  }

  /** A query for a held name: one A record of the stored address, served once. */
  lemma RespondKnownName(svcMap: map<string, string>, r: Msg)
    requires |r.question| > 0 && r.question[0].qtype == TypeA && r.question[0].name in svcMap
    ensures var name := r.question[0].name;
      var reply := Respond(svcMap, r);
      reply.authoritative && reply.rcode == RcodeSuccess &&
      reply.answer == [RR(name, TypeA, ClassINET, 0, svcMap[name])] &&
      ServedBy(reply.answer) == [(name, svcMap[name])]
  {
  }

  /** Any other query type: an empty, non-authoritative success reply, nothing served. */
  lemma RespondOtherType(svcMap: map<string, string>, r: Msg)
    requires |r.question| > 0 && r.question[0].qtype != TypeA
    ensures var reply := Respond(svcMap, r);
      !reply.authoritative && reply.rcode == RcodeSuccess && reply.answer == [] && ServedBy(reply.answer) == []
  {
  }

  /**
   * `DNSHandler`: the zone it answers for and the table from the fully
   * qualified service name to the selected address.  `served` stands in for
   * the last-served gauge: the (domain, address) pairs answered so far.
   */
  class DNSHandler {
    const zone: string
    var svcMap: map<string, string>
    ghost var served: seq<(string, string)>

    /** `NewDNSHandler(zone)`: an empty table for `zone`. */
    constructor (zone: string)
      ensures this.zone == zone && svcMap == map[] && served == []
    {
      this.zone := zone;
      svcMap := map[];
      served := [];
    }

    /**
     * Keeps the current selection for `service` when it is still among
     * `records`, otherwise selects `records[0]`.
     */
    method UpdateRecord(service: string, records: seq<string>)
      requires |records| > 0
      modifies this`svcMap
      ensures svcMap == Updated(old(svcMap), Fqdn(service, zone), records)
    {
      var rec := Fqdn(service, zone);
      var cur := if rec in svcMap then svcMap[rec] else "";
      for i := 0 to |records|
        invariant cur !in records[..i]
      {
        if cur == records[i] {
          return;
        }
      }
      assert records[..|records|] == records;
      var newRecord := records[0];
      svcMap := svcMap[rec := newRecord];
    }

    /**
     * Answers `r` from the table; an answered address query appends its
     * (domain, address) pair to `served`.  The table is only read.
     */
    method ServeDNS(r: Msg) returns (msg: Msg)
      requires |r.question| > 0
      modifies this`served
      ensures msg == Respond(svcMap, r)
      ensures served == old(served) + ServedBy(msg.answer)
    {
      msg := SetReply(EmptyMsg, r);
      if r.question[0].qtype == TypeA {
        msg := msg.(authoritative := true);
        var domain := msg.question[0].name;
        if domain !in svcMap {
          msg := SetRcode(msg, r, RcodeNameError);
          return;
        }
        var address := svcMap[domain];
        msg := msg.(answer := msg.answer + [RR(domain, TypeA, ClassINET, 0, address)]);
        served := served + [(domain, address)];
      }
    }
  }
}

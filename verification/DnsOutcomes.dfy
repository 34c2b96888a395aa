/**
 What a client reads, outcome by outcome: from the query, the active failures and the
 configuration straight to the decoded message (BuildResponse in
 internal/dnsserver/dnsserver.go with the lookups of zones.go).
 */
module DnsOutcomes {
  import opened Seqs
  import opened Text
  import opened DnsTypes
  import opened DnsWire
  import opened DnsNames
  import opened DnsServer
  import opened DnsMeaning
  import opened DnsAnswers
  import GeneratedHosts

  // ----- messages ---------------------------------------------------------------------------------

  // An authoritative reply to the query: its ID, a code, its question if it has a readable
  // one, and two sections of records.
  function AuthoritativeReply(query: bytes, rcode: nat, answers: seq<RR>, authority: seq<RR>): Message
    requires |query| >= 12 && (ParseQuery(query).Parsed? ==> 14 <= ParseQuery(query).end <= |query|)
  {
    var q := ParseQuery(query);
    Message(Header(U16At(query, 0), true, 0, true, false, false, false, 0, rcode),
            if q.Parsed? then [Question(q.labels, q.qtype, U16At(query, q.end - 2))] else [],
            answers, authority, [])
  }

  lemma EndFits(query: bytes)
    ensures ParseQuery(query).Parsed? ==> |query| >= 12 && 14 <= ParseQuery(query).end <= |query|
  {
    if ParseQuery(query).Parsed? {
      QuestionIsWire(query);
    }
  }

  // The server answers after this delay with a message that decodes to m.
  ghost predicate Says(r: Response, delay: int, m: Message) {
    r.Reply? && r.delay == delay && Decode(r.message) == Some(m)
  }

  // It answers after this delay, and its message decodes to m exactly if fits holds.
  ghost predicate SaysIff(r: Response, delay: int, m: Message, fits: bool) {
    r.Reply? && r.delay == delay && (Decode(r.message) == Some(m) <==> fits)
  }

  lemma DecidedReply(query: bytes, f: Faults, zones: Option<Zones>, txt: Option<map<string, TxtEntry>>, d: Decision)
    requires |query| >= 12 && d == Decide(ParseQuery(query), f, zones, txt) && !d.Drop? && !d.Crash?
    ensures var q := ParseQuery(query);
            (q.Parsed? ==> 14 <= q.end <= |query|)
            && SaysIff(Respond(query, f, zones, txt), if Bypass(q, txt).Some? then 0 else f.latency,
                       Meant(query, q, d), DecisionFits(d))
  {
    hide ParseQuery, Decide, DecisionFits, Meant, Decode, Dropping, Emit, Bypass;
    EndFits(query);
    ResponseMeansDecision(query, f, zones, txt);
  }

  // ----- failures -----------------------------------------------------------------------------------

  // The records of an ACME challenge name, if this is a TXT query for one that has any.
  function Challenge(q: Query, txt: Option<map<string, TxtEntry>>): Option<TxtEntry> {
    if q.Parsed? && q.qtype == 16 && NameOf(q) != "" && HasPrefix(NameOf(q), "_acme-challenge.") && txt.Some?
    then
      var key := ToLower(TrimSuffix(TrimSpace(NameOf(q)), "."));
      if key != "" && key in txt.value then Some(txt.value[key]) else None
    else None
  }

  lemma ChallengeIsBypass(q: Query, txt: Option<map<string, TxtEntry>>)
    ensures Bypass(q, txt) == Challenge(q, txt)
  {
  }

  // A challenge is answered with its values at once, whatever fails.
  lemma ChallengeAnswered(query: bytes, f: Faults, zones: Option<Zones>, txt: Option<map<string, TxtEntry>>)
    requires Challenge(ParseQuery(query), txt).Some?
    ensures var q, e := ParseQuery(query), Challenge(ParseQuery(query), txt).value;
            |query| >= 12 && 14 <= q.end <= |query|
            && SaysIff(Respond(query, f, zones, txt), 0,
                       AuthoritativeReply(query, 0, seq(|e.values|, i requires 0 <= i < |e.values| =>
                                            RR(q.labels, 1, e.ttl, TXT(Segments(e.values[i])))), []),
                       AllFit(Map(TxtData, e.values)))
  {
    hide ParseQuery, Decode, Challenge, AllFit, Respond, SaysIff, Segments;
    var q, e := ParseQuery(query), Challenge(ParseQuery(query), txt).value;
    ChallengeIsBypass(q, txt);
    ChallengeParsed(q, txt);
    EndFits(query);
    ChallengeDecided(q, f, zones, txt);
    DecidedReply(query, f, zones, txt, TxtAnswer(e.values, e.ttl));
    TxtMeant(query, q, e);
  }

  lemma ChallengeParsed(q: Query, txt: Option<map<string, TxtEntry>>)
    requires Challenge(q, txt).Some?
    ensures q.Parsed?
  {
  }

  lemma ChallengeDecided(q: Query, f: Faults, zones: Option<Zones>, txt: Option<map<string, TxtEntry>>)
    requires Bypass(q, txt).Some?
    ensures Decide(q, f, zones, txt) == TxtAnswer(Bypass(q, txt).value.values, Bypass(q, txt).value.ttl)
  {
    hide Bypass, ZoneDecision;
  }

  lemma TxtMeant(query: bytes, q: Query, e: TxtEntry)
    requires q == ParseQuery(query) && q.Parsed? && |query| >= 12 && 14 <= q.end <= |query|
    ensures Meant(query, q, TxtAnswer(e.values, e.ttl))
         == AuthoritativeReply(query, 0, seq(|e.values|, i requires 0 <= i < |e.values| =>
                                 RR(q.labels, 1, e.ttl, TXT(Segments(e.values[i])))), [])
  {
    hide ParseQuery, Segments;
    assert Owned(q.labels, e.ttl, Map(TxtData, e.values))
        == seq(|e.values|, i requires 0 <= i < |e.values| => RR(q.labels, 1, e.ttl, TXT(Segments(e.values[i]))));
  }

  const DEAD_NAME: Labels := [[100, 101, 97, 100], [105, 110, 118, 97, 108, 105, 100]]

  // What each failure does to any other query, the first active one deciding: silence, the
  // code 2, 1 for a query without a readable name, 3, or an alias of dead.invalid.
  lemma FailureAnswered(query: bytes, f: Faults, zones: Option<Zones>, txt: Option<map<string, TxtEntry>>)
    requires |query| >= 12 && Challenge(ParseQuery(query), txt).None?
    ensures ParseQuery(query).Parsed? ==> 14 <= ParseQuery(query).end <= |query|
    ensures var q, r := ParseQuery(query), Respond(query, f, zones, txt);
            var name := NameOf(q);
            var known := zones.Some? && name in zones.value.records;
            if f.timeout then r.Dropped?
            else if f.servfail then Says(r, f.latency, AuthoritativeReply(query, 2, [], []))
            else if f.nsMode == Some("servfail") then Says(r, f.latency, AuthoritativeReply(query, 2, [], []))
            else if f.nsMode.Some? then r.Dropped?
            else if name == "" then Says(r, f.latency, AuthoritativeReply(query, 1, [], []))
            else if f.nxdomain then Says(r, f.latency, AuthoritativeReply(query, 3, [], []))
            else if f.cnameNXDomain then
              q.Parsed?
              && Says(r, f.latency, AuthoritativeReply(query, 0,
                   [RR(q.labels, 1, if known then zones.value.records[name].ttl else 30, CNAME(DEAD_NAME))], []))
            else true
  {
    hide ParseQuery, Decode, Challenge, Bypass, NameOf, ZoneDecision, Emit, Meant, AuthoritativeReply, DecisionFits;
    var q, d := ParseQuery(query), Decide(ParseQuery(query), f, zones, txt);
    EndFits(query);
    ChallengeIsBypass(q, txt);
    if !d.Drop? && !d.Crash? {
      DecidedReply(query, f, zones, txt, d);
      if d.Error? {
        ErrorMeant(query, q, d.rcode);
      } else if d.CnameAnswer? {
        NameIsParsed(q);
        if q.Parsed? {
          CnameMeant(query, q, d.ttl);
        }
      }
    }
  }

  lemma NameIsParsed(q: Query)
    ensures NameOf(q) != "" ==> q.Parsed?
  {
  }

  lemma ErrorMeant(query: bytes, q: Query, rcode: nat)
    requires |query| >= 12 && q == ParseQuery(query) && (q.Parsed? ==> 14 <= q.end <= |query|)
    ensures Meant(query, q, Error(rcode)) == AuthoritativeReply(query, rcode, [], [])
    ensures DecisionFits(Error(rcode)) <==> rcode < 16
  {
    hide ParseQuery;
    assert Owned(LabelsOf(q), 0, []) == [];
  }

  lemma CnameMeant(query: bytes, q: Query, ttl: uint32)
    requires |query| >= 12 && q == ParseQuery(query) && q.Parsed? && 14 <= q.end <= |query|
    ensures Meant(query, q, CnameAnswer(ttl))
         == AuthoritativeReply(query, 0, [RR(q.labels, 1, ttl, CNAME(DEAD_NAME))], [])
    ensures DecisionFits(CnameAnswer(ttl))
  {
    hide ParseQuery;
    assert Owned(q.labels, ttl, [CNAME(DEAD)]) == [RR(q.labels, 1, ttl, CNAME(DEAD_NAME))];
  }

  // ----- zones ---------------------------------------------------------------------------------------

  // Entry i is the first in the list whose name is the host or a parent of it.
  ghost predicate FirstServing(zones: Zones, host: string, i: nat) {
    && i < |zones.apex| && (host == zones.apex[i].0 || HasSuffix(host, "." + zones.apex[i].0))
    && forall j :: 0 <= j < i ==> host != zones.apex[j].0 && !HasSuffix(host, "." + zones.apex[j].0)
  }

  ghost predicate NoneServing(zones: Zones, host: string) {
    forall j :: 0 <= j < |zones.apex| ==> host != zones.apex[j].0 && !HasSuffix(host, "." + zones.apex[j].0)
  }

  lemma {:induction false} ServingIsApex(apexes: seq<(string, ZoneApex)>, host: string, i: nat)
    requires i <= |apexes| && (i < |apexes| ==> host == apexes[i].0 || HasSuffix(host, "." + apexes[i].0))
    requires forall j :: 0 <= j < i ==> host != apexes[j].0 && !HasSuffix(host, "." + apexes[j].0)
    ensures ApexFrom(apexes, host) == if i < |apexes| then Some(apexes[i].1) else None
  {
    if i > 0 {
      assert forall j :: 0 <= j < i - 1 ==> apexes[1..][j] == apexes[j + 1];
      ServingIsApex(apexes[1..], host, i - 1);
    }
  }

  // A query with a readable name that no failure answers and that is no challenge.
  ghost predicate Asks(q: Query, f: Faults, txt: Option<map<string, TxtEntry>>, qtype: uint16) {
    q.Parsed? && q.qtype == qtype && NameOf(q) != "" && Quiet(f) && Challenge(q, txt).None?
  }

  lemma AskedOfZones(q: Query, f: Faults, zones: Option<Zones>, txt: Option<map<string, TxtEntry>>)
    requires q.Parsed? && Asks(q, f, txt, q.qtype)
    ensures Decide(q, f, zones, txt) == ZoneDecision(NameOf(q), q.qtype, zones) && Bypass(q, txt).None?
  {
    hide ZoneDecision, Challenge, Bypass, NameOf;
    ChallengeIsBypass(q, txt);
  }

  // One record, in the answer or the authority section.
  lemma OneOwned(owner: Labels, ttl: uint32, rd: RData)
    ensures Owned(owner, ttl, [rd]) == [RR(owner, 1, ttl, rd)]
  {
  }

  lemma AskedReply(query: bytes, f: Faults, zones: Option<Zones>, txt: Option<map<string, TxtEntry>>, d: Decision)
    requires var q := ParseQuery(query);
             q.Parsed? && Asks(q, f, txt, q.qtype) && d == ZoneDecision(NameOf(q), q.qtype, zones)
    requires !d.Drop? && !d.Crash?
    ensures var q := ParseQuery(query);
            |query| >= 12 && 14 <= q.end <= |query|
            && SaysIff(Respond(query, f, zones, txt), f.latency, Meant(query, q, d), DecisionFits(d))
  {
    hide ParseQuery, Decide, DecisionFits, Meant, Decode, Bypass, ZoneDecision, NameOf, Respond, SaysIff, Asks;
    EndFits(query);
    AskedOfZones(ParseQuery(query), f, zones, txt);
    DecidedReply(query, f, zones, txt, d);
  }

  // An address query for a configured name: exactly one A record, with its address and TTL.
  lemma RecordAnswered(query: bytes, f: Faults, zones: Zones, txt: Option<map<string, TxtEntry>>)
    requires Asks(ParseQuery(query), f, txt, 1)
    requires Normalize(NameOf(ParseQuery(query))) in zones.records
    ensures var q := ParseQuery(query);
            var e := zones.records[Normalize(NameOf(q))];
            |query| >= 12 && 14 <= q.end <= |query|
            && Says(Respond(query, f, Some(zones), txt), f.latency,
                    AuthoritativeReply(query, 0, [RR(q.labels, 1, e.ttl, A(e.ip))], []))
  {
    hide ParseQuery, Decode, NameOf, Challenge, Respond, Normalize, LookupApex, ApexTTL, GeneratedFrom;
    var q := ParseQuery(query);
    var e := zones.records[Normalize(NameOf(q))];
    AskedReply(query, f, Some(zones), txt, AAnswer(e.ip, e.ttl));
    OneOwned(q.labels, e.ttl, A(e.ip));
  }

  // The TTL of answers at an apex: that of a record of the same name, if it is positive.
  function OwnTTL(zones: Zones, name: string, apex: ZoneApex): uint32 {
    if name in zones.records && zones.records[name].ttl > 0 then zones.records[name].ttl else apex.soa.minimum
  }

  lemma ApexFound(zones: Zones, host: string, i: nat)
    requires FirstServing(zones, Normalize(host), i)
    ensures LookupApex(Some(zones), host) == Some(zones.apex[i].1)
  {
    hide Normalize, HasSuffix;
    ServingIsApex(zones.apex, Normalize(host), i);
  }

  // A name server query at an apex: one NS record per host.
  lemma NameServersAnswered(query: bytes, f: Faults, zones: Zones, txt: Option<map<string, TxtEntry>>, i: nat)
    requires Asks(ParseQuery(query), f, txt, 2)
    requires i < |zones.apex| && FirstServing(zones, Normalize(NameOf(ParseQuery(query))), i)
    requires zones.apex[i].1.name == NameOf(ParseQuery(query))
    ensures var q := ParseQuery(query);
            var apex := zones.apex[i].1;
            var ttl, hosts := OwnTTL(zones, NameOf(q), apex), apex.nsHostnames;
            |query| >= 12 && 14 <= q.end <= |query|
            && SaysIff(Respond(query, f, Some(zones), txt), f.latency,
                       AuthoritativeReply(query, 0, seq(|hosts|, k requires 0 <= k < |hosts| =>
                                            RR(q.labels, 1, ttl, NS(NameLabels(hosts[k])))), []),
                       AllFit(Map(NsData, hosts)))
  {
    hide ParseQuery, Decode, NameOf, Challenge, Respond, Normalize, LookupApex;
    hide FirstServing, AllFit, NameLabels, SaysIff;
    var q, apex := ParseQuery(query), zones.apex[i].1;
    var ttl, hosts := OwnTTL(zones, NameOf(q), apex), apex.nsHostnames;
    ApexFound(zones, NameOf(q), i);
    AskedReply(query, f, Some(zones), txt, NsAnswer(hosts, ttl));
    assert Owned(q.labels, ttl, Map(NsData, hosts))
        == seq(|hosts|, k requires 0 <= k < |hosts| => RR(q.labels, 1, ttl, NS(NameLabels(hosts[k]))));
  }

  // The SOA record of a zone as it is configured.
  function Soa(s: SOARecord): RData {
    SOA(NameLabels(s.mname), NameLabels(s.rname), s.serial, s.refresh, s.retry, s.expire, s.minimum)
  }

  lemma SoaAnswered(query: bytes, f: Faults, zones: Zones, txt: Option<map<string, TxtEntry>>, i: nat)
    requires Asks(ParseQuery(query), f, txt, 6)
    requires i < |zones.apex| && FirstServing(zones, Normalize(NameOf(ParseQuery(query))), i)
    requires zones.apex[i].1.name == NameOf(ParseQuery(query))
    ensures var q, apex := ParseQuery(query), zones.apex[i].1;
            var answer := RR(q.labels, 1, OwnTTL(zones, NameOf(q), apex), Soa(apex.soa));
            |query| >= 12 && 14 <= q.end <= |query|
            && SaysIff(Respond(query, f, Some(zones), txt), f.latency, AuthoritativeReply(query, 0, [answer], []),
                       RDataFits(Soa(apex.soa)))
  {
    hide ParseQuery, Decode, NameOf, Challenge, Respond, Normalize, LookupApex;
    hide FirstServing, RDataFits, NameLabels, SaysIff;
    var q, apex := ParseQuery(query), zones.apex[i].1;
    var ttl := OwnTTL(zones, NameOf(q), apex);
    ApexFound(zones, NameOf(q), i);
    AskedReply(query, f, Some(zones), txt, SoaAnswer(apex.soa, ttl));
    OneOwned(q.labels, ttl, Soa(apex.soa));
  }

  // Nothing is configured for the name and type: the query is not for the name servers or
  // the SOA of the apex, and not for the address of a record or a generated host.
  ghost predicate Unknown(q: Query, zones: Zones) {
    var host := Normalize(NameOf(q));
    && q.Parsed?
    && (q.qtype == 1 ==>
          host !in zones.records
          && forall k :: 0 <= k < |zones.generated| ==> GeneratedHosts.Lookup(zones.generated[k], host).Miss?)
    && (q.qtype == 2 || q.qtype == 6 ==>
          forall i: nat :: FirstServing(zones, host, i) ==> zones.apex[i].1.name != NameOf(q))
  }

  lemma {:induction false} AllRangesMiss(ranges: seq<GeneratedHosts.Range>, host: string)
    requires forall k :: 0 <= k < |ranges| ==> GeneratedHosts.Lookup(ranges[k], host).Miss?
    ensures GeneratedFrom(ranges, host).Miss?
  {
    if ranges != [] {
      AllRangesMiss(ranges[1..], host);
    }
  }

  lemma UnknownDecided(q: Query, zones: Zones, apex: Option<ZoneApex>)
    requires Unknown(q, zones) && apex == LookupApex(Some(zones), NameOf(q))
    requires q.qtype == 2 || q.qtype == 6 ==> apex.Some? ==> apex.value.name != NameOf(q)
    ensures ZoneDecision(NameOf(q), q.qtype, Some(zones)) == if apex.Some? then Negative(apex.value) else Error(3)
  {
    hide LookupApex, NameOf, Normalize, GeneratedHosts.Lookup, FirstServing;
    if q.qtype == 1 {
      AllRangesMiss(zones.generated, Normalize(NameOf(q)));
    }
  }

  // In a zone: the code 3 with the SOA of the zone in the authority section.
  lemma MissInZone(query: bytes, f: Faults, zones: Zones, txt: Option<map<string, TxtEntry>>, i: nat)
    requires var q := ParseQuery(query); Unknown(q, zones) && Asks(q, f, txt, q.qtype)
    requires i < |zones.apex| && FirstServing(zones, Normalize(NameOf(ParseQuery(query))), i)
    ensures var q, apex := ParseQuery(query), zones.apex[i].1;
            var soa := RR(NameLabels(apex.name), 1, apex.soa.minimum, Soa(apex.soa));
            |query| >= 12 && 14 <= q.end <= |query|
            && SaysIff(Respond(query, f, Some(zones), txt), f.latency, AuthoritativeReply(query, 3, [], [soa]),
                       NameOk(apex.name) && RDataFits(Soa(apex.soa)))
  {
    hide ParseQuery, Decode, NameOf, Challenge, Respond, Normalize, LookupApex;
    hide FirstServing, RDataFits, NameLabels, SaysIff;
    var q, apex := ParseQuery(query), zones.apex[i].1;
    ApexFound(zones, NameOf(q), i);
    UnknownDecided(q, zones, Some(apex));
    AskedReply(query, f, Some(zones), txt, Negative(apex));
    assert Owned(q.labels, 0, []) == [];
  }

  // Outside all zones, or without any: the bare code 3.
  lemma MissOutside(query: bytes, f: Faults, zones: Option<Zones>, txt: Option<map<string, TxtEntry>>)
    requires var q := ParseQuery(query);
             q.Parsed? && Asks(q, f, txt, q.qtype)
             && (zones.Some? ==> Unknown(q, zones.value) && NoneServing(zones.value, Normalize(NameOf(q))))
    ensures |query| >= 12 && 14 <= ParseQuery(query).end <= |query|
    ensures Says(Respond(query, f, zones, txt), f.latency, AuthoritativeReply(query, 3, [], []))
  {
    hide ParseQuery, Decode, NameOf, Challenge, Respond, Normalize, HasSuffix;
    var q := ParseQuery(query);
    if zones.Some? {
      ServingIsApex(zones.value.apex, Normalize(NameOf(q)), |zones.value.apex|);
      UnknownDecided(q, zones.value, None);
    }
    AskedReply(query, f, zones, txt, Error(3));
    ErrorMeant(query, q, 3);
  }
}

/**
 What the server answers to a query: which queries it drops, that it does not crash on
 well-formed configurations, and what its messages mean.
 */
module DnsAnswers {
  import opened Seqs
  import opened Text
  import opened DnsTypes
  import opened DnsWire
  import opened DnsNames
  import opened DnsServer
  import opened DnsMeaning
  import opened DnsExact
  import GeneratedHosts

  // ----- well-formed configurations ---------------------------------------------------------------------

  predicate ApexFits(a: ZoneApex) {
    NameOk(a.name) && RDataFits(SoaRData(a.soa)) && AllFit(Map(NsData, a.nsHostnames))
  }

  // Zone names fit on the wire, and no generated range can panic.
  ghost predicate ZonesFit(zones: Option<Zones>) {
    zones.Some? ==>
      && (forall i :: 0 <= i < |zones.value.apex| ==> ApexFits(zones.value.apex[i].1))
      && (forall i :: 0 <= i < |zones.value.generated| ==>
            GeneratedHosts.LowerPattern(zones.value.generated[i].pattern)
            && !GeneratedHosts.Overlaps(zones.value.generated[i].pattern))
  }

  predicate TxtFits(txt: Option<map<string, TxtEntry>>) {
    txt.Some? ==> forall n :: n in txt.value ==> AllFit(Map(TxtData, txt.value[n].values))
  }

  lemma {:induction false} ApexFromFits(apexes: seq<(string, ZoneApex)>, host: string)
    requires forall i :: 0 <= i < |apexes| ==> ApexFits(apexes[i].1)
    ensures ApexFrom(apexes, host).Some? ==> ApexFits(ApexFrom(apexes, host).value)
  {
    if apexes != [] {
      ApexFromFits(apexes[1..], host);
    }
  }

  lemma {:induction false} GeneratedNeverPanics(ranges: seq<GeneratedHosts.Range>, host: string)
    requires forall i :: 0 <= i < |ranges| ==>
      GeneratedHosts.LowerPattern(ranges[i].pattern) && !GeneratedHosts.Overlaps(ranges[i].pattern)
    ensures !GeneratedFrom(ranges, host).Panics?
  {
    if ranges != [] {
      GeneratedHosts.PanicsIffOverlap(ranges[0]);
      GeneratedNeverPanics(ranges[1..], host);
    }
  }

  lemma ZoneDecisionFits(name: string, qtype: uint16, zones: Option<Zones>)
    requires ZonesFit(zones)
    ensures var d := ZoneDecision(name, qtype, zones); DecisionFits(d) && !d.Crash?
  {
    hide RDataFits, NameOk, GeneratedHosts.Overlaps, GeneratedHosts.LowerPattern;
    hide Normalize, ApexFrom, GeneratedFrom, ApexTTL;
    if zones.Some? {
      ApexFromFits(zones.value.apex, Normalize(name));
      GeneratedNeverPanics(zones.value.generated, Normalize(name));
    }
  }

  // Decisions for well-formed configurations fit on the wire and do not crash.
  lemma DecideFits(q: Query, f: Faults, zones: Option<Zones>, txt: Option<map<string, TxtEntry>>)
    requires ZonesFit(zones) && TxtFits(txt)
    ensures var d := Decide(q, f, zones, txt); DecisionFits(d) && !d.Crash?
  {
    hide RDataFits, AllFit, NameOk, QueryName, ZonesFit, ZoneDecision, HasPrefix;
    ZoneDecisionFits(NameOf(q), TypeOfQuery(q), zones);
  }

  // Queries that get no answer: those under a timeout or an unavailable name server that
  // is not to say SERVFAIL, except ACME challenges.
  predicate Dropping(q: Query, f: Faults, txt: Option<map<string, TxtEntry>>) {
    Bypass(q, txt).None? && (f.timeout || (!f.servfail && f.nsMode.Some? && f.nsMode.value != "servfail"))
  }

  lemma ZoneNeverDrops(name: string, qtype: uint16, zones: Option<Zones>)
    ensures !ZoneDecision(name, qtype, zones).Drop?
  {
  }

  // Records are decided on only where there is a question.
  lemma DecideShape(q: Query, f: Faults, zones: Option<Zones>, txt: Option<map<string, TxtEntry>>)
    ensures var d := Decide(q, f, zones, txt);
            (d.Drop? <==> Dropping(q, f, txt)) && (q.Parsed? || d.Error? || d.Drop?)
  {
    hide ZoneDecision, QueryName, HasPrefix;
    ZoneNeverDrops(NameOf(q), TypeOfQuery(q), zones);
  }

  // For any query, faults, zones and TXT values: which queries are dropped, when the server
  // crashes, and that its message decodes to what was decided if and only if that fits on
  // the wire. In a well-formed configuration nothing crashes and everything fits.
  lemma ResponseMeansDecision(query: bytes, f: Faults, zones: Option<Zones>, txt: Option<map<string, TxtEntry>>)
    ensures var q := ParseQuery(query); var d := Decide(q, f, zones, txt);
            match Respond(query, f, zones, txt)
            case Dropped => |query| < 12 || Dropping(q, f, txt)
            case Crashed => |query| >= 12 && !Dropping(q, f, txt) && d.Crash?
            case Reply(m, _) =>
              && |query| >= 12 && !Dropping(q, f, txt) && !d.Crash? && (q.Parsed? ==> 14 <= q.end <= |query|)
              && (Decode(m) == Some(Meant(query, q, d)) <==> DecisionFits(d))
    ensures ZonesFit(zones) && TxtFits(txt) ==>
              !Respond(query, f, zones, txt).Crashed? && DecisionFits(Decide(ParseQuery(query), f, zones, txt))
  {
    hide ParseQuery, Emit, Meant, Decode, ZonesFit, TxtFits, DecisionFits, Decide, Dropping;
    var q := ParseQuery(query);
    var d := Decide(q, f, zones, txt);
    DecideShape(q, f, zones, txt);
    if ZonesFit(zones) && TxtFits(txt) {
      DecideFits(q, f, zones, txt);
    }
    if |query| >= 12 && !d.Drop? && !d.Crash? {
      EmitDecodesIff(query, d);
    }
  }

  // ACME challenges are answered as if no failure were active.
  lemma AcmeIgnoresFaults(query: bytes, f: Faults, g: Faults, zones: Option<Zones>, txt: Option<map<string, TxtEntry>>)
    requires Bypass(ParseQuery(query), txt).Some?
    ensures Respond(query, f, zones, txt) == Respond(query, g, zones, txt)
  {
    hide ParseQuery, Emit, Bypass;
  }

  lemma {:induction false} GeneratedFromFinds(ranges: seq<GeneratedHosts.Range>, host: string, i: nat)
    requires i < |ranges| && !GeneratedHosts.Lookup(ranges[i], host).Miss?
    requires forall j :: 0 <= j < i ==> GeneratedHosts.Lookup(ranges[j], host).Miss?
    ensures GeneratedFrom(ranges, host) == GeneratedHosts.Lookup(ranges[i], host)
  {
    hide GeneratedHosts.Lookup;
    if i > 0 {
      assert ranges[1..][i - 1] == ranges[i];
      assert forall j :: 0 <= j < i - 1 ==> ranges[1..][j] == ranges[j + 1];
      GeneratedFromFinds(ranges[1..], host, i - 1);
    }
  }

  const NO_FAULTS := Faults(false, 0, false, None, false, false)

  // No failure that would answer a query before the zones are asked.
  predicate Quiet(f: Faults) {
    !f.timeout && !f.servfail && f.nsMode.None? && !f.nxdomain && !f.cnameNXDomain
  }

  // From a pattern to the wire and back: an address query for the host that range i
  // formats for one of its numbers is answered with the address of the range, if no
  // record and no earlier range claims the host.
  lemma GeneratedHostAnswered(query: bytes, zones: Zones, txt: Option<map<string, TxtEntry>>, i: nat, n: nat)
    requires ParseQuery(query).Parsed? && ParseQuery(query).qtype == TYPE_A
    requires i < |zones.generated| && zones.generated[i].start <= n <= zones.generated[i].end <= GeneratedHosts.MAX_INT
    requires var p, name := zones.generated[i].pattern, NameOf(ParseQuery(query));
             name == GeneratedHosts.FormatHost(p, n) && GeneratedHosts.LowerPattern(p) && !HasSuffix(p.suffix, ".")
             && name !in zones.records
             && forall j :: 0 <= j < i ==> GeneratedHosts.Lookup(zones.generated[j], name).Miss?
    ensures var q, e := ParseQuery(query), zones.generated[i].entry;
            var r := Respond(query, NO_FAULTS, Some(zones), txt);
            |query| >= 12 && 14 <= q.end <= |query| && r.Reply? && r.delay == 0
            && Decode(r.message)
               == Some(Message(Header(U16At(query, 0), true, 0, true, false, false, false, 0, 0),
                               [Question(q.labels, TYPE_A, U16At(query, q.end - 2))],
                               [RR(q.labels, 1, e.ttl, A(e.ip))], [], []))
  {
    hide ParseQuery, NameOf, Emit, Decode, Decide, ZonesFit, TxtFits, Meant, Bypass, HasSuffix;
    hide GeneratedHosts.Lookup, GeneratedHosts.FormatHost, GeneratedHosts.LowerPattern;
    var q, range := ParseQuery(query), zones.generated[i];
    ParsedIsLong(query);
    NoFaultsNoDrop(q, txt);
    AddressDecided(q, zones, txt, i, n);
    ResponseMeansDecision(query, NO_FAULTS, Some(zones), txt);
    AddressMeant(query, q, range.entry.ip, range.entry.ttl);
  }

  // An NS or SOA query at the apex of a zone of its own.
  predicate ApexQuery(q: Query, zones: Zones) {
    var apex := LookupApex(Some(zones), NameOf(q));
    (TypeOfQuery(q) == TYPE_NS || TypeOfQuery(q) == TYPE_SOA) && apex.Some? && apex.value.name == NameOf(q)
  }

  lemma KnownNameDecided(q: Query, zones: Zones, txt: Option<map<string, TxtEntry>>)
    requires q.Parsed? && NameOf(q) != "" && Bypass(q, txt).None? && Normalize(NameOf(q)) in zones.records
    ensures var d := Decide(q, NO_FAULTS, Some(zones), txt); RCodeOf(d) < 16 && !d.Crash?
    ensures RCodeOf(Decide(q, NO_FAULTS, Some(zones), txt)) == NXDOMAIN <==> q.qtype != TYPE_A && !ApexQuery(q, zones)
  {
    hide LookupApex, QueryName, ApexTTL, HasPrefix, GeneratedFrom;
  }

  // Without failures, a query for a name that has a record is answered with NXDOMAIN if and
  // only if it asks neither for the address nor, at the apex, for NS or SOA: the miss path
  // never answers NOERROR. This holds whatever else is configured; the code is in the header
  // even when the records behind it do not fit.
  lemma KnownNameMissed(query: bytes, zones: Zones, txt: Option<map<string, TxtEntry>>)
    requires ParseQuery(query).Parsed? && NameOf(ParseQuery(query)) != ""
    requires Bypass(ParseQuery(query), txt).None? && Normalize(NameOf(ParseQuery(query))) in zones.records
    ensures var q, r := ParseQuery(query), Respond(query, NO_FAULTS, Some(zones), txt);
            r.Reply? && |r.message| >= 12
            && (DecodeHeader(r.message).rcode == NXDOMAIN <==> q.qtype != TYPE_A && !ApexQuery(q, zones))
  {
    hide ParseQuery, NameOf, Emit, Decide, Bypass, ApexQuery, Normalize;
    var q := ParseQuery(query);
    var d := Decide(q, NO_FAULTS, Some(zones), txt);
    ParsedIsLong(query);
    KnownNameDecided(q, zones, txt);
    DecideShape(q, NO_FAULTS, Some(zones), txt);
    NoFaultsNoDrop(q, txt);
    QueryEndFits(query);
    CodeIsSent(query, d);
  }

  // Whatever is decided, the header says its code.
  lemma CodeIsSent(query: bytes, d: Decision)
    requires ParseQuery(query).Parsed? && |query| >= 12 && 12 <= ParseQuery(query).end <= |query|
    ensures var m := Emit(query, ParseQuery(query), d); |m| >= 12 && DecodeHeader(m).rcode == RCodeOf(d) % 16
  {
    var q := ParseQuery(query);
    var header := HeaderOf(query, q, d);
    assert Emit(query, q, d)[..|header|] == header;
    QuestionsAnnounced(Emit(query, q, d), query, q, d);
  }

  lemma NoFaultsNoDrop(q: Query, txt: Option<map<string, TxtEntry>>)
    ensures !Dropping(q, NO_FAULTS, txt)
  {
  }

  lemma ParsedIsLong(query: bytes)
    requires ParseQuery(query).Parsed?
    ensures |query| >= 12
  {
  }

  lemma AddressMeant(query: bytes, q: Query, ip: IPv4, ttl: uint32)
    requires |query| >= 12 && q.Parsed? && 14 <= q.end <= |query|
    ensures Meant(query, q, AAnswer(ip, ttl))
         == Message(Header(U16At(query, 0), true, 0, true, false, false, false, 0, 0),
                    [Question(q.labels, q.qtype, U16At(query, q.end - 2))], [RR(q.labels, 1, ttl, A(ip))], [], [])
  {
    assert Owned(q.labels, ttl, [A(ip)]) == [RR(q.labels, 1, ttl, A(ip))];
  }

  lemma AddressDecided(q: Query, zones: Zones, txt: Option<map<string, TxtEntry>>, i: nat, n: nat)
    requires q.Parsed? && q.qtype == TYPE_A && i < |zones.generated|
    requires zones.generated[i].start <= n <= zones.generated[i].end <= GeneratedHosts.MAX_INT
    requires var p, name := zones.generated[i].pattern, NameOf(q);
             name == GeneratedHosts.FormatHost(p, n) && GeneratedHosts.LowerPattern(p) && !HasSuffix(p.suffix, ".")
             && name !in zones.records
             && forall j :: 0 <= j < i ==> GeneratedHosts.Lookup(zones.generated[j], name).Miss?
    ensures Bypass(q, txt).None?
    ensures Decide(q, NO_FAULTS, Some(zones), txt) == AAnswer(zones.generated[i].entry.ip, zones.generated[i].entry.ttl)
  {
    hide GeneratedHosts.Lookup, LookupApex, HasPrefix, QueryName, ApexTTL;
    var name := NameOf(q);
    GeneratedHosts.RangeFindsBare(zones.generated[i], n);
    assert Normalize(name) == name;
    GeneratedFromFinds(zones.generated, name, i);
  }
}

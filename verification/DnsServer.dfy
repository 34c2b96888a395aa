/**
 The authoritative server's answers (BuildResponse and the response builders in
 internal/dnsserver/dnsserver.go and zones.go). What the failure registry and the TXT store
 hold at the time of a query is a parameter.
 */
module DnsServer {
  import opened Seqs
  import opened Text
  import opened DnsTypes
  import opened DnsWire
  import opened DnsNames
  import GeneratedHosts

  datatype SOARecord = SOARecord(mname: string, rname: string, serial: uint32, refresh: uint32, retry: uint32,
                                 expire: uint32, minimum: uint32)

  datatype ZoneApex = ZoneApex(name: string, nsHostnames: seq<string>, soa: SOARecord)

  // Apexes are listed in the order in which the map of the original happens to be visited.
  datatype Zones = Zones(records: map<string, ZoneEntry>, generated: seq<GeneratedHosts.Range>,
                         apex: seq<(string, ZoneApex)>)

  datatype TxtEntry = TxtEntry(values: seq<bytes>, ttl: uint32)

  // The active DNS failures; nsMode is the mode of dns_ns_unavailable.
  datatype Faults = Faults(timeout: bool, latency: int, servfail: bool, nsMode: Option<string>,
                           nxdomain: bool, cnameNXDomain: bool)

  // ----- lookups ----------------------------------------------------------------------------------

  // host is the apex or below it.
  predicate Serves(apex: string, host: string) {
    host == apex || HasSuffix(host, "." + apex)
  }

  function ApexFrom(apexes: seq<(string, ZoneApex)>, host: string): Option<ZoneApex> {
    if apexes == [] then None
    else if Serves(apexes[0].0, host) then Some(apexes[0].1)
    else ApexFrom(apexes[1..], host)
  }

  // Two apexes that serve one host are nested.
  lemma TwoServing(a: string, b: string, host: string)
    requires Serves(a, host) && Serves(b, host) && |a| <= |b|
    ensures Serves(a, b)
  {
    if host != a && host != b {
      var x, y := |host| - |a| - 1, |host| - |b| - 1;
      assert host[x..] == "." + a && host[y..] == "." + b;
      assert host[y + 1..] == (host[y..])[1..] == b;
      if |a| == |b| {
        assert a == host[x + 1..];
      } else {
        assert b[|b| - |a| - 1..] == host[x..];
      }
    }
  }

  // The first apex in the list that serves the host.
  lemma {:induction false} ApexFromMeans(apexes: seq<(string, ZoneApex)>, host: string)
    ensures match ApexFrom(apexes, host)
            case None => forall i :: 0 <= i < |apexes| ==> !Serves(apexes[i].0, host)
            case Some(a) => exists i :: 0 <= i < |apexes| && Serves(apexes[i].0, host) && apexes[i].1 == a
  {
    if apexes != [] {
      ApexFromMeans(apexes[1..], host);
      if !Serves(apexes[0].0, host) && ApexFrom(apexes, host).Some? {
        var i :|
          0 <= i < |apexes| - 1 && Serves(apexes[1..][i].0, host) && apexes[1..][i].1 == ApexFrom(apexes, host).value;
        assert apexes[i + 1] == apexes[1..][i];
      }
    }
  }

  // No zone is another's or lies below another, as for the keys of a map of unnested zones.
  ghost predicate Unnested(apexes: seq<(string, ZoneApex)>) {
    forall i, j :: 0 <= i < |apexes| && 0 <= j < |apexes| && i != j ==> !Serves(apexes[i].0, apexes[j].0)
  }

  // For unnested zones the order in which the map is visited does not matter.
  lemma ApexOrderFree(a: seq<(string, ZoneApex)>, b: seq<(string, ZoneApex)>, host: string)
    requires multiset(a) == multiset(b) && Unnested(a)
    ensures ApexFrom(a, host) == ApexFrom(b, host)
  {
    ApexFromMeans(a, host);
    ApexFromMeans(b, host);
    forall i | 0 <= i < |b|
      ensures b[i] in a
    {
      assert b[i] in multiset(b);
    }
    forall i | 0 <= i < |a|
      ensures a[i] in b
    {
      assert a[i] in multiset(a);
    }
    forall x, y | x in a && y in a && Serves(x.0, host) && Serves(y.0, host)
      ensures x == y
    {
      var i, j :| 0 <= i < |a| && 0 <= j < |a| && a[i] == x && a[j] == y;
      if |x.0| <= |y.0| {
        TwoServing(x.0, y.0, host);
      } else {
        TwoServing(y.0, x.0, host);
      }
    }
  }

  function LookupApex(z: Option<Zones>, host: string): Option<ZoneApex> {
    if z.None? then None else ApexFrom(z.value.apex, Normalize(host))
  }

  // The first generated range that does not miss.
  function GeneratedFrom(ranges: seq<GeneratedHosts.Range>, host: string): GeneratedHosts.LookupResult {
    if ranges == [] then GeneratedHosts.Miss
    else
      var r := GeneratedHosts.Lookup(ranges[0], host);
      if r.Miss? then GeneratedFrom(ranges[1..], host) else r
  }

  function LookupA(z: Option<Zones>, rawHost: string): GeneratedHosts.LookupResult {
    if z.None? then GeneratedHosts.Miss
    else
      var host := Normalize(rawHost);
      if host in z.value.records then GeneratedHosts.Found(z.value.records[host])
      else GeneratedFrom(z.value.generated, host)
  }

  function LookupTXT(txt: Option<map<string, TxtEntry>>, rawName: string): Option<TxtEntry> {
    if txt.None? then None
    else
      var name := ToLower(TrimSuffix(TrimSpace(rawName), "."));
      if name == "" || name !in txt.value then None else Some(txt.value[name])
  }

  // ----- the decision --------------------------------------------------------------------------------

  const ACME_PREFIX := "_acme-challenge."
  const SERVFAIL := 2
  const FORMERR := 1
  const NXDOMAIN := 3

  datatype Decision =
    | Drop
    | Crash
    | Error(rcode: nat)
    | TxtAnswer(values: seq<bytes>, ttl: uint32)
    | CnameAnswer(ttl: uint32)
    | NsAnswer(hosts: seq<string>, ttl: uint32)
    | SoaAnswer(soa: SOARecord, ttl: uint32)
    | AAnswer(ip: IPv4, ttl: uint32)
    | Negative(apex: ZoneApex)

  function NameOf(q: Query): string {
    match q
    case Malformed => ""
    case Parsed(ls, _, _) => QueryName(ls)
  }

  function TypeOfQuery(q: Query): uint16 {
    match q
    case Malformed => 0
    case Parsed(_, t, _) => t
  }

  // A TXT query for an ACME challenge name that has values bypasses every failure.
  function Bypass(q: Query, txt: Option<map<string, TxtEntry>>): Option<TxtEntry> {
    if TypeOfQuery(q) == TYPE_TXT && NameOf(q) != "" && HasPrefix(NameOf(q), ACME_PREFIX)
    then LookupTXT(txt, NameOf(q)) else None
  }

  // TTL of an answer at the zone apex.
  function ApexTTL(z: Zones, name: string, apex: ZoneApex): uint32 {
    if name in z.records && z.records[name].ttl > 0 then z.records[name].ttl else apex.soa.minimum
  }

  function ZoneDecision(name: string, qtype: uint16, zones: Option<Zones>): Decision {
    var apex := LookupApex(zones, name);
    if (qtype == TYPE_NS || qtype == TYPE_SOA) && apex.Some? && apex.value.name == name then
      var ttl := ApexTTL(zones.value, name, apex.value);
      if qtype == TYPE_NS then NsAnswer(apex.value.nsHostnames, ttl) else SoaAnswer(apex.value.soa, ttl)
    else
      var a := if qtype == TYPE_A then LookupA(zones, name) else GeneratedHosts.Miss;
      if a.Panics? then Crash
      else if a.Found? then AAnswer(a.entry.ip, a.entry.ttl)
      else if apex.Some? then Negative(apex.value)
      else Error(NXDOMAIN)
  }

  function Decide(q: Query, f: Faults, zones: Option<Zones>, txt: Option<map<string, TxtEntry>>): Decision {
    var name := NameOf(q);
    var acme := Bypass(q, txt);
    if acme.Some? then TxtAnswer(acme.value.values, acme.value.ttl)
    else if f.timeout then Drop
    else if f.servfail then Error(SERVFAIL)
    else if f.nsMode.Some? then if f.nsMode.value == "servfail" then Error(SERVFAIL) else Drop
    else if name == "" then Error(FORMERR)
    else if f.nxdomain then Error(NXDOMAIN)
    else if f.cnameNXDomain then
      CnameAnswer(if zones.Some? && name in zones.value.records then zones.value.records[name].ttl else 30)
    else ZoneDecision(name, TypeOfQuery(q), zones)
  }

  // ----- the bytes -------------------------------------------------------------------------------------

  // ID, QR and AA set, the response code, one question, and the section counts.
  function HeaderBytes(query: bytes, rcode: nat, questions: uint16, answers: uint16, authority: uint16): bytes
    requires |query| >= 12
  {
    query[..2] + [0x84, rcode % 16] + U16(questions) + U16(answers) + U16(authority) + [0, 0]
  }

  function Cut16(n: nat): uint16 {
    n % 0x1_0000
  }

  // A record whose owner is a pointer to the question, or the given bytes.
  function RecordBytes(owner: bytes, rtype: uint16, ttl: uint32, rdata: bytes): bytes {
    owner + U16(rtype) + U16(1) + U32(ttl) + U16(Cut16(|rdata|)) + rdata
  }

  const QNAME_REF: bytes := [0xC0, 0x0C]

  function SoaBytes(s: SOARecord): bytes {
    EncodedName(s.mname) + EncodedName(s.rname)
    + U32(s.serial) + U32(s.refresh) + U32(s.retry) + U32(s.expire) + U32(s.minimum)
  }

  function TxtRecords(values: seq<bytes>, ttl: uint32): bytes {
    if values == [] then []
    else RecordBytes(QNAME_REF, TYPE_TXT, ttl, StringsWire(Segments(values[0]))) + TxtRecords(values[1..], ttl)
  }

  function NsRecords(hosts: seq<string>, ttl: uint32): bytes {
    if hosts == [] then []
    else RecordBytes(QNAME_REF, TYPE_NS, ttl, EncodedName(hosts[0])) + NsRecords(hosts[1..], ttl)
  }

  // The name dead.invalid.
  const DEAD_INVALID: bytes := [4, 100, 101, 97, 100, 7, 105, 110, 118, 97, 108, 105, 100, 0]

  function QuestionBytes(query: bytes, q: Query): bytes
    requires q.Parsed? ==> 12 <= q.end <= |query|
  {
    if q.Parsed? then query[12..q.end] else []
  }

  function RCodeOf(d: Decision): nat {
    match d
    case Error(rcode) => rcode
    case Negative(_) => NXDOMAIN
    case _ => 0
  }

  function AnswerCount(d: Decision): nat {
    match d
    case TxtAnswer(values, _) => |values|
    case NsAnswer(hosts, _) => |hosts|
    case CnameAnswer(_) => 1
    case SoaAnswer(_, _) => 1
    case AAnswer(_, _) => 1
    case _ => 0
  }

  // The records of a decision as the server writes them.
  function RecordsOf(d: Decision): bytes {
    match d
    case TxtAnswer(values, ttl) => TxtRecords(values, ttl)
    case CnameAnswer(ttl) => RecordBytes(QNAME_REF, TYPE_CNAME, ttl, DEAD_INVALID)
    case NsAnswer(hosts, ttl) => NsRecords(hosts, ttl)
    case SoaAnswer(soa, ttl) => RecordBytes(QNAME_REF, TYPE_SOA, ttl, SoaBytes(soa))
    case AAnswer(ip, ttl) => RecordBytes(QNAME_REF, TYPE_A, ttl, ip)
    case Negative(apex) => RecordBytes(EncodedName(apex.name), TYPE_SOA, apex.soa.minimum, SoaBytes(apex.soa))
    case _ => []
  }

  // All but errors announce a question, and are sent only when there is one.
  function HeaderOf(query: bytes, q: Query, d: Decision): bytes
    requires |query| >= 12
  {
    HeaderBytes(query, RCodeOf(d), if q.Parsed? || !d.Error? then 1 else 0, Cut16(AnswerCount(d)),
                if d.Negative? then 1 else 0)
  }

  // The response to a query, for a decision other than Drop and Crash.
  function Emit(query: bytes, q: Query, d: Decision): bytes
    requires |query| >= 12 && (q.Parsed? ==> 12 <= q.end <= |query|)
  {
    HeaderOf(query, q, d) + (QuestionBytes(query, q) + RecordsOf(d))
  }

  datatype Response = Dropped | Crashed | Reply(message: bytes, delay: int)

  // The delay of an answer; an ACME answer and a dropped query have none.
  function DelayOf(q: Query, f: Faults, txt: Option<map<string, TxtEntry>>): int {
    if Bypass(q, txt).Some? then 0 else f.latency
  }

  function Respond(query: bytes, f: Faults, zones: Option<Zones>, txt: Option<map<string, TxtEntry>>): Response {
    if |query| < 12 then Dropped
    else
      var q := ParseQuery(query);
      var d := Decide(q, f, zones, txt);
      if d.Drop? then Dropped
      else if d.Crash? then Crashed
      else
        QueryEndFits(query);
        Reply(Emit(query, q, d), DelayOf(q, f, txt))
  }

  lemma QueryEndFits(query: bytes)
    ensures var q := ParseQuery(query); q.Parsed? ==> 12 <= q.end <= |query|
  {
    if ParseQuery(query).Parsed? {
      QuestionIsWire(query);
    }
  }
}

/** Building the responses octet by octet, as the server does. */
module DnsBuild {
  import opened Seqs
  import opened Text
  import opened DnsTypes
  import opened DnsWire
  import opened DnsNames
  import opened DnsServer

  method SoaRDATA(s: SOARecord) returns (rd: bytes)
    ensures rd == SoaBytes(s)
  {
    var mname := EncodeName(s.mname);
    var rname := EncodeName(s.rname);
    rd := mname + rname;
    rd := rd + U32(s.serial);
    rd := rd + U32(s.refresh);
    rd := rd + U32(s.retry);
    rd := rd + U32(s.expire);
    rd := rd + U32(s.minimum);
  }

  lemma {:induction false} TxtRecordsSnoc(values: seq<bytes>, v: bytes, ttl: uint32)
    ensures TxtRecords(values + [v], ttl)
         == TxtRecords(values, ttl) + RecordBytes(QNAME_REF, TYPE_TXT, ttl, StringsWire(Segments(v)))
  {
    if values == [] {
      assert (values + [v])[1..] == [];
      assert TxtRecords([], ttl) == [];
    } else {
      assert (values + [v])[1..] == values[1..] + [v];
      TxtRecordsSnoc(values[1..], v, ttl);
      Assoc(RecordBytes(QNAME_REF, TYPE_TXT, ttl, StringsWire(Segments(values[0]))), TxtRecords(values[1..], ttl),
            RecordBytes(QNAME_REF, TYPE_TXT, ttl, StringsWire(Segments(v))));
    }
  }

  // The octets of a record, in the order in which they are appended.
  method AppendRecord(owner: bytes, rtype: uint16, ttl: uint32, rdata: bytes) returns (rr: bytes)
    ensures rr == RecordBytes(owner, rtype, ttl, rdata)
  {
    rr := owner;
    rr := rr + [rtype / 256, rtype % 256];
    rr := rr + [0, 1];
    rr := rr + [ttl / 0x100_0000, (ttl / 0x1_0000) % 256, (ttl / 256) % 256, ttl % 256];
    rr := rr + [(|rdata| / 256) % 256, |rdata| % 256];
    rr := rr + rdata;
    OctetsOf32(ttl);
    OctetsOf16(|rdata|);
    assert U16(1) == [0, 1];
  }

  // The last two octets of a number, and the four octets of a 32-bit number.
  lemma OctetsOf16(n: nat)
    ensures U16(Cut16(n)) == [(n / 256) % 256, n % 256]
  {
    var m := n % 0x1_0000;
    assert n == 0x1_0000 * (n / 0x1_0000) + m;
    assert n / 256 == 256 * (n / 0x1_0000) + m / 256;
  }

  lemma OctetsOf32(n: uint32)
    ensures U32(n) == [n / 0x100_0000, (n / 0x1_0000) % 256, (n / 256) % 256, n % 256]
  {
    var hi, lo := n / 0x1_0000, n % 0x1_0000;
    assert n == 0x1_0000 * hi + lo;
    assert n / 0x100_0000 == hi / 256;
    assert n / 256 == 256 * hi + lo / 256;
    assert n % 256 == lo % 256;
  }

  // ID, flags and section counts.
  method AppendHeader(query: bytes, rcode: nat, questions: byte, answers: nat, authority: byte) returns (resp: bytes)
    requires |query| >= 12
    ensures resp == HeaderBytes(query, rcode, questions, Cut16(answers), authority)
  {
    resp := [query[0], query[1]];
    resp := resp + [0x84, rcode % 16];
    resp := resp + [0, questions];
    resp := resp + [(answers / 256) % 256, answers % 256];
    resp := resp + [0, authority];
    resp := resp + [0, 0];
    OctetsOf16(answers);
    assert query[..2] == [query[0], query[1]];
  }

  method TxtAnswers(values: seq<bytes>, ttl: uint32) returns (answers: bytes)
    ensures answers == TxtRecords(values, ttl)
  {
    hide RecordBytes, Segments, StringsWire;
    answers := [];
    for i := 0 to |values|
      invariant answers == TxtRecords(values[..i], ttl)
    {
      assert values[..i + 1] == values[..i] + [values[i]];
      TxtRecordsSnoc(values[..i], values[i], ttl);
      var rdata := EncodeTXTStrings(values[i]);
      var rr := AppendRecord([0xC0, 0x0C], 16, ttl, rdata);
      answers := answers + rr;
    }
    assert values[..|values|] == values;
  }

  lemma {:induction false} NsRecordsSnoc(hosts: seq<string>, h: string, ttl: uint32)
    ensures NsRecords(hosts + [h], ttl) == NsRecords(hosts, ttl) + RecordBytes(QNAME_REF, TYPE_NS, ttl, EncodedName(h))
  {
    if hosts == [] {
      assert (hosts + [h])[1..] == [];
      assert NsRecords([], ttl) == [];
    } else {
      assert (hosts + [h])[1..] == hosts[1..] + [h];
      NsRecordsSnoc(hosts[1..], h, ttl);
      Assoc(RecordBytes(QNAME_REF, TYPE_NS, ttl, EncodedName(hosts[0])), NsRecords(hosts[1..], ttl),
            RecordBytes(QNAME_REF, TYPE_NS, ttl, EncodedName(h)));
    }
  }

  method NsAnswers(hosts: seq<string>, ttl: uint32) returns (answers: bytes)
    ensures answers == NsRecords(hosts, ttl)
  {
    hide RecordBytes, EncodedName;
    answers := [];
    for i := 0 to |hosts|
      invariant answers == NsRecords(hosts[..i], ttl)
    {
      assert hosts[..i + 1] == hosts[..i] + [hosts[i]];
      NsRecordsSnoc(hosts[..i], hosts[i], ttl);
      var rdata := EncodeName(hosts[i]);
      var rr := AppendRecord([0xC0, 0x0C], 2, ttl, rdata);
      answers := answers + rr;
    }
    assert hosts[..|hosts|] == hosts;
  }

  method ErrorResponse(query: bytes, q: Query, rcode: nat) returns (resp: bytes)
    requires |query| >= 12 && (q.Parsed? ==> 12 <= q.end <= |query|)
    ensures resp == Emit(query, q, Error(rcode))
  {
    hide HeaderBytes;
    resp := AppendHeader(query, rcode, if q.Parsed? then 1 else 0, 0, 0);
    if q.Parsed? {
      resp := resp + query[12..q.end];
    }
    assert QuestionBytes(query, q) + [] == QuestionBytes(query, q);
  }

  // Header, question and records.
  method Answer(query: bytes, q: Query, rcode: nat, answers: nat, authority: byte, records: bytes) returns (resp: bytes)
    requires |query| >= 12 && q.Parsed? && 12 <= q.end <= |query|
    ensures resp == HeaderBytes(query, rcode, 1, Cut16(answers), authority) + (query[12..q.end] + records)
  {
    hide HeaderBytes;
    var header := AppendHeader(query, rcode, 1, answers, authority);
    resp := header + query[12..q.end];
    resp := resp + records;
    Assoc(header, query[12..q.end], records);
  }

  method TxtResponse(query: bytes, q: Query, values: seq<bytes>, ttl: uint32) returns (resp: bytes)
    requires |query| >= 12 && q.Parsed? && 12 <= q.end <= |query|
    ensures resp == Emit(query, q, TxtAnswer(values, ttl))
  {
    hide RecordBytes, HeaderBytes, TxtRecords;
    var answers := TxtAnswers(values, ttl);
    resp := Answer(query, q, 0, |values|, 0, answers);
  }

  method CnameNXDomainResponse(query: bytes, q: Query, ttl: uint32) returns (resp: bytes)
    requires |query| >= 12 && q.Parsed? && 12 <= q.end <= |query|
    ensures resp == Emit(query, q, CnameAnswer(ttl))
  {
    hide RecordBytes, HeaderBytes;
    var target: bytes := [4, 100, 101, 97, 100] + [7, 105, 110, 118, 97, 108, 105, 100] + [0];
    assert target == DEAD_INVALID;
    var rr := AppendRecord([0xC0, 0x0C], 5, ttl, target);
    resp := Answer(query, q, 0, 1, 0, rr);
  }

  method NsResponse(query: bytes, q: Query, hosts: seq<string>, ttl: uint32) returns (resp: bytes)
    requires |query| >= 12 && q.Parsed? && 12 <= q.end <= |query|
    ensures resp == Emit(query, q, NsAnswer(hosts, ttl))
  {
    hide RecordBytes, HeaderBytes, NsRecords;
    var answers := NsAnswers(hosts, ttl);
    resp := Answer(query, q, 0, |hosts|, 0, answers);
  }

  method SoaResponse(query: bytes, q: Query, soa: SOARecord, ttl: uint32) returns (resp: bytes)
    requires |query| >= 12 && q.Parsed? && 12 <= q.end <= |query|
    ensures resp == Emit(query, q, SoaAnswer(soa, ttl))
  {
    hide RecordBytes, HeaderBytes, SoaBytes;
    var rdata := SoaRDATA(soa);
    var rr := AppendRecord([0xC0, 0x0C], 6, ttl, rdata);
    resp := Answer(query, q, 0, 1, 0, rr);
  }

  method AResponse(query: bytes, q: Query, ip: IPv4, ttl: uint32) returns (resp: bytes)
    requires |query| >= 12 && q.Parsed? && 12 <= q.end <= |query|
    ensures resp == Emit(query, q, AAnswer(ip, ttl))
  {
    hide RecordBytes, HeaderBytes;
    var rr := AppendRecord([0xC0, 0x0C], 1, ttl, ip);
    resp := Answer(query, q, 0, 1, 0, rr);
  }

  method NXDomainWithSOA(query: bytes, q: Query, apex: ZoneApex) returns (resp: bytes)
    requires |query| >= 12 && q.Parsed? && 12 <= q.end <= |query|
    ensures resp == Emit(query, q, Negative(apex))
  {
    hide RecordBytes, HeaderBytes, SoaBytes, EncodedName;
    var rdata := SoaRDATA(apex.soa);
    var apexName := EncodeName(apex.name);
    var auth := AppendRecord(apexName, 6, apex.soa.minimum, rdata);
    resp := Answer(query, q, NXDOMAIN, 0, 1, auth);
  }

  // Queries that no failure touches: apex records, addresses, and misses.
  method ZoneResponse(query: bytes, q: Query, name: string, qtype: uint16, zones: Option<Zones>)
    returns (r: Option<bytes>)
    requires |query| >= 12 && q.Parsed? && 12 <= q.end <= |query|
    ensures var d := ZoneDecision(name, qtype, zones);
            !d.Drop? && r == if d.Crash? then None else Some(Emit(query, q, d))
  {
    hide Emit, LookupA, ApexTTL;
    var apex := LookupApex(zones, name);
    var resp: bytes;
    if qtype == TYPE_NS || qtype == TYPE_SOA {
      if apex.Some? && apex.value.name == name {
        var ttl := ApexTTL(zones.value, name, apex.value);
        if qtype == TYPE_NS {
          resp := NsResponse(query, q, apex.value.nsHostnames, ttl);
        } else {
          resp := SoaResponse(query, q, apex.value.soa, ttl);
        }
        return Some(resp);
      }
    }
    if qtype == TYPE_A {
      var a := LookupA(zones, name);
      if a.Panics? {
        return None;
      }
      if a.Found? {
        resp := AResponse(query, q, a.entry.ip, a.entry.ttl);
        return Some(resp);
      }
    }
    if apex.Some? {
      resp := NXDomainWithSOA(query, q, apex.value);
    } else {
      resp := ErrorResponse(query, q, NXDOMAIN);
    }
    r := Some(resp);
  }

  // The branches of the original in their order; a dropped query has no delay.
  method BuildResponse(query: bytes, f: Faults, zones: Option<Zones>, txt: Option<map<string, TxtEntry>>)
    returns (r: Response)
    ensures r == Respond(query, f, zones, txt)
  {
    hide Emit, ParseQuery, QueryName;
    if |query| < 12 {
      return Dropped;
    }
    var name, qtype, qEnd := ParseQueryName(query);
    ghost var parsed := ParseQuery(query);
    QueryEndFits(query);
    if qtype == TYPE_TXT && name != "" && HasPrefix(name, ACME_PREFIX) {
      var entry := LookupTXT(txt, name);
      if entry.Some? {
        var acme := TxtResponse(query, ParseQuery(query), entry.value.values, entry.value.ttl);
        return Reply(acme, 0);
      }
    }
    assert Bypass(parsed, txt).None?;
    r := BuildUnbypassed(query, f, zones, name, qtype, qEnd, txt);
  }

  method BuildUnbypassed(query: bytes, f: Faults, zones: Option<Zones>, name: string, qtype: uint16, qEnd: nat,
                         ghost txt: Option<map<string, TxtEntry>>)
    returns (r: Response)
    requires |query| >= 12
    requires var q := ParseQuery(query);
             name == NameOf(q) && qtype == TypeOfQuery(q) && (qEnd == 0 <==> q.Malformed?) && Bypass(q, txt).None?
             && (q.Parsed? ==> 12 <= q.end <= |query|)
    ensures r == Respond(query, f, zones, txt)
  {
    hide Emit, ZoneDecision, ParseQuery, QueryName, HasPrefix;
    var q := ParseQuery(query);
    var resp: bytes;
    if f.timeout {
      return Dropped;
    }
    if f.servfail {
      resp := ErrorResponse(query, q, SERVFAIL);
      return Reply(resp, f.latency);
    }
    if f.nsMode.Some? {
      if f.nsMode.value == "servfail" {
        resp := ErrorResponse(query, q, SERVFAIL);
        return Reply(resp, f.latency);
      }
      return Dropped;
    }
    if name == "" || qEnd == 0 {
      resp := ErrorResponse(query, q, FORMERR);
      return Reply(resp, f.latency);
    }
    if f.nxdomain {
      resp := ErrorResponse(query, q, NXDOMAIN);
      return Reply(resp, f.latency);
    }
    if f.cnameNXDomain {
      var ttl: uint32 := 30;
      if zones.Some? && name in zones.value.records {
        ttl := zones.value.records[name].ttl;
      }
      resp := CnameNXDomainResponse(query, q, ttl);
      return Reply(resp, f.latency);
    }
    var zoned := ZoneResponse(query, q, name, qtype, zones);
    r := if zoned.None? then Crashed else Reply(zoned.value, f.latency);
  }
}

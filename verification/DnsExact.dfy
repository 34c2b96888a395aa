/**
 When the server's bytes mean what was decided: exactly when the decision fits on the
 wire. The decoder never yields an illegal label or more data than a length field can
 announce, so what does not fit is never read back as it was meant.
 */
module DnsExact {
  import opened Seqs
  import opened DnsTypes
  import opened DnsWire
  import opened DnsNames
  import opened DnsServer
  import opened DnsMeaning

  // ----- what the decoder can yield ---------------------------------------------------------------

  lemma {:induction false} DecodedNameOk(m: bytes, pos: nat, bound: nat)
    requires DecodeName(m, pos, bound).Some?
    ensures LabelsOk(DecodeName(m, pos, bound).value.labels)
    decreases bound, |m| - pos
  {
    if m[pos] == 0 {
    } else if m[pos] < 64 {
      DecodedNameOk(m, pos + 1 + m[pos], bound);
    } else {
      var target := (m[pos] as int - 192) * 256 + m[pos + 1] as int;
      DecodedNameOk(m, target, target);
    }
  }

  lemma {:induction false} DecodedStringsFill(m: bytes, pos: nat, end: nat)
    requires pos <= end <= |m| && DecodeStrings(m, pos, end).Some?
    ensures var ss := DecodeStrings(m, pos, end).value; StringsOk(ss) && |StringsWire(ss)| == end - pos
    decreases end - pos
  {
    if pos < end {
      var next := pos + 1 + m[pos];
      DecodedStringsFill(m, next, end);
      var ss, rest := DecodeStrings(m, pos, end).value, DecodeStrings(m, next, end).value;
      assert ss[0] == m[pos + 1..next] && ss[1..] == rest;
    }
  }

  lemma {:induction false} DecodedCount(m: bytes, pos: nat, count: nat)
    requires DecodeRRs(m, pos, count).Some?
    ensures |DecodeRRs(m, pos, count).value.0| == count
    decreases count
  {
    hide DecodeRR;
    if count > 0 {
      DecodedCount(m, DecodeRR(m, pos).value.next, count - 1);
    }
  }

  // A name is read back as its labels exactly if they are legal.
  lemma EncodedNameReadsIff(name: string)
    ensures var e := EncodedName(name);
            DecodeName(e, 0, 0) == Some(Named(NameLabels(name), |e|)) <==> NameOk(name)
  {
    hide EncodedName, NameLabels, NameWire, DecodeName, LabelsOk;
    var e := EncodedName(name);
    assert At(e, 0, e);
    hide At;
    if NameOk(name) {
      EncodedNameIsWire(name);
      NameReads(e, 0, 0, NameLabels(name));
    }
    if DecodeName(e, 0, 0) == Some(Named(NameLabels(name), |e|)) {
      DecodedNameOk(e, 0, 0);
    }
  }

  // ----- one record -------------------------------------------------------------------------------------

  lemma WholeNameFills(m: bytes, pos: nat, len: nat, ls: Labels)
    requires DecodeWholeName(m, pos, len) == Some(ls) && (LabelsOk(ls) ==> At(m, pos, NameWire(ls)))
    ensures LabelsOk(ls) && |NameWire(ls)| == len
  {
    DecodedNameOk(m, pos, pos);
    NameReads(m, pos, pos, ls);
  }

  lemma SOAFills(m: bytes, pos: nat, len: nat, rd: RData)
    requires rd.SOA? && pos + len <= |m| && DecodeSOA(m, pos, len) == Some(rd)
    requires RDataOk(rd) ==> At(m, pos, RDataWire(rd))
    ensures RDataOk(rd) && |RDataWire(rd)| == len
  {
    hide At, DecodeName, SOANumbers, LabelsOk, NameWire;
    var mn := DecodeName(m, pos, pos);
    DecodedNameOk(m, pos, pos);
    DecodedNameOk(m, mn.value.next, mn.value.next);
    var mw, rw := NameWire(rd.mname), NameWire(rd.rname);
    SOANumbersLength(rd);
    AtSum(m, pos, mw, rw + SOANumbers(rd));
    AtSum(m, pos + |mw|, rw, SOANumbers(rd));
    NameReads(m, pos, pos, rd.mname);
    NameReads(m, pos + |mw|, pos + |mw|, rd.rname);
  }

  // Data that is read back from its own wire form takes the announced length exactly.
  lemma DataFills(m: bytes, pos: nat, len: nat, rd: RData)
    requires pos + len <= |m| && DecodeRData(m, pos, len, TypeOf(rd)) == Some(rd)
    requires RDataOk(rd) ==> At(m, pos, RDataWire(rd))
    ensures RDataOk(rd) && |RDataWire(rd)| == len
  {
    match rd
    case A(_) =>
    case NS(h) => WholeNameFills(m, pos, len, h);
    case CNAME(t) => WholeNameFills(m, pos, len, t);
    case SOA(_, _, _, _, _, _, _) => SOAFills(m, pos, len, rd);
    case TXT(_) => DecodedStringsFill(m, pos, pos + len);
  }

  // The octets w are the wire form of the data, if it has one.
  predicate FormOf(rd: RData, w: bytes) {
    RDataOk(rd) ==> w == RDataWire(rd)
  }

  lemma RecordStands(m: bytes, pos: nat, owner: bytes, rtype: uint16, ttl: uint32, w: bytes)
    requires At(m, pos, RecordBytes(owner, rtype, ttl, w))
    ensures var n := pos + |owner|;
            At(m, pos, owner) && n + 10 + |w| <= |m| && U16At(m, n) == rtype && U16At(m, n + 8) == Cut16(|w|)
            && At(m, n + 10, w) && |RecordBytes(owner, rtype, ttl, w)| == |owner| + 10 + |w|
  {
    var t, c, l, len := U16(rtype), U16(1), U32(ttl), U16(Cut16(|w|));
    var n := pos + |owner|;
    AtSum(m, pos, owner + t + c + l + len, w);
    AtSum(m, pos, owner + t + c + l, len);
    AtSum(m, pos, owner + t + c, l);
    AtSum(m, pos, owner + t, c);
    AtSum(m, pos, owner, t);
    U16Reads(m, n, rtype);
    U16Reads(m, n + 8, Cut16(|w|));
  }

  lemma RecordFits(m: bytes, pos: nat, owner: bytes, rd: RData, ttl: uint32, w: bytes, rec: Record)
    requires At(m, pos, RecordBytes(owner, TypeOf(rd), ttl, w)) && FormOf(rd, w)
    requires DecodeRR(m, pos) == Some(rec) && rec.rr.rdata == rd
    requires DecodeName(m, pos, pos).Some? ==> DecodeName(m, pos, pos).value.next == pos + |owner|
    ensures RDataFits(rd) && rec.next == pos + |RecordBytes(owner, TypeOf(rd), ttl, w)|
  {
    hide At, DecodeName, RecordBytes, U16At, U32At, DecodeRData, RDataOk, RDataWire;
    RecordStands(m, pos, owner, TypeOf(rd), ttl, w);
    var n := pos + |owner|;
    DataFills(m, n + 10, Cut16(|w|), rd);
  }

  // A pointer takes two octets, wherever it leads.
  lemma PointerNext(m: bytes, pos: nat)
    requires At(m, pos, QNAME_REF) && DecodeName(m, pos, pos).Some?
    ensures DecodeName(m, pos, pos).value.next == pos + 2
  {
    AtIndex(m, pos, QNAME_REF, 0);
  }

  lemma OwnerStands(m: bytes, pos: nat, owner: bytes, rtype: uint16, ttl: uint32, w: bytes)
    requires At(m, pos, RecordBytes(owner, rtype, ttl, w))
    ensures At(m, pos, owner)
  {
    RecordStands(m, pos, owner, rtype, ttl, w);
  }

  // The first of some records behind the pointer, and the rest.
  lemma FirstFits(m: bytes, pos: nat, rd: RData, ttl: uint32, w: bytes, rest: bytes, count: nat, rrs: seq<RR>, end: nat)
    requires At(m, pos, RecordBytes(QNAME_REF, TypeOf(rd), ttl, w) + rest) && FormOf(rd, w)
    requires DecodeRRs(m, pos, count + 1) == Some((rrs, end)) && rrs != [] && rrs[0].rdata == rd
    ensures RDataFits(rd)
    ensures var next := pos + |RecordBytes(QNAME_REF, TypeOf(rd), ttl, w)|;
            At(m, next, rest) && DecodeRRs(m, next, count) == Some((rrs[1..], end))
  {
    hide At, RecordBytes, DecodeName, FormOf, RDataFits;
    var first := RecordBytes(QNAME_REF, TypeOf(rd), ttl, w);
    AtSum(m, pos, first, rest);
    OwnerStands(m, pos, QNAME_REF, TypeOf(rd), ttl, w);
    if DecodeName(m, pos, pos).Some? {
      PointerNext(m, pos);
    }
    var rec, more := FirstRead(m, pos, count, rrs, end);
    RecordFits(m, pos, QNAME_REF, rd, ttl, w, rec);
  }

  lemma FirstRead(m: bytes, pos: nat, count: nat, rrs: seq<RR>, end: nat) returns (rec: Record, more: seq<RR>)
    requires DecodeRRs(m, pos, count + 1) == Some((rrs, end))
    ensures DecodeRR(m, pos) == Some(rec) && DecodeRRs(m, rec.next, count) == Some((more, end))
    ensures rrs == [rec.rr] + more
    ensures rrs != [] && rrs[0] == rec.rr && rrs[1..] == more
  {
    hide DecodeRR;
    rec := DecodeRR(m, pos).value;
    more := DecodeRRs(m, rec.next, count).value.0;
    assert rrs == [rec.rr] + more;
  }

  // ----- the records of each decision -----------------------------------------------------------------

  lemma TxtForm(v: bytes)
    ensures FormOf(TxtData(v), StringsWire(Segments(v)))
  {
  }

  lemma OwnedRest<T>(owner: Labels, ttl: uint32, f: T -> RData, xs: seq<T>)
    requires xs != []
    ensures var rrs := Owned(owner, ttl, Map(f, xs));
            rrs != [] && rrs[0].rdata == f(xs[0]) && rrs[1..] == Owned(owner, ttl, Map(f, xs[1..]))
  {
    assert Map(f, xs)[1..] == Map(f, xs[1..]);
  }

  ghost predicate EachFits<T>(f: T -> RData, xs: seq<T>) {
    forall i :: 0 <= i < |xs| ==> RDataFits(f(xs[i]))
  }

  // What holds of the first and of the rest.
  lemma AllOf<T>(f: T -> RData, xs: seq<T>)
    requires xs != [] && RDataFits(f(xs[0])) && EachFits(f, xs[1..])
    ensures EachFits(f, xs)
  {
    forall i | 0 < i < |xs|
      ensures RDataFits(f(xs[i]))
    {
      assert xs[i] == xs[1..][i - 1];
    }
  }

  lemma {:induction false} TxtFit(m: bytes, pos: nat, values: seq<bytes>, ttl: uint32, owner: Labels, end: nat)
    requires At(m, pos, TxtRecords(values, ttl))
    requires DecodeRRs(m, pos, |values|) == Some((Owned(owner, ttl, Map(TxtData, values)), end))
    ensures EachFits(TxtData, values)
    decreases values
  {
    if values != [] {
      var v, rest := values[0], values[1..];
      var w, more := StringsWire(Segments(v)), TxtRecords(rest, ttl);
      assert TxtRecords(values, ttl) == RecordBytes(QNAME_REF, TypeOf(TxtData(v)), ttl, w) + more;
      hide *;
      OwnedRest(owner, ttl, TxtData, values);
      TxtForm(v);
      FirstFits(m, pos, TxtData(v), ttl, w, more, |rest|, Owned(owner, ttl, Map(TxtData, values)), end);
      TxtFit(m, pos + |RecordBytes(QNAME_REF, TypeOf(TxtData(v)), ttl, w)|, rest, ttl, owner, end);
      AllOf(TxtData, values);
    }
  }

  lemma NsForm(host: string)
    ensures FormOf(NsData(host), EncodedName(host))
  {
    if NameOk(host) {
      EncodedNameIsWire(host);
    }
  }

  lemma {:induction false} NsFit(m: bytes, pos: nat, hosts: seq<string>, ttl: uint32, owner: Labels, end: nat)
    requires At(m, pos, NsRecords(hosts, ttl))
    requires DecodeRRs(m, pos, |hosts|) == Some((Owned(owner, ttl, Map(NsData, hosts)), end))
    ensures EachFits(NsData, hosts)
    decreases hosts
  {
    if hosts != [] {
      var h, rest := hosts[0], hosts[1..];
      var w, more := EncodedName(h), NsRecords(rest, ttl);
      assert NsRecords(hosts, ttl) == RecordBytes(QNAME_REF, TypeOf(NsData(h)), ttl, w) + more;
      hide *;
      OwnedRest(owner, ttl, NsData, hosts);
      NsForm(h);
      FirstFits(m, pos, NsData(h), ttl, w, more, |rest|, Owned(owner, ttl, Map(NsData, hosts)), end);
      NsFit(m, pos + |RecordBytes(QNAME_REF, TypeOf(NsData(h)), ttl, w)|, rest, ttl, owner, end);
      AllOf(NsData, hosts);
    }
  }

  lemma SoaForm(soa: SOARecord)
    ensures FormOf(SoaRData(soa), SoaBytes(soa))
  {
    if RDataOk(SoaRData(soa)) {
      SoaBytesAreWire(soa);
    }
  }

  lemma SoaFit(m: bytes, pos: nat, soa: SOARecord, ttl: uint32, owner: Labels, end: nat)
    requires At(m, pos, RecordBytes(QNAME_REF, TYPE_SOA, ttl, SoaBytes(soa)))
    requires DecodeRRs(m, pos, 1) == Some((Owned(owner, ttl, [SoaRData(soa)]), end))
    ensures RDataFits(SoaRData(soa))
  {
    hide At, DecodeRRs, RecordBytes, SoaBytes, RDataFits, FormOf;
    var first := RecordBytes(QNAME_REF, TYPE_SOA, ttl, SoaBytes(soa));
    assert first + [] == first;
    SoaForm(soa);
    FirstFits(m, pos, SoaRData(soa), ttl, SoaBytes(soa), [], 0, Owned(owner, ttl, [SoaRData(soa)]), end);
  }

  lemma NegativeFits(m: bytes, pos: nat, apex: ZoneApex, end: nat)
    requires At(m, pos, RecordBytes(EncodedName(apex.name), TYPE_SOA, apex.soa.minimum, SoaBytes(apex.soa)))
    requires DecodeRRs(m, pos, 1) == Some(([RR(NameLabels(apex.name), 1, apex.soa.minimum, SoaRData(apex.soa))], end))
    ensures NameOk(apex.name) && RDataFits(SoaRData(apex.soa))
  {
    hide At, DecodeRRs, RecordBytes, SoaBytes, RDataFits, FormOf, DecodeName, EncodedName, NameLabels, LabelsOk;
    var owner := EncodedName(apex.name);
    var rec, more := FirstRead(m, pos, 0, [RR(NameLabels(apex.name), 1, apex.soa.minimum, SoaRData(apex.soa))], end);
    DecodedNameOk(m, pos, pos);
    EncodedNameIsWire(apex.name);
    OwnerStands(m, pos, owner, TYPE_SOA, apex.soa.minimum, SoaBytes(apex.soa));
    NameReads(m, pos, pos, NameLabels(apex.name));
    SoaForm(apex.soa);
    RecordFits(m, pos, owner, SoaRData(apex.soa), apex.soa.minimum, SoaBytes(apex.soa), rec);
  }

  // ----- the whole message ------------------------------------------------------------------------------

  lemma SectionsOf(m: bytes, msg: Message) returns (p1: nat, p2: nat, p3: nat)
    requires Decode(m) == Some(msg)
    ensures |m| >= 12 && msg.header == DecodeHeader(m)
    ensures DecodeQuestions(m, 12, U16At(m, 4)) == Some((msg.questions, p1))
    ensures DecodeRRs(m, p1, U16At(m, 6)) == Some((msg.answers, p2))
    ensures DecodeRRs(m, p2, U16At(m, 8)) == Some((msg.authority, p3))
  {
    hide DecodeQuestions, DecodeRRs, DecodeHeader;
    p1 := DecodeQuestions(m, 12, U16At(m, 4)).value.1;
    p2 := DecodeRRs(m, p1, U16At(m, 6)).value.1;
    p3 := DecodeRRs(m, p2, U16At(m, 8)).value.1;
  }

  // A response that decodes to what is meant: where its records stand, and what is read there.
  lemma RecordsRead(query: bytes, q: Query, d: Decision) returns (pos: nat, p2: nat, p3: nat)
    requires |query| >= 12 && q == ParseQuery(query)
    requires (q.Parsed? ==> 14 <= q.end <= |query|) && (q.Parsed? || d.Error?)
    requires Decode(Emit(query, q, d)) == Some(Meant(query, q, d))
    ensures var m := Emit(query, q, d);
            At(m, pos, RecordsOf(d)) && |AnswerData(d)| < 0x1_0000 && RCodeOf(d) < 16
            && DecodeRRs(m, pos, |AnswerData(d)|) == Some((Owned(LabelsOf(q), AnswerTTL(d), AnswerData(d)), p2))
            && DecodeRRs(m, p2, |AuthorityRRs(AuthorityOf(d))|) == Some((AuthorityRRs(AuthorityOf(d)), p3))
  {
    hide At, ParseQuery, Decode, DecodeQuestions, DecodeRRs;
    hide RecordsOf, QuestionBytes, U16At, AnswerCount, AnswerData, RCodeOf;
    var m := Emit(query, q, d);
    assert RecordsOf(d) + [] == RecordsOf(d);
    HeaderOfIsTwelve(query, q, d);
    SectionsStand(m, HeaderOf(query, q, d), QuestionBytes(query, q), RecordsOf(d), []);
    pos := 12 + |QuestionBytes(query, q)|;
    var p1;
    p1, p2, p3 := SectionsOf(m, Meant(query, q, d));
    QuestionsAnnounced(m, query, q, d);
    QuestionPartReads(m, query, q);
    DecodedCount(m, p1, U16At(m, 6));
    DecodedCount(m, p2, U16At(m, 8));
  }

  lemma QuestionsAnnounced(m: bytes, query: bytes, q: Query, d: Decision)
    requires |query| >= 12 && (q.Parsed? || d.Error?) && At(m, 0, HeaderOf(query, q, d))
    ensures |m| >= 12 && U16At(m, 4) == (if q.Parsed? then 1 else 0) && DecodeHeader(m).rcode == RCodeOf(d) % 16
  {
    HeaderReads(m, query, RCodeOf(d), if q.Parsed? || !d.Error? then 1 else 0, Cut16(AnswerCount(d)),
                if d.Negative? then 1 else 0);
  }

  lemma DecodedFits(query: bytes, q: Query, d: Decision)
    requires |query| >= 12 && q == ParseQuery(query)
    requires (q.Parsed? ==> 14 <= q.end <= |query|) && (q.Parsed? || d.Error?)
    requires Decode(Emit(query, q, d)) == Some(Meant(query, q, d))
    ensures DecisionFits(d)
  {
    hide At, ParseQuery, Decode, DecodeRRs, RecordBytes, TxtRecords, NsRecords, Emit, Meant, RDataFits;
    hide NameOk, TxtData, NsData, SoaRData, SoaBytes, EncodedName;
    var pos, p2, p3 := RecordsRead(query, q, d);
    var m := Emit(query, q, d);
    match d
    case TxtAnswer(values, ttl) => TxtFit(m, pos, values, ttl, LabelsOf(q), p2);
    case NsAnswer(hosts, ttl) => NsFit(m, pos, hosts, ttl, LabelsOf(q), p2);
    case SoaAnswer(soa, ttl) => SoaFit(m, pos, soa, ttl, LabelsOf(q), p2);
    case Negative(apex) =>
      NoRecords(m, pos);
      NegativeFits(m, p2, apex, p3);
    case _ =>
  }

  // A response decodes to the message that is meant - same ID, the question echoed or none,
  // as many records as the header announces with the pointers resolved, no octets left -
  // if and only if the decision fits on the wire: labels of 1 to 63 octets, data and counts
  // that 16 bits can announce.
  lemma EmitDecodesIff(query: bytes, d: Decision)
    requires |query| >= 12 && !d.Drop? && !d.Crash? && (ParseQuery(query).Parsed? || d.Error?)
    ensures var q := ParseQuery(query);
            (q.Parsed? ==> 14 <= q.end <= |query|)
            && (Decode(Emit(query, q, d)) == Some(Meant(query, q, d)) <==> DecisionFits(d))
  {
    hide Decode, Emit, Meant, DecisionFits;
    var q := ParseQuery(query);
    if q.Parsed? {
      QuestionIsWire(query);
      LabelsTakeRoom(q.labels);
    }
    if DecisionFits(d) {
      EmitDecodes(query, d);
    }
    if Decode(Emit(query, q, d)) == Some(Meant(query, q, d)) {
      DecodedFits(query, q, d);
    }
  }

  lemma LabelsTakeRoom(ls: Labels)
    requires LabelsOk(ls)
    ensures |NameWire(ls)| >= 1
  {
  }
}

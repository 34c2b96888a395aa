/**
 What the server emits means what was decided: every response decodes, under section 4.1
 of RFC 1035, to the message of its decision.
 */
module DnsMeaning {
  import opened Seqs
  import opened DnsTypes
  import opened DnsWire
  import opened DnsNames
  import opened DnsServer

  // ----- decisions that fit on the wire ------------------------------------------------------------

  function SoaRData(s: SOARecord): RData {
    SOA(NameLabels(s.mname), NameLabels(s.rname), s.serial, s.refresh, s.retry, s.expire, s.minimum)
  }

  predicate RDataFits(rd: RData) {
    RDataOk(rd) && |RDataWire(rd)| < 0x1_0000
  }

  predicate AllFit(rds: seq<RData>) {
    |rds| < 0x1_0000 && forall i :: 0 <= i < |rds| ==> RDataFits(rds[i])
  }

  function TxtData(v: bytes): RData {
    TXT(Segments(v))
  }

  function NsData(host: string): RData {
    NS(NameLabels(host))
  }

  const DEAD: Labels := [[100, 101, 97, 100], [105, 110, 118, 97, 108, 105, 100]]

  // Names have labels of 1 to 63 octets, and data and counts fit in 16 bits.
  predicate DecisionFits(d: Decision) {
    match d
    case Drop => true
    case Crash => true
    case Error(rcode) => rcode < 16
    case TxtAnswer(values, _) => AllFit(Map(TxtData, values))
    case CnameAnswer(_) => true
    case NsAnswer(hosts, _) => AllFit(Map(NsData, hosts))
    case SoaAnswer(soa, _) => RDataFits(SoaRData(soa))
    case AAnswer(_, _) => true
    case Negative(apex) => NameOk(apex.name) && RDataFits(SoaRData(apex.soa))
  }

  // ----- the message that is meant -------------------------------------------------------------------

  function Owned(owner: Labels, ttl: uint32, rds: seq<RData>): (rrs: seq<RR>)
    ensures |rrs| == |rds| && forall i :: 0 <= i < |rds| ==> rrs[i] == RR(owner, 1, ttl, rds[i])
  {
    seq(|rds|, i requires 0 <= i < |rds| => RR(owner, 1, ttl, rds[i]))
  }

  // The data of the answers, and their TTL.
  function AnswerData(d: Decision): seq<RData> {
    match d
    case TxtAnswer(values, _) => Map(TxtData, values)
    case CnameAnswer(_) => [CNAME(DEAD)]
    case NsAnswer(hosts, _) => Map(NsData, hosts)
    case SoaAnswer(soa, _) => [SoaRData(soa)]
    case AAnswer(ip, _) => [A(ip)]
    case _ => []
  }

  function AnswerTTL(d: Decision): uint32 {
    match d
    case TxtAnswer(_, ttl) => ttl
    case CnameAnswer(ttl) => ttl
    case NsAnswer(_, ttl) => ttl
    case SoaAnswer(_, ttl) => ttl
    case AAnswer(_, ttl) => ttl
    case _ => 0
  }

  function LabelsOf(q: Query): Labels {
    if q.Parsed? then q.labels else []
  }

  // The questions that are meant.
  function QuestionsOf(query: bytes, q: Query): seq<Question>
    requires q.Parsed? ==> 14 <= q.end <= |query|
  {
    if q.Parsed? then [Question(q.labels, q.qtype, U16At(query, q.end - 2))] else []
  }

  // A record in the authority section, under a name of its own.
  datatype Authority = Authority(owner: Labels, ttl: uint32, rd: RData)

  function AuthorityOf(d: Decision): Option<Authority> {
    if d.Negative? then Some(Authority(NameLabels(d.apex.name), d.apex.soa.minimum, SoaRData(d.apex.soa))) else None
  }

  predicate AuthorityFits(a: Option<Authority>) {
    a.Some? ==> LabelsOk(a.value.owner) && RDataFits(a.value.rd)
  }

  function AuthorityRRs(a: Option<Authority>): seq<RR> {
    if a.None? then [] else [RR(a.value.owner, 1, a.value.ttl, a.value.rd)]
  }

  // The ID and the question of the query, the authoritative flag, the code, the records.
  function Meant(query: bytes, q: Query, d: Decision): Message
    requires |query| >= 12 && (q.Parsed? ==> 14 <= q.end <= |query|)
  {
    Message(
      Header(U16At(query, 0), true, 0, true, false, false, false, 0, RCodeOf(d)),
      QuestionsOf(query, q),
      Owned(LabelsOf(q), AnswerTTL(d), AnswerData(d)),
      AuthorityRRs(AuthorityOf(d)),
      [])
  }

  // ----- the bytes, in the decoder's terms --------------------------------------------------------------

  function PointerRecords(rds: seq<RData>, ttl: uint32): bytes
    requires AllFit(rds)
  {
    if rds == [] then [] else (QNAME_REF + RRTail(1, ttl, rds[0])) + PointerRecords(rds[1..], ttl)
  }

  lemma RecordIsTail(owner: bytes, ttl: uint32, rd: RData)
    requires RDataFits(rd)
    ensures RecordBytes(owner, TypeOf(rd), ttl, RDataWire(rd)) == owner + RRTail(1, ttl, rd)
  {
    var w, t, c, n := RDataWire(rd), U16(TypeOf(rd)), U16(1), U32(ttl);
    var len := U16(|w|);
    Assoc(owner + t + c + n, len, w);
    Assoc(owner + t + c, n, len + w);
    Assoc(owner + t, c, n + (len + w));
    Assoc(owner, t, c + (n + (len + w)));
  }

  lemma {:induction false} TxtRecordsArePointers(values: seq<bytes>, ttl: uint32)
    requires AllFit(Map(TxtData, values))
    ensures TxtRecords(values, ttl) == PointerRecords(Map(TxtData, values), ttl)
  {
    if values != [] {
      var rds := Map(TxtData, values);
      assert RDataFits(rds[0]);
      RecordIsTail(QNAME_REF, ttl, TxtData(values[0]));
      assert rds[1..] == Map(TxtData, values[1..]);
      TxtRecordsArePointers(values[1..], ttl);
    }
  }

  lemma {:induction false} NsRecordsArePointers(hosts: seq<string>, ttl: uint32)
    requires AllFit(Map(NsData, hosts))
    ensures NsRecords(hosts, ttl) == PointerRecords(Map(NsData, hosts), ttl)
  {
    if hosts != [] {
      var rds := Map(NsData, hosts);
      assert RDataFits(rds[0]);
      RecordIsTail(QNAME_REF, ttl, NsData(hosts[0]));
      EncodedNameIsWire(hosts[0]);
      assert rds[1..] == Map(NsData, hosts[1..]);
      NsRecordsArePointers(hosts[1..], ttl);
    }
  }

  lemma SoaBytesAreWire(s: SOARecord)
    requires RDataOk(SoaRData(s))
    ensures SoaBytes(s) == RDataWire(SoaRData(s))
  {
    EncodedNameIsWire(s.mname);
    EncodedNameIsWire(s.rname);
    var m, r := EncodedName(s.mname), EncodedName(s.rname);
    var a, b, c, d, e := U32(s.serial), U32(s.refresh), U32(s.retry), U32(s.expire), U32(s.minimum);
    Assoc(m + r + a + b + c, d, e);
    Assoc(m + r + a + b, c, d + e);
    Assoc(m + r + a, b, c + (d + e));
    Assoc(m + r, a, b + (c + (d + e)));
    Assoc(m, r, a + (b + (c + (d + e))));
  }

  lemma OnePointer(rd: RData, ttl: uint32)
    requires RDataFits(rd)
    ensures AllFit([rd]) && PointerRecords([rd], ttl) == RecordBytes(QNAME_REF, TypeOf(rd), ttl, RDataWire(rd))
  {
    RecordIsTail(QNAME_REF, ttl, rd);
    assert [rd][1..] == [];
    assert PointerRecords([], ttl) == [];
  }

  lemma DeadIsWire()
    ensures LabelsOk(DEAD) && NameWire(DEAD) == DEAD_INVALID
  {
    assert DEAD[1..] == [[105, 110, 118, 97, 108, 105, 100]];
    assert DEAD[1..][1..] == [];
    assert NameWire([]) == [0];
  }

  function AuthorityBytes(a: Option<Authority>): bytes
    requires AuthorityFits(a)
  {
    if a.None? then [] else NameWire(a.value.owner) + RRTail(1, a.value.ttl, a.value.rd)
  }

  lemma AnswersFit(d: Decision)
    requires DecisionFits(d)
    ensures AllFit(AnswerData(d)) && AuthorityFits(AuthorityOf(d)) && |AnswerData(d)| == AnswerCount(d)
  {
    if d.CnameAnswer? {
      DeadIsWire();
    }
  }

  // Every decision is emitted as the answers behind pointers and, for a miss, the zone's
  // SOA under its own name.
  lemma RecordsAreWire(d: Decision)
    requires DecisionFits(d) && AllFit(AnswerData(d)) && AuthorityFits(AuthorityOf(d))
    ensures RecordsOf(d) == PointerRecords(AnswerData(d), AnswerTTL(d)) + AuthorityBytes(AuthorityOf(d))
  {
    hide RRTail, NameOk, EncodedName, TxtRecords, NsRecords, SoaBytes, RecordBytes;
    var answers := PointerRecords(AnswerData(d), AnswerTTL(d));
    assert answers + [] == answers;
    match d
    case TxtAnswer(values, ttl) => TxtRecordsArePointers(values, ttl);
    case CnameAnswer(ttl) => DeadIsWire(); OnePointer(CNAME(DEAD), ttl);
    case NsAnswer(hosts, ttl) => NsRecordsArePointers(hosts, ttl);
    case SoaAnswer(soa, ttl) => SoaBytesAreWire(soa); OnePointer(SoaRData(soa), ttl);
    case AAnswer(ip, ttl) => OnePointer(A(ip), ttl);
    case Negative(apex) =>
      SoaBytesAreWire(apex.soa);
      EncodedNameIsWire(apex.name);
      RecordIsTail(EncodedName(apex.name), apex.soa.minimum, SoaRData(apex.soa));
      assert answers == [];
      assert answers + AuthorityBytes(AuthorityOf(d)) == AuthorityBytes(AuthorityOf(d));
    case _ =>
  }

  // ----- reading the response back ---------------------------------------------------------------------

  lemma HeaderReads(m: bytes, query: bytes, rcode: nat, questions: uint16, answers: uint16, authority: uint16)
    requires |query| >= 12 && At(m, 0, HeaderBytes(query, rcode, questions, answers, authority))
    ensures |m| >= 12
    ensures DecodeHeader(m) == Header(U16At(query, 0), true, 0, true, false, false, false, 0, rcode % 16)
    ensures U16At(m, 4) == questions && U16At(m, 6) == answers && U16At(m, 8) == authority && U16At(m, 10) == 0
  {
    var h := HeaderBytes(query, rcode, questions, answers, authority);
    assert |h| == 12;
    assert forall k :: 0 <= k < 12 ==> m[k] == h[k] by {
      forall k | 0 <= k < 12 ensures m[k] == h[k] { AtIndex(m, 0, h, k); }
    }
    assert h[0] == query[0] && h[1] == query[1] && h[2] == 0x84 && h[3] == rcode % 16;
    assert h[4] == questions / 256 && h[5] == questions % 256 && h[6] == answers / 256 && h[7] == answers % 256;
    assert h[8] == authority / 256 && h[9] == authority % 256 && h[10] == 0 && h[11] == 0;
  }

  lemma FourOctets(m: bytes, n: nat, fixed: bytes, query: bytes, k: nat)
    requires |fixed| == 4 && At(m, n, fixed) && k + 4 <= |query| && fixed == query[k..k + 4]
    ensures U16At(m, n) == U16At(query, k) && U16At(m, n + 2) == U16At(query, k + 2)
  {
    AtIndex(m, n, fixed, 0);
    AtIndex(m, n, fixed, 1);
    AtIndex(m, n, fixed, 2);
    AtIndex(m, n, fixed, 3);
  }

  lemma QuestionReads(m: bytes, query: bytes)
    requires ParseQuery(query).Parsed? && ParseQuery(query).end <= |query| && 14 <= ParseQuery(query).end
    requires At(m, 12, query[12..ParseQuery(query).end])
    ensures var q := ParseQuery(query);
            LabelsOk(q.labels) && At(m, 12, NameWire(q.labels)) && q.end > 16
            && DecodeQuestions(m, 12, 1) == Some(([Question(q.labels, q.qtype, U16At(query, q.end - 2))], q.end))
  {
    var q := ParseQuery(query);
    QuestionIsWire(query);
    var n := q.end - 4;
    var fixed := query[n..n + 4];
    AtSum(m, 12, NameWire(q.labels), fixed);
    NameReads(m, 12, 12, q.labels);
    FourOctets(m, n, fixed, query, n);
    assert U16At(query, n) == q.qtype;
    OneQuestion(m, 12, Named(q.labels, n));
  }

  // The pointer 0xC00C leads to the question's name.
  lemma PointerReads(m: bytes, pos: nat, labels: Labels)
    requires LabelsOk(labels) && At(m, 12, NameWire(labels)) && pos > 12 && At(m, pos, QNAME_REF)
    ensures DecodeName(m, pos, pos) == Some(Named(labels, pos + 2))
  {
    AtIndex(m, pos, QNAME_REF, 0);
    AtIndex(m, pos, QNAME_REF, 1);
    NameReads(m, 12, 12, labels);
  }

  lemma PointerRecordReads(m: bytes, pos: nat, labels: Labels, rd: RData, ttl: uint32)
    requires LabelsOk(labels) && At(m, 12, NameWire(labels)) && pos > 12
    requires RDataFits(rd) && At(m, pos, QNAME_REF + RRTail(1, ttl, rd))
    ensures DecodeRR(m, pos) == Some(Record(RR(labels, 1, ttl, rd), pos + |QNAME_REF + RRTail(1, ttl, rd)|))
  {
    hide RRTail, DecodeRR, DecodeName, NameWire, RDataWire, RDataOk, At, LabelsOk;
    AtSum(m, pos, QNAME_REF, RRTail(1, ttl, rd));
    PointerReads(m, pos, labels);
    RRReads(m, pos, Named(labels, pos + 2), 1, ttl, rd);
  }

  lemma PointersStep(m: bytes, pos: nat, labels: Labels, rds: seq<RData>, ttl: uint32, next: nat, end: nat)
    requires rds != [] && DecodeRR(m, pos) == Some(Record(RR(labels, 1, ttl, rds[0]), next))
    requires DecodeRRs(m, next, |rds| - 1) == Some((Owned(labels, ttl, rds[1..]), end))
    ensures DecodeRRs(m, pos, |rds|) == Some((Owned(labels, ttl, rds), end))
  {
    hide DecodeRR, DecodeRRs;
    RRsStep(m, pos, Record(RR(labels, 1, ttl, rds[0]), next), |rds| - 1, Owned(labels, ttl, rds[1..]), end);
    assert Owned(labels, ttl, rds) == [RR(labels, 1, ttl, rds[0])] + Owned(labels, ttl, rds[1..]);
  }

  lemma {:induction false} PointerRecordsRead(m: bytes, pos: nat, labels: Labels, rds: seq<RData>, ttl: uint32)
    requires LabelsOk(labels) && At(m, 12, NameWire(labels)) && pos > 12
    requires AllFit(rds) && At(m, pos, PointerRecords(rds, ttl))
    ensures DecodeRRs(m, pos, |rds|) == Some((Owned(labels, ttl, rds), pos + |PointerRecords(rds, ttl)|))
    decreases rds
  {
    hide RRTail, DecodeRR, DecodeName, NameWire, RDataWire, RDataOk, At, LabelsOk;
    if rds != [] {
      var first := QNAME_REF + RRTail(1, ttl, rds[0]);
      AtSum(m, pos, first, PointerRecords(rds[1..], ttl));
      PointerRecordReads(m, pos, labels, rds[0], ttl);
      PointerRecordsRead(m, pos + |first|, labels, rds[1..], ttl);
      PointersStep(m, pos, labels, rds, ttl, pos + |first|, pos + |PointerRecords(rds, ttl)|);
    }
  }

  lemma AuthorityReads(m: bytes, pos: nat, a: Option<Authority>)
    requires AuthorityFits(a) && At(m, pos, AuthorityBytes(a))
    ensures DecodeRRs(m, pos, |AuthorityRRs(a)|) == Some((AuthorityRRs(a), pos + |AuthorityBytes(a)|))
  {
    hide DecodeRR, NameWire, RRTail, RDataFits, LabelsOk, At;
    if a.Some? {
      AuthorityRecordReads(m, pos, a.value.owner, a.value.ttl, a.value.rd);
      OneRR(m, pos, Record(RR(a.value.owner, 1, a.value.ttl, a.value.rd), pos + |AuthorityBytes(a)|));
    }
  }

  lemma AuthorityRecordReads(m: bytes, pos: nat, owner: Labels, ttl: uint32, rd: RData)
    requires LabelsOk(owner) && RDataFits(rd) && At(m, pos, NameWire(owner) + RRTail(1, ttl, rd))
    ensures DecodeRR(m, pos) == Some(Record(RR(owner, 1, ttl, rd), pos + |NameWire(owner) + RRTail(1, ttl, rd)|))
  {
    hide RRTail, DecodeRR, DecodeName, NameWire, RDataWire, RDataOk, At, LabelsOk;
    AtSum(m, pos, NameWire(owner), RRTail(1, ttl, rd));
    NameReads(m, pos, pos, owner);
    RRReads(m, pos, Named(owner, pos + |NameWire(owner)|), 1, ttl, rd);
  }

  lemma QuestionPartReads(m: bytes, query: bytes, q: Query)
    requires |query| >= 12 && q == ParseQuery(query) && (q.Parsed? ==> 14 <= q.end <= |query|)
    requires At(m, 12, QuestionBytes(query, q))
    ensures DecodeQuestions(m, 12, if q.Parsed? then 1 else 0)
         == Some((QuestionsOf(query, q), 12 + |QuestionBytes(query, q)|))
  {
    if q.Parsed? {
      QuestionReads(m, query);
    }
  }

  lemma AnswersRead(m: bytes, query: bytes, q: Query, rds: seq<RData>, ttl: uint32)
    requires |query| >= 12 && q == ParseQuery(query) && (q.Parsed? ==> 14 <= q.end <= |query|)
    requires AllFit(rds) && (q.Parsed? || rds == [])
    requires At(m, 12, QuestionBytes(query, q)) && At(m, 12 + |QuestionBytes(query, q)|, PointerRecords(rds, ttl))
    ensures AnswersAre(m, 12 + |QuestionBytes(query, q)|, LabelsOf(q), rds, ttl)
  {
    hide RDataFits, At, ParseQuery;
    if q.Parsed? {
      ParsedAnswersRead(m, query, q, rds, ttl);
    }
  }

  lemma ParsedAnswersRead(m: bytes, query: bytes, q: Query, rds: seq<RData>, ttl: uint32)
    requires q == ParseQuery(query) && q.Parsed? && 14 <= q.end <= |query| && AllFit(rds)
    requires At(m, 12, query[12..q.end]) && At(m, q.end, PointerRecords(rds, ttl))
    ensures AnswersAre(m, q.end, q.labels, rds, ttl)
  {
    hide RDataFits, DecodeRRs, DecodeQuestions, PointerRecords, At, NameWire, LabelsOk, ParseQuery;
    QuestionReads(m, query);
    PointerRecordsRead(m, q.end, q.labels, rds, ttl);
  }

  ghost predicate AnswersAre(m: bytes, pos: nat, labels: Labels, rds: seq<RData>, ttl: uint32)
    requires AllFit(rds)
  {
    DecodeRRs(m, pos, |rds|) == Some((Owned(labels, ttl, rds), pos + |PointerRecords(rds, ttl)|))
  }

  // Every response that fits decodes to the message that is meant: same ID, the question echoed or
  // none, as many records as the header announces with the pointers resolved, no octets left.
  lemma EmitDecodes(query: bytes, d: Decision)
    requires |query| >= 12 && DecisionFits(d) && !d.Drop? && !d.Crash?
    requires ParseQuery(query).Parsed? || d.Error?
    ensures var q := ParseQuery(query);
            (q.Parsed? ==> 14 <= q.end <= |query|)
            && Decode(Emit(query, q, d)) == Some(Meant(query, q, d))
  {
    var q := ParseQuery(query);
    if q.Parsed? {
      QuestionIsWire(query);
    }
    AnswersFit(d);
    RecordsAreWire(d);
    PartsAnnounced(q, d);
    EmittedDecodes(query, q, d, AnswerData(d), AnswerTTL(d), AuthorityOf(d));
    MeantIsParts(query, q, d);
  }

  lemma PartsAnnounced(q: Query, d: Decision)
    requires DecisionFits(d) && (q.Parsed? || d.Error?)
    ensures RCodeOf(d) < 16 && AnswerCount(d) == |AnswerData(d)| && (d.Negative? <==> AuthorityOf(d).Some?)
    ensures q.Parsed? || AnswerData(d) == []
  {
  }

  lemma EmittedDecodes(query: bytes, q: Query, d: Decision, rds: seq<RData>, ttl: uint32, a: Option<Authority>)
    requires |query| >= 12 && q == ParseQuery(query) && (q.Parsed? ==> 14 <= q.end <= |query|)
    requires AllFit(rds) && AuthorityFits(a) && RecordsOf(d) == PointerRecords(rds, ttl) + AuthorityBytes(a)
    requires RCodeOf(d) < 16 && AnswerCount(d) == |rds| && (d.Negative? <==> a.Some?)
    requires q.Parsed? || (d.Error? && rds == [])
    ensures Decode(Emit(query, q, d))
         == Some(Message(Header(U16At(query, 0), true, 0, true, false, false, false, 0, RCodeOf(d)),
                         QuestionsOf(query, q), Owned(LabelsOf(q), ttl, rds), AuthorityRRs(a), []))
  {
    hide RDataFits, At, ParseQuery, PointerRecords, QuestionBytes, HeaderOf, RecordsOf, AuthorityFits, AuthorityBytes,
      Decode, DecodeHeader, U16At, RCodeOf, AnswerCount;
    var m := Emit(query, q, d);
    HeaderOfIsTwelve(query, q, d);
    SectionsStand(m, HeaderOf(query, q, d), QuestionBytes(query, q), PointerRecords(rds, ttl), AuthorityBytes(a));
    HeaderOfReads(m, query, q, d);
    SectionsRead(m, query, q, rds, ttl, a);
  }

  lemma HeaderOfIsTwelve(query: bytes, q: Query, d: Decision)
    requires |query| >= 12
    ensures |HeaderOf(query, q, d)| == 12
  {
  }

  lemma HeaderOfReads(m: bytes, query: bytes, q: Query, d: Decision)
    requires |query| >= 12 && RCodeOf(d) < 16 && AnswerCount(d) < 0x1_0000 && (q.Parsed? || d.Error?)
    requires At(m, 0, HeaderOf(query, q, d))
    ensures |m| >= 12
    ensures DecodeHeader(m) == Header(U16At(query, 0), true, 0, true, false, false, false, 0, RCodeOf(d))
    ensures U16At(m, 4) == (if q.Parsed? then 1 else 0) && U16At(m, 6) == AnswerCount(d)
    ensures U16At(m, 8) == (if d.Negative? then 1 else 0) && U16At(m, 10) == 0
  {
    HeaderReads(m, query, RCodeOf(d), if q.Parsed? then 1 else 0, AnswerCount(d), if d.Negative? then 1 else 0);
  }

  lemma MeantIsParts(query: bytes, q: Query, d: Decision)
    requires |query| >= 12 && (q.Parsed? ==> 14 <= q.end <= |query|)
    ensures Meant(query, q, d)
         == Message(Header(U16At(query, 0), true, 0, true, false, false, false, 0, RCodeOf(d)),
                    QuestionsOf(query, q), Owned(LabelsOf(q), AnswerTTL(d), AnswerData(d)),
                    AuthorityRRs(AuthorityOf(d)), [])
  {
  }

  // The sections behind a header that announces them.
  lemma SectionsRead(m: bytes, query: bytes, q: Query, rds: seq<RData>, ttl: uint32, a: Option<Authority>)
    requires |query| >= 12 && q == ParseQuery(query) && (q.Parsed? ==> 14 <= q.end <= |query|)
    requires AllFit(rds) && AuthorityFits(a) && (q.Parsed? || rds == [])
    requires |m| >= 12 && U16At(m, 4) == (if q.Parsed? then 1 else 0) && U16At(m, 6) == |rds|
    requires U16At(m, 8) == |AuthorityRRs(a)| && U16At(m, 10) == 0
    requires At(m, 12, QuestionBytes(query, q)) && At(m, 12 + |QuestionBytes(query, q)|, PointerRecords(rds, ttl))
    requires At(m, 12 + |QuestionBytes(query, q)| + |PointerRecords(rds, ttl)|, AuthorityBytes(a))
    requires |m| == 12 + |QuestionBytes(query, q)| + |PointerRecords(rds, ttl)| + |AuthorityBytes(a)|
    ensures Decode(m)
         == Some(Message(DecodeHeader(m), QuestionsOf(query, q), Owned(LabelsOf(q), ttl, rds), AuthorityRRs(a), []))
  {
    hide RDataFits, At, ParseQuery, PointerRecords, DecodeRRs, DecodeQuestions, AuthorityBytes, AuthorityFits,
      DecodeHeader, U16At, AllFit;
    var p1 := 12 + |QuestionBytes(query, q)|;
    QuestionPartReads(m, query, q);
    AnswersRead(m, query, q, rds, ttl);
    AuthorityReads(m, p1 + |PointerRecords(rds, ttl)|, a);
    NoRecords(m, |m|);
  }

  lemma NoRecords(m: bytes, pos: nat)
    ensures DecodeRRs(m, pos, 0) == Some(([], pos))
  {
  }

  lemma SectionsStand(m: bytes, header: bytes, question: bytes, answers: bytes, authority: bytes)
    requires |header| == 12 && m == header + (question + (answers + authority))
    ensures At(m, 0, header) && At(m, 12, question) && At(m, 12 + |question|, answers)
    ensures At(m, 12 + |question| + |answers|, authority) && |m| == 12 + |question| + |answers| + |authority|
  {
    assert At(m, 0, m);
    AtSum(m, 0, header, question + (answers + authority));
    AtSum(m, 12, question, answers + authority);
    AtSum(m, 12 + |question|, answers, authority);
  }
}

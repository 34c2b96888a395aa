/**
 DNS messages as section 4.1 of RFC 1035 describes them, and a decoder for them that knows
 nothing of the server. A name may end in a pointer to an earlier name (section 4.1.4). No
 limit is put on the length of a whole name.
 */
module DnsWire {
  import opened Seqs
  import opened DnsTypes

  // A domain name is the sequence of its labels, without the root.
  type Labels = seq<bytes>

  datatype Header = Header(id: uint16, qr: bool, opcode: nat, aa: bool, tc: bool, rd: bool, ra: bool,
                           z: nat, rcode: nat)

  datatype Question = Question(name: Labels, qtype: uint16, qclass: uint16)

  datatype RData =
    | A(ip: IPv4)
    | NS(host: Labels)
    | CNAME(target: Labels)
    | SOA(mname: Labels, rname: Labels, serial: uint32, refresh: uint32, retry: uint32, expire: uint32, minimum: uint32)
    | TXT(strings: seq<bytes>)

  datatype RR = RR(owner: Labels, rclass: uint16, ttl: uint32, rdata: RData)

  datatype Message = Message(
    header: Header, questions: seq<Question>, answers: seq<RR>, authority: seq<RR>, additional: seq<RR>)

  // TYPE values of section 3.2.2.
  const TYPE_A: uint16 := 1
  const TYPE_NS: uint16 := 2
  const TYPE_CNAME: uint16 := 5
  const TYPE_SOA: uint16 := 6
  const TYPE_TXT: uint16 := 16

  function TypeOf(rd: RData): uint16 {
    match rd
    case A(_) => TYPE_A
    case NS(_) => TYPE_NS
    case CNAME(_) => TYPE_CNAME
    case SOA(_, _, _, _, _, _, _) => TYPE_SOA
    case TXT(_) => TYPE_TXT
  }

  // ----- numbers ------------------------------------------------------------------------------

  function U16(n: uint16): bytes {
    [n / 256, n % 256]
  }

  function U32(n: uint32): bytes {
    U16(n / 0x1_0000) + U16(n % 0x1_0000)
  }

  function U16At(m: bytes, i: nat): uint16
    requires i + 2 <= |m|
  {
    m[i] as int * 256 + m[i + 1] as int
  }

  function U32At(m: bytes, i: nat): uint32
    requires i + 4 <= |m|
  {
    U16At(m, i) as int * 0x1_0000 + U16At(m, i + 2) as int
  }

  // x stands in m at position i.
  ghost predicate At(m: bytes, i: nat, x: bytes) {
    i + |x| <= |m| && m[i..i + |x|] == x
  }

  lemma AtSum(m: bytes, i: nat, x: bytes, y: bytes)
    ensures At(m, i, x + y) <==> At(m, i, x) && At(m, i + |x|, y)
  {
    if i + |x| + |y| <= |m| {
      assert m[i..i + |x + y|] == m[i..i + |x|] + m[i + |x|..i + |x| + |y|];
      if At(m, i, x + y) {
        assert (x + y)[..|x|] == x && (x + y)[|x|..] == y;
        assert m[i..i + |x|] == m[i..i + |x + y|][..|x|];
        assert m[i + |x|..i + |x| + |y|] == m[i..i + |x + y|][|x|..];
      }
    }
  }

  lemma AtIndex(m: bytes, i: nat, x: bytes, k: nat)
    requires At(m, i, x) && k < |x|
    ensures m[i + k] == x[k]
  {
    assert m[i..i + |x|][k] == m[i + k];
  }

  lemma U16Reads(m: bytes, i: nat, n: uint16)
    requires At(m, i, U16(n))
    ensures U16At(m, i) == n
  {
    AtIndex(m, i, U16(n), 0);
    AtIndex(m, i, U16(n), 1);
  }

  lemma U32Reads(m: bytes, i: nat, n: uint32)
    requires At(m, i, U32(n))
    ensures U32At(m, i) == n
  {
    AtSum(m, i, U16(n / 0x1_0000), U16(n % 0x1_0000));
    U16Reads(m, i, n / 0x1_0000);
    U16Reads(m, i + 2, n % 0x1_0000);
  }

  // ----- names ----------------------------------------------------------------------------------

  predicate LabelOk(l: bytes) {
    1 <= |l| <= 63
  }

  predicate LabelsOk(ls: Labels) {
    forall i :: 0 <= i < |ls| ==> LabelOk(ls[i])
  }

  // Length octet and octets of each label, then the zero of the root.
  function NameWire(ls: Labels): bytes
    requires LabelsOk(ls)
  {
    if ls == [] then [0] else ([|ls[0]|] + ls[0]) + NameWire(ls[1..])
  }

  datatype Named = Named(labels: Labels, next: nat)

  // The name at position pos. Pointers lead only before bound, which is where this name,
  // or the pointer's own target, starts.
  function DecodeName(m: bytes, pos: nat, bound: nat): Option<Named>
    decreases bound, |m| - pos
  {
    if pos >= |m| then None
    else if m[pos] == 0 then Some(Named([], pos + 1))
    else if m[pos] < 64 then
      if pos + 1 + m[pos] > |m| then None
      else
        var rest := DecodeName(m, pos + 1 + m[pos], bound);
        if rest.None? then None
        else Some(Named([m[pos + 1..pos + 1 + m[pos]]] + rest.value.labels, rest.value.next))
    else if m[pos] >= 192 then
      if pos + 2 > |m| then None
      else
        var target := (m[pos] as int - 192) * 256 + m[pos + 1] as int;
        if target >= bound then None
        else
          var there := DecodeName(m, target, target);
          if there.None? then None else Some(Named(there.value.labels, pos + 2))
    else None
  }

  // A length octet, that many octets, and what follows them.
  lemma FramedReads(m: bytes, pos: nat, s: bytes, rest: bytes)
    requires |s| <= 255 && At(m, pos, ([|s|] + s) + rest)
    ensures pos + 1 + |s| <= |m| && m[pos] == |s| && m[pos + 1..pos + 1 + |s|] == s
    ensures At(m, pos + 1 + |s|, rest) && |([|s|] + s) + rest| == 1 + |s| + |rest|
  {
    AtSum(m, pos, [|s|] + s, rest);
    AtSum(m, pos, [|s|], s);
    AtIndex(m, pos, [|s|], 0);
  }

  lemma NameStep(m: bytes, pos: nat, bound: nat, l: bytes, rest: Named)
    requires LabelOk(l) && pos + 1 + |l| <= |m| && m[pos] == |l| && m[pos + 1..pos + 1 + |l|] == l
    requires DecodeName(m, pos + 1 + |l|, bound) == Some(rest)
    ensures DecodeName(m, pos, bound) == Some(Named([l] + rest.labels, rest.next))
  {
  }

  lemma {:induction false} NameReads(m: bytes, pos: nat, bound: nat, ls: Labels)
    requires LabelsOk(ls) && At(m, pos, NameWire(ls))
    ensures DecodeName(m, pos, bound) == Some(Named(ls, pos + |NameWire(ls)|))
    decreases ls
  {
    if ls == [] {
      AtIndex(m, pos, [0], 0);
    } else {
      hide At, DecodeName;
      var l := ls[0];
      FramedReads(m, pos, l, NameWire(ls[1..]));
      NameReads(m, pos + 1 + |l|, bound, ls[1..]);
      NameStep(m, pos, bound, l, Named(ls[1..], pos + |NameWire(ls)|));
      assert ls == [l] + ls[1..];
    }
  }

  // ----- resource data -----------------------------------------------------------------------------

  predicate StringsOk(ss: seq<bytes>) {
    forall i :: 0 <= i < |ss| ==> |ss[i]| <= 255
  }

  function StringsWire(ss: seq<bytes>): bytes
    requires StringsOk(ss)
  {
    if ss == [] then [] else ([|ss[0]|] + ss[0]) + StringsWire(ss[1..])
  }

  predicate RDataOk(rd: RData) {
    match rd
    case A(_) => true
    case NS(h) => LabelsOk(h)
    case CNAME(t) => LabelsOk(t)
    case SOA(m, r, _, _, _, _, _) => LabelsOk(m) && LabelsOk(r)
    case TXT(ss) => StringsOk(ss)
  }

  function SOANumbers(rd: RData): bytes
    requires rd.SOA?
  {
    U32(rd.serial) + (U32(rd.refresh) + (U32(rd.retry) + (U32(rd.expire) + U32(rd.minimum))))
  }

  function RDataWire(rd: RData): bytes
    requires RDataOk(rd)
  {
    match rd
    case A(ip) => ip
    case NS(h) => NameWire(h)
    case CNAME(t) => NameWire(t)
    case SOA(m, r, _, _, _, _, _) => NameWire(m) + (NameWire(r) + SOANumbers(rd))
    case TXT(ss) => StringsWire(ss)
  }

  // Character strings that fill m from pos up to end.
  function DecodeStrings(m: bytes, pos: nat, end: nat): Option<seq<bytes>>
    requires end <= |m|
    decreases end - pos
  {
    if pos >= end then Some([])
    else if pos + 1 + m[pos] > end then None
    else
      var rest := DecodeStrings(m, pos + 1 + m[pos], end);
      if rest.None? then None else Some([m[pos + 1..pos + 1 + m[pos]]] + rest.value)
  }

  // A name that fills the resource data exactly.
  function DecodeWholeName(m: bytes, pos: nat, len: nat): Option<Labels> {
    var n := DecodeName(m, pos, pos);
    if n.None? || n.value.next != pos + len then None else Some(n.value.labels)
  }

  function DecodeSOA(m: bytes, pos: nat, len: nat): Option<RData>
    requires pos + len <= |m|
  {
    var mn := DecodeName(m, pos, pos);
    if mn.None? then None
    else
      var rn := DecodeName(m, mn.value.next, mn.value.next);
      if rn.None? || rn.value.next + 20 != pos + len then None
      else
        var n := rn.value.next;
        Some(SOA(mn.value.labels, rn.value.labels,
                 U32At(m, n), U32At(m, n + 4), U32At(m, n + 8), U32At(m, n + 12), U32At(m, n + 16)))
  }

  function DecodeRData(m: bytes, pos: nat, len: nat, rtype: uint16): Option<RData>
    requires pos + len <= |m|
  {
    if rtype == TYPE_A then if len == 4 then Some(A(m[pos..pos + 4])) else None
    else if rtype == TYPE_NS then
      var n := DecodeWholeName(m, pos, len);
      if n.None? then None else Some(NS(n.value))
    else if rtype == TYPE_CNAME then
      var n := DecodeWholeName(m, pos, len);
      if n.None? then None else Some(CNAME(n.value))
    else if rtype == TYPE_SOA then DecodeSOA(m, pos, len)
    else if rtype == TYPE_TXT then
      var ss := DecodeStrings(m, pos, pos + len);
      if ss.None? then None else Some(TXT(ss.value))
    else None
  }

  lemma {:induction false} StringsRead(m: bytes, pos: nat, ss: seq<bytes>)
    requires StringsOk(ss) && At(m, pos, StringsWire(ss))
    ensures DecodeStrings(m, pos, pos + |StringsWire(ss)|) == Some(ss)
    decreases ss
  {
    if ss != [] {
      hide At;
      var s := ss[0];
      FramedReads(m, pos, s, StringsWire(ss[1..]));
      StringsRead(m, pos + 1 + |s|, ss[1..]);
      assert ss == [s] + ss[1..];
    }
  }

  lemma SOAReads(m: bytes, pos: nat, rd: RData)
    requires rd.SOA? && RDataOk(rd) && At(m, pos, RDataWire(rd))
    ensures DecodeSOA(m, pos, |RDataWire(rd)|) == Some(rd)
  {
    hide NameWire, DecodeName, SOANumbers, LabelsOk, U32At;
    var mw, rw := NameWire(rd.mname), NameWire(rd.rname);
    SOANumbersLength(rd);
    AtSum(m, pos, mw, rw + SOANumbers(rd));
    AtSum(m, pos + |mw|, rw, SOANumbers(rd));
    NameReads(m, pos, pos, rd.mname);
    NameReads(m, pos + |mw|, pos + |mw|, rd.rname);
    NumbersRead(m, pos + |mw| + |rw|, rd);
  }

  lemma SOANumbersLength(rd: RData)
    requires rd.SOA?
    ensures |SOANumbers(rd)| == 20
  {
  }

  lemma NumbersRead(m: bytes, n: nat, rd: RData)
    requires rd.SOA? && At(m, n, SOANumbers(rd))
    ensures U32At(m, n) == rd.serial && U32At(m, n + 4) == rd.refresh && U32At(m, n + 8) == rd.retry
    ensures U32At(m, n + 12) == rd.expire && U32At(m, n + 16) == rd.minimum
  {
    AtSum(m, n, U32(rd.serial), U32(rd.refresh) + (U32(rd.retry) + (U32(rd.expire) + U32(rd.minimum))));
    AtSum(m, n + 4, U32(rd.refresh), U32(rd.retry) + (U32(rd.expire) + U32(rd.minimum)));
    AtSum(m, n + 8, U32(rd.retry), U32(rd.expire) + U32(rd.minimum));
    AtSum(m, n + 12, U32(rd.expire), U32(rd.minimum));
    U32Reads(m, n, rd.serial);
    U32Reads(m, n + 4, rd.refresh);
    U32Reads(m, n + 8, rd.retry);
    U32Reads(m, n + 12, rd.expire);
    U32Reads(m, n + 16, rd.minimum);
  }

  lemma RDataReads(m: bytes, pos: nat, rd: RData)
    requires RDataOk(rd) && At(m, pos, RDataWire(rd))
    ensures DecodeRData(m, pos, |RDataWire(rd)|, TypeOf(rd)) == Some(rd)
  {
    match rd
    case A(ip) =>
    case NS(h) => NameReads(m, pos, pos, h);
    case CNAME(t) => NameReads(m, pos, pos, t);
    case SOA(_, _, _, _, _, _, _) => SOAReads(m, pos, rd);
    case TXT(ss) => StringsRead(m, pos, ss);
  }

  // ----- resource records ----------------------------------------------------------------------------

  // TYPE, CLASS, TTL, RDLENGTH and RDATA, behind the owner name.
  function RRTail(rclass: uint16, ttl: uint32, rd: RData): bytes
    requires RDataOk(rd) && |RDataWire(rd)| < 0x1_0000
  {
    U16(TypeOf(rd)) + (U16(rclass) + (U32(ttl) + (U16(|RDataWire(rd)|) + RDataWire(rd))))
  }

  datatype Record = Record(rr: RR, next: nat)

  function DecodeRR(m: bytes, pos: nat): Option<Record> {
    var owner := DecodeName(m, pos, pos);
    if owner.None? || owner.value.next + 10 > |m| then None
    else
      var n := owner.value.next;
      var len := U16At(m, n + 8);
      if n + 10 + len > |m| then None
      else
        var rd := DecodeRData(m, n + 10, len, U16At(m, n));
        if rd.None? then None
        else Some(Record(RR(owner.value.labels, U16At(m, n + 2), U32At(m, n + 4), rd.value), n + 10 + len))
  }

  function DecodeRRs(m: bytes, pos: nat, count: nat): Option<(seq<RR>, nat)>
    decreases count
  {
    if count == 0 then Some(([], pos))
    else
      var first := DecodeRR(m, pos);
      if first.None? then None
      else
        var rest := DecodeRRs(m, first.value.next, count - 1);
        if rest.None? then None else Some(([first.value.rr] + rest.value.0, rest.value.1))
  }

  lemma TailReads(m: bytes, n: nat, rclass: uint16, ttl: uint32, rd: RData)
    requires RDataOk(rd) && |RDataWire(rd)| < 0x1_0000 && At(m, n, RRTail(rclass, ttl, rd))
    ensures n + 10 + |RDataWire(rd)| <= |m| && |RRTail(rclass, ttl, rd)| == 10 + |RDataWire(rd)|
    ensures U16At(m, n) == TypeOf(rd) && U16At(m, n + 2) == rclass && U32At(m, n + 4) == ttl
    ensures U16At(m, n + 8) == |RDataWire(rd)| && At(m, n + 10, RDataWire(rd))
  {
    var w := RDataWire(rd);
    AtSum(m, n, U16(TypeOf(rd)), U16(rclass) + (U32(ttl) + (U16(|w|) + w)));
    AtSum(m, n + 2, U16(rclass), U32(ttl) + (U16(|w|) + w));
    AtSum(m, n + 4, U32(ttl), U16(|w|) + w);
    AtSum(m, n + 8, U16(|w|), w);
    U16Reads(m, n, TypeOf(rd));
    U16Reads(m, n + 2, rclass);
    U32Reads(m, n + 4, ttl);
    U16Reads(m, n + 8, |w|);
  }

  lemma RRReads(m: bytes, pos: nat, owner: Named, rclass: uint16, ttl: uint32, rd: RData)
    requires RDataOk(rd) && |RDataWire(rd)| < 0x1_0000
    requires DecodeName(m, pos, pos) == Some(owner) && At(m, owner.next, RRTail(rclass, ttl, rd))
    ensures DecodeRR(m, pos)
         == Some(Record(RR(owner.labels, rclass, ttl, rd), owner.next + |RRTail(rclass, ttl, rd)|))
  {
    TailReads(m, owner.next, rclass, ttl, rd);
    RDataReads(m, owner.next + 10, rd);
  }

  // ----- whole messages -------------------------------------------------------------------------------

  function DecodeHeader(m: bytes): Header
    requires |m| >= 12
  {
    Header(U16At(m, 0), m[2] / 128 == 1, (m[2] / 8) % 16, (m[2] / 4) % 2 == 1, (m[2] / 2) % 2 == 1, m[2] % 2 == 1,
           m[3] / 128 == 1, (m[3] / 16) % 8, m[3] % 16)
  }

  function DecodeQuestions(m: bytes, pos: nat, count: nat): Option<(seq<Question>, nat)>
    decreases count
  {
    if count == 0 then Some(([], pos))
    else
      var name := DecodeName(m, pos, pos);
      if name.None? || name.value.next + 4 > |m| then None
      else
        var n := name.value.next;
        var rest := DecodeQuestions(m, n + 4, count - 1);
        if rest.None? then None
        else Some(([Question(name.value.labels, U16At(m, n), U16At(m, n + 2))] + rest.value.0, rest.value.1))
  }

  // A message decodes if all four sections are as long as the header says and nothing
  // follows them.
  function Decode(m: bytes): Option<Message> {
    if |m| < 12 then None
    else
      var qs := DecodeQuestions(m, 12, U16At(m, 4));
      if qs.None? then None
      else
        var an := DecodeRRs(m, qs.value.1, U16At(m, 6));
        if an.None? then None
        else
          var ns := DecodeRRs(m, an.value.1, U16At(m, 8));
          if ns.None? then None
          else
            var ar := DecodeRRs(m, ns.value.1, U16At(m, 10));
            if ar.None? || ar.value.1 != |m| then None
            else Some(Message(DecodeHeader(m), qs.value.0, an.value.0, ns.value.0, ar.value.0))
  }

  // ----- one step of each section ---------------------------------------------------------------------

  lemma RRsStep(m: bytes, pos: nat, first: Record, count: nat, rest: seq<RR>, end: nat)
    requires DecodeRR(m, pos) == Some(first) && DecodeRRs(m, first.next, count) == Some((rest, end))
    ensures DecodeRRs(m, pos, count + 1) == Some(([first.rr] + rest, end))
  {
  }

  lemma OneQuestion(m: bytes, pos: nat, name: Named)
    requires DecodeName(m, pos, pos) == Some(name) && name.next + 4 <= |m|
    ensures DecodeQuestions(m, pos, 1)
         == Some(([Question(name.labels, U16At(m, name.next), U16At(m, name.next + 2))], name.next + 4))
  {
    var q := Question(name.labels, U16At(m, name.next), U16At(m, name.next + 2));
    assert DecodeQuestions(m, name.next + 4, 0) == Some(([], name.next + 4));
    assert [q] + [] == [q];
  }

  lemma OneRR(m: bytes, pos: nat, first: Record)
    requires DecodeRR(m, pos) == Some(first)
    ensures DecodeRRs(m, pos, 1) == Some(([first.rr], first.next))
  {
    RRsStep(m, pos, first, 0, [], first.next);
    assert [first.rr] + [] == [first.rr];
  }
}

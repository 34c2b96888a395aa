/**
 Reading the question of a query, and encoding names and TXT values
 (parseQueryName and encodeTXTStrings in internal/dnsserver/dnsserver.go, encodeName in
 internal/dnsserver/zones.go). A string's characters stand for its bytes.
 */
module DnsNames {
  import opened Seqs
  import opened Text
  import opened DnsTypes
  import opened DnsWire

  function ToBytes(s: string): (b: bytes)
    ensures |b| == |s| && forall i :: 0 <= i < |s| ==> b[i] == (s[i] as int) % 256
  {
    seq(|s|, i requires 0 <= i < |s| => (s[i] as int) % 256)
  }

  function ToText(b: bytes): (s: string)
    ensures |s| == |b| && forall i :: 0 <= i < |b| ==> s[i] == (b[i] as char)
  {
    seq(|b|, i requires 0 <= i < |b| => (b[i] as char))
  }

  // ----- splitting a name into labels ---------------------------------------------------------

  function SplitDots(s: string): (parts: seq<string>)
    ensures parts != []
  {
    if s == "" then [""]
    else
      var rest := SplitDots(s[1..]);
      if s[0] == '.' then [""] + rest else [[s[0]] + rest[0]] + rest[1..]
  }

  lemma JoinHead(c: char, parts: seq<string>)
    requires parts != []
    ensures Join([[c] + parts[0]] + parts[1..], ".") == [c] + Join(parts, ".")
  {
    var all := [[c] + parts[0]] + parts[1..];
    assert all[1..] == parts[1..];
    if |parts| > 1 {
      Assoc([c], parts[0], "." + Join(parts[1..], "."));
    }
  }

  // The labels are the pieces between the dots.
  lemma {:induction false} SplitDotsMeans(s: string)
    ensures Join(SplitDots(s), ".") == s
    ensures forall i :: 0 <= i < |SplitDots(s)| ==> '.' !in SplitDots(s)[i]
  {
    if s != "" {
      SplitDotsMeans(s[1..]);
      var rest, all := SplitDots(s[1..]), SplitDots(s);
      if s[0] == '.' {
        assert all[1..] == rest;
        assert s == "." + s[1..];
      } else {
        assert all[1..] == rest[1..];
        assert s == [s[0]] + s[1..];
        JoinHead(s[0], rest);
      }
    }
  }

  function LabelBytes(parts: seq<string>): Labels {
    Map(ToBytes, parts)
  }

  // The labels a configured name stands for; a final dot does not matter.
  function NameLabels(name: string): Labels {
    var t := TrimSuffix(name, ".");
    if t == "" then [] else LabelBytes(SplitDots(t))
  }

  // What encodeName writes: length octets are cut to eight bits.
  function EncodeParts(parts: seq<string>): bytes {
    if parts == [] then [] else ([|parts[0]| % 256] + ToBytes(parts[0])) + EncodeParts(parts[1..])
  }

  function EncodedName(name: string): bytes {
    var t := TrimSuffix(name, ".");
    if t == "" then [0] else EncodeParts(SplitDots(t)) + [0]
  }

  lemma {:induction false} EncodePartsSnoc(parts: seq<string>, p: string)
    ensures EncodeParts(parts + [p]) == EncodeParts(parts) + ([|p| % 256] + ToBytes(p))
  {
    if parts == [] {
      assert (parts + [p])[1..] == [];
    } else {
      assert (parts + [p])[1..] == parts[1..] + [p];
      EncodePartsSnoc(parts[1..], p);
      Assoc([|parts[0]| % 256] + ToBytes(parts[0]), EncodeParts(parts[1..]), [|p| % 256] + ToBytes(p));
    }
  }

  method EncodeName(rawName: string) returns (out: bytes)
    ensures out == EncodedName(rawName)
  {
    var name := TrimSuffix(rawName, ".");
    if name == "" {
      return [0];
    }
    var parts := SplitDots(name);
    out := [];
    for i := 0 to |parts|
      invariant out == EncodeParts(parts[..i])
    {
      assert parts[..i + 1] == parts[..i] + [parts[i]];
      EncodePartsSnoc(parts[..i], parts[i]);
      Assoc(out, [|parts[i]| % 256], ToBytes(parts[i]));
      out := out + [|parts[i]| % 256];
      out := out + ToBytes(parts[i]);
    }
    assert parts[..|parts|] == parts;
    out := out + [0];
  }

  // A configured name with labels of 1 to 63 octets.
  predicate NameOk(name: string) {
    LabelsOk(NameLabels(name))
  }

  lemma {:induction false} EncodePartsIsWire(parts: seq<string>)
    requires LabelsOk(LabelBytes(parts))
    ensures EncodeParts(parts) + [0] == NameWire(LabelBytes(parts))
  {
    if parts != [] {
      var ls := LabelBytes(parts);
      assert ls[0] == ToBytes(parts[0]) && ls[1..] == LabelBytes(parts[1..]);
      EncodePartsIsWire(parts[1..]);
      Assoc([|parts[0]| % 256] + ToBytes(parts[0]), EncodeParts(parts[1..]), [0]);
    }
  }

  // Names with legal labels are encoded as the standard says.
  lemma EncodedNameIsWire(name: string)
    requires NameOk(name)
    ensures EncodedName(name) == NameWire(NameLabels(name))
  {
    var t := TrimSuffix(name, ".");
    if t != "" {
      EncodePartsIsWire(SplitDots(t));
    }
  }

  // ----- the question of a query ------------------------------------------------------------------

  datatype Query = Malformed | Parsed(labels: Labels, qtype: uint16, end: nat)

  datatype Scan = Scan(labels: Labels, pos: nat)

  // The labels from pos on, up to the zero octet or the end of the message.
  function ScanLabels(m: bytes, pos: nat): Option<Scan>
    decreases |m| - pos
  {
    if pos >= |m| then Some(Scan([], pos))
    else if m[pos] == 0 then Some(Scan([], pos + 1))
    else if m[pos] >= 64 || pos + 1 + m[pos] > |m| then None
    else
      var rest := ScanLabels(m, pos + 1 + m[pos]);
      if rest.None? then None else Some(Scan([m[pos + 1..pos + 1 + m[pos]]] + rest.value.labels, rest.value.pos))
  }

  function ParseQuery(m: bytes): Query {
    if |m| < 12 then Malformed
    else
      var s := ScanLabels(m, 12);
      if s.None? || s.value.pos + 4 > |m| then Malformed
      else Parsed(s.value.labels, U16At(m, s.value.pos), s.value.pos + 4)
  }

  // The name lookups use: labels joined with dots, in lower case.
  function QueryName(labels: Labels): string {
    ToLower(Join(Map(ToText, labels), "."))
  }

  // ("", 0, 0) stands for a malformed question.
  method ParseQueryName(m: bytes) returns (name: string, qtype: uint16, qEnd: nat)
    ensures match ParseQuery(m)
            case Malformed => name == "" && qtype == 0 && qEnd == 0
            case Parsed(ls, t, e) => name == QueryName(ls) && qtype == t && qEnd == e
  {
    if |m| < 12 {
      return "", 0, 0;
    }
    var pos := 12;
    var labels: seq<string> := [];
    ghost var got: Labels := [];
    var stopped := false;
    ghost var whole := ScanLabels(m, 12);
    assert whole.Some? ==> got + whole.value.labels == whole.value.labels;
    while pos < |m| && !stopped
      invariant 12 <= pos && labels == Map(ToText, got)
      invariant !stopped ==>
        var rest := ScanLabels(m, pos);
        ScanLabels(m, 12) == if rest.None? then None else Some(Scan(got + rest.value.labels, rest.value.pos))
      invariant stopped ==> ScanLabels(m, 12) == Some(Scan(got, pos))
      decreases if stopped then 0 else 1, |m| - pos
    {
      var llen := m[pos];
      if llen == 0 {
        assert got + [] == got;
        pos := pos + 1;
        stopped := true;
      } else if llen >= 64 {
        return "", 0, 0;
      } else if pos + 1 + llen > |m| {
        return "", 0, 0;
      } else {
        var l := m[pos + 1..pos + 1 + llen];
        ghost var rest := ScanLabels(m, pos + 1 + llen);
        if rest.Some? {
          Assoc(got, [l], rest.value.labels);
        }
        labels := labels + [ToText(l)];
        got := got + [l];
        pos := pos + 1 + llen;
      }
    }
    assert got + [] == got;
    if pos + 4 > |m| {
      return "", 0, 0;
    }
    return ToLower(Join(labels, ".")), U16At(m, pos), pos + 4;
  }

  // The labels read stand in the message as the standard writes a name, zero octet
  // included, if four more octets follow.
  lemma {:induction false} ScanIsWire(m: bytes, pos: nat)
    requires ScanLabels(m, pos).Some? && ScanLabels(m, pos).value.pos < |m|
    ensures var s := ScanLabels(m, pos).value;
            LabelsOk(s.labels) && At(m, pos, NameWire(s.labels)) && s.pos == pos + |NameWire(s.labels)|
    decreases |m| - pos
  {
    if m[pos] != 0 {
      hide At;
      var next := pos + 1 + m[pos];
      var l := m[pos + 1..next];
      var rest := ScanLabels(m, next).value;
      ScanIsWire(m, next);
      var all := [l] + rest.labels;
      assert all[0] == l && all[1..] == rest.labels;
      FramedStands(m, pos, l, NameWire(rest.labels));
    }
  }

  lemma FramedStands(m: bytes, pos: nat, l: bytes, rest: bytes)
    requires LabelOk(l) && pos + 1 + |l| <= |m| && m[pos] == |l| && m[pos + 1..pos + 1 + |l|] == l
    requires At(m, pos + 1 + |l|, rest)
    ensures At(m, pos, ([|l|] + l) + rest) && |([|l|] + l) + rest| == 1 + |l| + |rest|
  {
    assert At(m, pos, [m[pos]]) && At(m, pos + 1, l);
    AtSum(m, pos, [|l|], l);
    AtSum(m, pos, [|l|] + l, rest);
  }

  lemma U16OfOctets(n: uint16, hi: byte, lo: byte)
    requires n as int == hi as int * 256 + lo as int
    ensures U16(n) == [hi, lo]
  {
  }

  // The question section that responses echo: the name, the type and the class.
  lemma QuestionIsWire(m: bytes)
    requires ParseQuery(m).Parsed?
    ensures var q := ParseQuery(m);
            LabelsOk(q.labels) && 12 < q.end <= |m| && q.end - 12 == |NameWire(q.labels)| + 4
            && m[12..q.end] == NameWire(q.labels) + m[q.end - 4..q.end]
            && U16(q.qtype) == m[q.end - 4..q.end - 2]
  {
    hide ScanLabels, NameWire, LabelsOk, U16;
    var q := ParseQuery(m);
    ScanIsWire(m, 12);
    WireIsNotEmpty(q.labels);
    assert m[12..q.end] == m[12..q.end - 4] + m[q.end - 4..q.end];
    U16OfOctets(q.qtype, m[q.end - 4], m[q.end - 3]);
    assert m[q.end - 4..q.end - 2] == [m[q.end - 4], m[q.end - 3]];
  }

  // A legal name in wire form is scanned as its labels.
  lemma {:induction false} WireScans(m: bytes, pos: nat, ls: Labels)
    requires LabelsOk(ls) && At(m, pos, NameWire(ls))
    ensures ScanLabels(m, pos) == Some(Scan(ls, pos + |NameWire(ls)|))
    decreases ls
  {
    if ls == [] {
      AtIndex(m, pos, [0], 0);
    } else {
      hide At, ScanLabels;
      var l, rest := ls[0], NameWire(ls[1..]);
      FramedReads(m, pos, l, rest);
      WireScans(m, pos + 1 + |l|, ls[1..]);
      ScanStep(m, pos, l, Scan(ls[1..], pos + |NameWire(ls)|));
      assert ls == [l] + ls[1..];
    }
  }

  lemma ScanStep(m: bytes, pos: nat, l: bytes, rest: Scan)
    requires LabelOk(l) && pos + 1 + |l| <= |m| && m[pos] == |l| && m[pos + 1..pos + 1 + |l|] == l
    requires ScanLabels(m, pos + 1 + |l|) == Some(rest)
    ensures ScanLabels(m, pos) == Some(Scan([l] + rest.labels, rest.pos))
  {
  }

  // A query parses to these labels and this type exactly when its question is their wire
  // form with the type and two more octets behind it.
  lemma ParsesIffWire(m: bytes, ls: Labels, qtype: uint16, end: nat)
    ensures ParseQuery(m) == Parsed(ls, qtype, end)
       <==> |m| >= 12 && LabelsOk(ls) && end == 12 + |NameWire(ls)| + 4 <= |m| && At(m, 12, NameWire(ls) + U16(qtype))
  {
    hide ScanLabels, NameWire, LabelsOk, U16, At;
    if ParseQuery(m) == Parsed(ls, qtype, end) {
      QuestionIsWire(m);
      QuestionStands(m, NameWire(ls), U16(qtype), end);
    }
    if |m| >= 12 && LabelsOk(ls) && end == 12 + |NameWire(ls)| + 4 <= |m| && At(m, 12, NameWire(ls) + U16(qtype)) {
      AtSum(m, 12, NameWire(ls), U16(qtype));
      WireScans(m, 12, ls);
      U16Reads(m, 12 + |NameWire(ls)|, qtype);
    }
  }

  lemma QuestionStands(m: bytes, name: bytes, qtype: bytes, end: nat)
    requires 12 + |name| + 4 == end <= |m| && |qtype| == 2
    requires m[12..end] == name + m[end - 4..end] && m[end - 4..end - 2] == qtype
    ensures At(m, 12, name + qtype)
  {
    assert m[12..end - 4] == m[12..end][..|name|] == name;
    AtSum(m, 12, name, qtype);
  }

  lemma WireIsNotEmpty(ls: Labels)
    requires LabelsOk(ls)
    ensures NameWire(ls) != []
  {
  }

  // ----- TXT values ------------------------------------------------------------------------------------

  // A value cut into character strings of at most 255 octets.
  function Segments(v: bytes): (ss: seq<bytes>)
    ensures StringsOk(ss) && ss != []
    decreases |v|
  {
    if |v| <= 255 then [v] else [v[..255]] + Segments(v[255..])
  }

  // The segments hold the whole value, in order.
  lemma {:induction false} SegmentsHold(v: bytes)
    ensures Flatten(Segments(v)) == v
    ensures forall i :: 0 <= i < |Segments(v)| - 1 ==> |Segments(v)[i]| == 255
    decreases |v|
  {
    if |v| <= 255 {
      FlattenOne(v);
    } else {
      SegmentsHold(v[255..]);
      assert Segments(v)[1..] == Segments(v[255..]);
      assert v == v[..255] + v[255..];
    }
  }

  method EncodeTXTStrings(value: bytes) returns (out: bytes)
    ensures out == StringsWire(Segments(value))
  {
    out := [];
    var v := value;
    while |v| > 255
      invariant StringsWire(Segments(value)) == out + StringsWire(Segments(v))
      decreases |v|
    {
      assert Segments(v)[1..] == Segments(v[255..]);
      Assoc(out, [255] + v[..255], StringsWire(Segments(v[255..])));
      Assoc(out, [255], v[..255]);
      out := out + [255];
      out := out + v[..255];
      v := v[255..];
    }
    assert StringsWire([v]) == ([|v|] + v) + StringsWire([]);
    out := out + [|v|];
    out := out + v;
  }
}

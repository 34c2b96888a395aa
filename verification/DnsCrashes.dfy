/**
 Which queries crash the server: address queries for the hosts in which the prefix and the
 suffix of a generated range overlap (Lookup in internal/dnsserver/generated.go as
 BuildResponse in internal/dnsserver/dnsserver.go reaches it).
 */
module DnsCrashes {
  import opened Seqs
  import opened Text
  import opened DnsTypes
  import opened DnsWire
  import opened DnsNames
  import opened DnsServer
  import opened DnsAnswers
  import GeneratedHosts

  // Range i is the first that does not miss the host, and it panics.
  ghost predicate PanicsAt(ranges: seq<GeneratedHosts.Range>, host: string, i: nat) {
    i < |ranges| && GeneratedHosts.OverlapHost(ranges[i].pattern, Normalize(host))
    && forall j :: 0 <= j < i ==> GeneratedHosts.Lookup(ranges[j], host).Miss?
  }

  lemma {:induction false} GeneratedPanics(ranges: seq<GeneratedHosts.Range>, host: string)
    ensures GeneratedFrom(ranges, host).Panics? <==> exists i: nat :: PanicsAt(ranges, host, i)
  {
    hide GeneratedHosts.Lookup, GeneratedHosts.OverlapHost, Normalize;
    if ranges != [] {
      GeneratedHosts.PanicsExactly(ranges[0], host);
      GeneratedPanics(ranges[1..], host);
      if i: nat :| PanicsAt(ranges, host, i) {
        if i > 0 {
          assert forall j :: 0 <= j < i - 1 ==> ranges[1..][j] == ranges[j + 1];
          assert PanicsAt(ranges[1..], host, i - 1);
        }
      }
      if GeneratedHosts.Lookup(ranges[0], host).Panics? {
        assert PanicsAt(ranges, host, 0);
      } else if GeneratedFrom(ranges, host).Panics? {
        var i: nat :| PanicsAt(ranges[1..], host, i);
        assert forall j :: 0 < j <= i ==> ranges[1..][j - 1] == ranges[j];
        assert PanicsAt(ranges, host, i + 1);
      }
    }
  }

  // The decision to crash, without the bytes.
  ghost predicate CrashName(q: Query, zones: Zones) {
    var host := Normalize(NameOf(q));
    && q.Parsed? && q.qtype == TYPE_A && NameOf(q) != ""
    && host !in zones.records && exists i: nat :: PanicsAt(zones.generated, host, i)
  }

  lemma CrashDecided(q: Query, f: Faults, zones: Option<Zones>, txt: Option<map<string, TxtEntry>>)
    ensures Decide(q, f, zones, txt).Crash? <==> Quiet(f) && zones.Some? && CrashName(q, zones.value)
  {
    hide LookupApex, QueryName, ApexTTL, HasPrefix, PanicsAt, Normalize;
    if zones.Some? {
      GeneratedPanics(zones.value.generated, Normalize(NameOf(q)));
    }
  }

  // A query crashes the server if and only if no failure answers it first and it asks for
  // the address of a name that is no record, that no earlier range accepts, and that is the
  // prefix of a range followed by what the overlap leaves of its suffix.
  lemma CrashesIff(query: bytes, f: Faults, zones: Option<Zones>, txt: Option<map<string, TxtEntry>>)
    ensures Respond(query, f, zones, txt).Crashed?
       <==> Quiet(f) && zones.Some? && CrashName(ParseQuery(query), zones.value)
  {
    hide Decide, PanicsAt, Normalize, QueryName, Emit;
    var q := ParseQuery(query);
    CrashDecided(q, f, zones, txt);
    DecideShape(q, f, zones, txt);
  }

  // ----- queries that do it ---------------------------------------------------------------------

  // A plain query for the address of a host.
  function AddressQuery(host: string): (m: bytes)
    ensures |m| >= 12
  {
    seq(12, i => 0) + (EncodedName(host) + [0, 1, 0, 1])
  }

  predicate Octets(s: string) {
    forall i :: 0 <= i < |s| ==> s[i] < '\U{100}'
  }

  lemma {:induction false} PiecesReadBack(s: string)
    requires Octets(s)
    ensures Map(ToText, LabelBytes(SplitDots(s))) == SplitDots(s)
  {
    var parts := SplitDots(s);
    forall i | 0 <= i < |parts|
      ensures ToText(ToBytes(parts[i])) == parts[i]
    {
      PieceOctets(s, i);
    }
  }

  lemma {:induction false} PieceOctets(s: string, i: nat)
    requires Octets(s) && i < |SplitDots(s)|
    ensures Octets(SplitDots(s)[i])
  {
    if s != "" {
      var rest := SplitDots(s[1..]);
      if s[0] == '.' {
        if i > 0 {
          PieceOctets(s[1..], i - 1);
        }
      } else {
        PieceOctets(s[1..], i);
      }
    }
  }

  // The host that the server reads out of the query.
  lemma AddressQueryReads(host: string)
    requires host != "" && Octets(host) && NameOk(host) && Normalize(host) == host
    ensures var q := ParseQuery(AddressQuery(host)); q.Parsed? && q.qtype == TYPE_A && NameOf(q) == host
  {
    hide ParseQuery, NameWire, LabelsOk, EncodedName, SplitDots, At;
    var m, ls, name := AddressQuery(host), NameLabels(host), EncodedName(host);
    EncodedNameIsWire(host);
    AddressStands(m, name);
    ParsesIffWire(m, ls, TYPE_A, 12 + |name| + 4);
    assert TrimSuffix(host, ".") == host;
    PiecesReadBack(host);
    SplitDotsMeans(host);
  }

  lemma AddressStands(m: bytes, name: bytes)
    requires m == seq(12, i => 0) + (name + [0, 1, 0, 1])
    ensures At(m, 12, name + U16(TYPE_A)) && |m| == 12 + |name| + 4
  {
    assert m[12..12 + |name| + 2] == name + [0, 1];
  }

  // So any overlap whose host is a legal name crashes the server, unless a record or an
  // earlier range takes the host.
  lemma OverlapCrashes(zones: Zones, i: nat, host: string, txt: Option<map<string, TxtEntry>>)
    requires host != "" && Octets(host) && NameOk(host) && Normalize(host) == host
    requires host !in zones.records && PanicsAt(zones.generated, host, i)
    ensures Respond(AddressQuery(host), NO_FAULTS, Some(zones), txt).Crashed?
  {
    hide AddressQuery, NameOk, PanicsAt, Normalize, ParseQuery, NameOf, Respond;
    AddressQueryReads(host);
    CrashesIff(AddressQuery(host), NO_FAULTS, Some(zones), txt);
  }

  // For example, a range of hosts web.1.org, web.2.org and so on is crashed by a query for
  // web.org.
  lemma WebCrashes(records: map<string, ZoneEntry>, start: int, end: int, entry: ZoneEntry)
    requires "web.org" !in records
    ensures GeneratedHosts.ParsePattern("web.%d.org")
         == Some(GeneratedHosts.Pattern("web.", ".org", 0))
    ensures var p := GeneratedHosts.Pattern("web.", ".org", 0);
            var zones := Zones(records, [GeneratedHosts.Range(p, start, end, entry)], []);
            Respond(AddressQuery("web.org"), NO_FAULTS, Some(zones), None).Crashed?
  {
    hide AddressQuery, NameOk, Respond, GeneratedHosts.ParsePattern;
    var p, host := GeneratedHosts.Pattern("web.", ".org", 0), "web.org";
    var zones := Zones(records, [GeneratedHosts.Range(p, start, end, entry)], []);
    WebParses();
    WebIsLegal();
    assert p.prefix[3..] == p.suffix[..1] && host == p.prefix + p.suffix[1..];
    assert PanicsAt(zones.generated, host, 0);
    OverlapCrashes(zones, 0, host, None);
  }

  predicate NoCapitals(s: string) {
    forall i :: 0 <= i < |s| ==> !('A' <= s[i] <= 'Z')
  }

  lemma AlreadyNormal(s: string)
    requires NoCapitals(s) && s != "" && s[|s| - 1] != '.'
    ensures Normalize(s) == s
  {
    assert s[|s| - 1..] == [s[|s| - 1]];
    assert forall i :: 0 <= i < |s| ==> LowerChar(s[i]) == s[i];
  }

  lemma PlainPattern(prefix: string, suffix: string)
    requires NoCapitals(prefix) && NoCapitals(suffix) && '%' !in prefix && '%' !in suffix
    requires suffix != "" && suffix[|suffix| - 1] != '.'
    ensures GeneratedHosts.ParsePattern(prefix + "%d" + suffix) == Some(GeneratedHosts.Pattern(prefix, suffix, 0))
  {
    hide Normalize, GeneratedHosts.ParsePattern;
    AlreadyNormal(prefix + "%d" + suffix);
    assert GeneratedHosts.Placeholder("%d", 0);
    GeneratedHosts.ParsesExactly(prefix + "%d" + suffix, GeneratedHosts.Pattern(prefix, suffix, 0));
  }

  lemma WebParses()
    ensures GeneratedHosts.ParsePattern("web.%d.org")
         == Some(GeneratedHosts.Pattern("web.", ".org", 0))
  {
    hide GeneratedHosts.ParsePattern;
    var suffix := ".org";
    assert suffix[|suffix| - 1] == 'g';
    PlainPattern("web.", suffix);
    assert "web.%d.org" == "web." + "%d" + suffix;
  }

  lemma {:induction false} LabelAhead(piece: string, rest: string)
    requires '.' !in piece
    ensures SplitDots(piece + ("." + rest)) == [piece] + SplitDots(rest)
    ensures SplitDots(piece) == [piece]
  {
    var s := piece + ("." + rest);
    if piece == "" {
      assert s[1..] == rest;
    } else {
      LabelAhead(piece[1..], rest);
      assert s[1..] == piece[1..] + ("." + rest);
      assert [piece[0]] + piece[1..] == piece;
    }
  }

  lemma WebIsLegal()
    ensures var host := "web.org"; Octets(host) && NameOk(host) && Normalize(host) == host
  {
    hide SplitDots, Normalize, NameOk;
    var host := "web.org";
    assert host[|host| - 1] == 'g' && NoCapitals(host);
    AlreadyNormal(host);
    WebLabels();
  }

  lemma WebLabels()
    ensures NameOk("web.org")
  {
    hide SplitDots;
    var host := "web.org";
    LabelAhead("web", "org");
    LabelAhead("org", "");
    assert host == "web" + ("." + "org");
    assert SplitDots(host) == ["web", "org"];
    assert TrimSuffix(host, ".") == host by {
      assert host[|host| - 1] == 'g';
    }
  }
}

/**
 The in-memory registry of active failures (internal/control/registry.go): an expiring map
 that is pruned only while it is read. It refines a log of Set and Remove events. Times and
 the random draws against a failure's rate are parameters.
 */
module FailureRegistry {
  import opened Seqs

  datatype FailureSpec = FailureSpec(
    ftype: string, host: string, path: string, duration: int, rate: real,
    params: map<string, string>, sourceCIDRs: seq<string>)

  // A parsed CIDR block is an interval of addresses.
  datatype IPNet = IPNet(low: int, high: int) {
    predicate Contains(ip: int) {
      low <= ip <= high
    }
  }

  datatype ActiveFailure = ActiveFailure(spec: FailureSpec, expires: int, throttled: bool, nets: seq<IPNet>)

  function FailureKey(ftype: string, host: string, path: string): string {
    ftype + ":" + host + ":" + path
  }

  // The blocks that parse; the others are dropped.
  function ParsedNets(cidrs: seq<string>, parse: string -> Option<IPNet>): seq<IPNet> {
    if cidrs == [] then []
    else
      var n := |cidrs| - 1;
      ParsedNets(cidrs[..n], parse) + if parse(cidrs[n]).Some? then [parse(cidrs[n]).value] else []
  }

  function Activated(spec: FailureSpec, now: int, parse: string -> Option<IPNet>): ActiveFailure {
    ActiveFailure(spec, now + spec.duration, 0.0 < spec.rate < 1.0, ParsedNets(spec.sourceCIDRs, parse))
  }

  lemma {:induction false} ParsedNetsMeans(cidrs: seq<string>, parse: string -> Option<IPNet>)
    ensures forall n :: n in ParsedNets(cidrs, parse) <==> exists c :: c in cidrs && parse(c) == Some(n)
  {
    if cidrs != [] {
      var last := cidrs[|cidrs| - 1];
      ParsedNetsMeans(cidrs[..|cidrs| - 1], parse);
      assert forall c :: c in cidrs <==> c in cidrs[..|cidrs| - 1] || c == last;
      assert last in cidrs;
    }
  }

  // ----- the event log ------------------------------------------------------------------------

  datatype Event = SetEvent(key: string, failure: ActiveFailure) | RemoveEvent(key: string)

  // What the latest event on a key left there.
  function Latest(log: seq<Event>, key: string): Option<ActiveFailure> {
    if log == [] then None
    else
      var e := log[|log| - 1];
      if e.key != key then Latest(log[..|log| - 1], key)
      else if e.SetEvent? then Some(e.failure) else None
  }

  // The failure on a key at a time, if it has not expired.
  function Live(log: seq<Event>, key: string, now: int): Option<ActiveFailure> {
    var l := Latest(log, key);
    if l.Some? && now > l.value.expires then None else l
  }

  // A live failure is exactly one whose latest event is a Set that has not run out.
  lemma {:induction false} LiveIsLatestSet(log: seq<Event>, key: string, now: int, f: ActiveFailure)
    ensures Live(log, key, now) == Some(f)
       <==> now <= f.expires
            && exists i :: 0 <= i < |log| && log[i] == SetEvent(key, f)
                           && forall j :: i < j < |log| ==> log[j].key != key
  {
    LatestIsLast(log, key, f);
  }

  lemma {:induction false} LatestIsLast(log: seq<Event>, key: string, f: ActiveFailure)
    ensures Latest(log, key) == Some(f)
       <==> exists i :: 0 <= i < |log| && log[i] == SetEvent(key, f) && forall j :: i < j < |log| ==> log[j].key != key
  {
    if log != [] {
      var n := |log| - 1;
      LatestIsLast(log[..n], key, f);
      if log[n].key == key {
        assert log[n] == SetEvent(key, f) <==> Latest(log, key) == Some(f);
      } else {
        if i :| 0 <= i < n && log[..n][i] == SetEvent(key, f) && forall j :: i < j < n ==> log[..n][j].key != key {
          assert log[i] == SetEvent(key, f);
          assert forall j :: i < j < |log| ==> log[j].key != key by {
            assert forall j :: i < j < n ==> log[..n][j] == log[j];
          }
        }
        if i :| 0 <= i < |log| && log[i] == SetEvent(key, f) && forall j :: i < j < |log| ==> log[j].key != key {
          assert i < n && log[..n][i] == SetEvent(key, f);
          assert forall j :: i < j < n ==> log[..n][j].key != key;
        }
      }
    }
  }

  // Without a new event on its key, an expired failure never comes back, and a live one
  // stays the same until it expires: time alone decides.
  lemma {:induction false} OnlyEventsRevive(log: seq<Event>, more: seq<Event>, key: string, now: int, later: int)
    requires now <= later && forall i :: 0 <= i < |more| ==> more[i].key != key
    ensures Live(log + more, key, later).Some? ==> Live(log + more, key, later) == Live(log, key, now)
    ensures Live(log, key, now).None? ==> Live(log + more, key, later).None?
    decreases more
  {
    if more == [] {
      assert log + more == log;
    } else {
      var n := |more| - 1;
      assert (log + more)[..|log + more| - 1] == log + more[..n];
      OnlyEventsRevive(log, more[..n], key, now, later);
    }
  }

  // ----- answers, as functions of the log --------------------------------------------------------

  // The keys a lookup tries, most specific first.
  function Candidates(ftype: string, host: string, path: string): seq<string> {
    [FailureKey(ftype, host, path), FailureKey(ftype, host, ""), FailureKey(ftype, "", "")]
  }

  predicate Eligible(f: Option<ActiveFailure>) {
    f.Some? && f.value.spec.sourceCIDRs == []
  }

  predicate Rejected(f: ActiveFailure, draw: real) {
    f.throttled && draw >= f.spec.rate
  }

  function LookupAnswer(log: seq<Event>, keys: seq<string>, now: int, draw: real): Option<FailureSpec> {
    if keys == [] then None
    else
      var f := Live(log, keys[0], now);
      if !Eligible(f) then LookupAnswer(log, keys[1..], now, draw)
      else if Rejected(f.value, draw) then None
      else Some(f.value.spec)
  }

  // A lookup takes the most specific live failure that is not geo-restricted, and answers
  // with it unless its rate rejects the draw; it answers with nothing else.
  lemma {:induction false} LookupTakesFirstEligible(log: seq<Event>, keys: seq<string>, now: int, draw: real)
    ensures var r := LookupAnswer(log, keys, now, draw);
            (r.Some? <==> exists i :: 0 <= i < |keys| && FirstEligible(log, keys, now, i)
                                      && !Rejected(Live(log, keys[i], now).value, draw))
            && (r.Some? ==> r.value.sourceCIDRs == [])
            && forall i :: 0 <= i < |keys| && FirstEligible(log, keys, now, i) && r.Some? ==>
                 r.value == Live(log, keys[i], now).value.spec
  {
    if keys != [] {
      LookupTakesFirstEligible(log, keys[1..], now, draw);
      if Eligible(Live(log, keys[0], now)) {
        assert FirstEligible(log, keys, now, 0);
      } else {
        forall i | 0 < i < |keys|
          ensures FirstEligible(log, keys, now, i) <==> FirstEligible(log, keys[1..], now, i - 1)
        {
          FirstShifts(log, keys, now, i);
        }
        LookupShifts(log, keys, now, draw);
      }
    }
  }

  predicate FirstEligible(log: seq<Event>, keys: seq<string>, now: int, i: nat)
    requires i < |keys|
  {
    Eligible(Live(log, keys[i], now)) && forall j :: 0 <= j < i ==> !Eligible(Live(log, keys[j], now))
  }

  lemma FirstShifts(log: seq<Event>, keys: seq<string>, now: int, i: nat)
    requires 0 < i < |keys| && !Eligible(Live(log, keys[0], now))
    ensures FirstEligible(log, keys, now, i) <==> FirstEligible(log, keys[1..], now, i - 1)
  {
    if FirstEligible(log, keys[1..], now, i - 1) {
      forall j | 0 <= j < i
        ensures !Eligible(Live(log, keys[j], now))
      {
        if j > 0 {
          assert keys[1..][j - 1] == keys[j];
        }
      }
    }
  }

  lemma LookupShifts(log: seq<Event>, keys: seq<string>, now: int, draw: real)
    requires keys != [] && !FirstEligible(log, keys, now, 0)
    requires forall i :: 0 < i < |keys| ==>
               (FirstEligible(log, keys, now, i) <==> FirstEligible(log, keys[1..], now, i - 1))
    ensures (exists i :: 0 <= i < |keys| && FirstEligible(log, keys, now, i)
                         && !Rejected(Live(log, keys[i], now).value, draw))
       <==> (exists i :: 0 <= i < |keys| - 1 && FirstEligible(log, keys[1..], now, i)
                         && !Rejected(Live(log, keys[1..][i], now).value, draw))
  {
    if i :| 0 <= i < |keys| && FirstEligible(log, keys, now, i) && !Rejected(Live(log, keys[i], now).value, draw) {
      assert i > 0 && keys[1..][i - 1] == keys[i];
      assert FirstEligible(log, keys[1..], now, i - 1);
    }
    if i :| 0 <= i < |keys| - 1 && FirstEligible(log, keys[1..], now, i)
            && !Rejected(Live(log, keys[1..][i], now).value, draw) {
      assert keys[1..][i] == keys[i + 1];
      assert FirstEligible(log, keys, now, i + 1);
    }
  }

  // The answer of the failure that decides.
  predicate Answers(f: ActiveFailure, draw: real, r: Option<FailureSpec>) {
    if f.throttled && draw >= f.spec.rate then r.None? else r == Some(f.spec)
  }

  // A failure is live and answers whoever asks from anywhere.
  predicate Open(f: Option<ActiveFailure>) {
    f.Some? && f.value.spec.sourceCIDRs == []
  }

  // The failure on the type, host and path comes first, then the one on the type and host,
  // then the one on the type; no other decides.
  ghost predicate MostSpecific(log: seq<Event>, ftype: string, host: string, path: string, now: int, draw: real,
          r: Option<FailureSpec>)
  {
    var exact := Live(log, FailureKey(ftype, host, path), now);
    var onHost := Live(log, FailureKey(ftype, host, ""), now);
    var onType := Live(log, FailureKey(ftype, "", ""), now);
    if Open(exact) then Answers(exact.value, draw, r)
    else if Open(onHost) then Answers(onHost.value, draw, r)
    else if Open(onType) then Answers(onType.value, draw, r)
    else r.None?
  }

  lemma LookupIsMostSpecific(log: seq<Event>, ftype: string, host: string, path: string, now: int, draw: real)
    ensures MostSpecific(log, ftype, host, path, now, draw,
                         LookupAnswer(log, Candidates(ftype, host, path), now, draw))
  {
    hide Live, FailureKey;
    var onHost, onType := FailureKey(ftype, host, ""), FailureKey(ftype, "", "");
    var keys := Candidates(ftype, host, path);
    assert keys[1..] == [onHost, onType] && [onHost, onType][1..] == [onType] && [onType][1..] == [];
    assert LookupAnswer(log, [onType], now, draw)
        == if Open(Live(log, onType, now)) && !Rejected(Live(log, onType, now).value, draw)
           then Some(Live(log, onType, now).value.spec) else None;
  }

  // A failure that is set lives for its duration, and rejects the draws from its rate on if
  // that is a proper fraction, and none otherwise.
  lemma SetLives(log: seq<Event>, spec: FailureSpec, now: int, parse: string -> Option<IPNet>, later: int, draw: real)
    ensures var key, f := FailureKey(spec.ftype, spec.host, spec.path), Activated(spec, now, parse);
            (Live(log + [SetEvent(key, f)], key, later) == if later <= now + spec.duration then Some(f) else None)
            && (Answers(f, draw, None) <==> 0.0 < spec.rate < 1.0 && draw >= spec.rate)
            && forall ip :: Covers(f, ip)
                 <==> exists c :: c in spec.sourceCIDRs && parse(c).Some?
                                  && parse(c).value.low <= ip <= parse(c).value.high
  {
    var f := Activated(spec, now, parse);
    LatestAfter(log, SetEvent(FailureKey(spec.ftype, spec.host, spec.path), f));
    ParsedNetsMeans(spec.sourceCIDRs, parse);
    forall ip
      ensures Covers(f, ip)
         <==> exists c :: c in spec.sourceCIDRs && parse(c).Some? && parse(c).value.low <= ip <= parse(c).value.high
    {
      if c :| c in spec.sourceCIDRs && parse(c).Some? && parse(c).value.low <= ip <= parse(c).value.high {
        assert parse(c).value in f.nets;
      }
      if i :| 0 <= i < |f.nets| && f.nets[i].Contains(ip) {
        assert f.nets[i] in f.nets;
      }
    }
  }

  // A geo failure matches an address in any of its blocks.
  predicate Covers(f: ActiveFailure, ip: int) {
    exists i :: 0 <= i < |f.nets| && f.nets[i].Contains(ip)
  }

  // ----- keys -------------------------------------------------------------------------------------

  lemma {:induction false} SameField(a: string, b: string, x: string, y: string)
    requires ':' !in a && ':' !in b && a + ":" + x == b + ":" + y
    ensures a == b && x == y
  {
    var s, t := a + ":" + x, b + ":" + y;
    assert s[|a|] == ':' && t[|b|] == ':';
    assert s[..|a|] == a && t[..|b|] == b && s[|a| + 1..] == x && t[|b| + 1..] == y;
  }

  // Keys tell failures apart as long as type and host hold no colon; the path may.
  lemma FailureKeyInjective(t1: string, h1: string, p1: string, t2: string, h2: string, p2: string)
    requires ':' !in t1 && ':' !in h1 && ':' !in t2 && ':' !in h2
    ensures FailureKey(t1, h1, p1) == FailureKey(t2, h2, p2) <==> t1 == t2 && h1 == h2 && p1 == p2
  {
    if FailureKey(t1, h1, p1) == FailureKey(t2, h2, p2) {
      assert FailureKey(t1, h1, p1) == t1 + ":" + (h1 + ":" + p1);
      assert FailureKey(t2, h2, p2) == t2 + ":" + (h2 + ":" + p2);
      SameField(t1, t2, h1 + ":" + p1, h2 + ":" + p2);
      SameField(h1, h2, p1, p2);
    }
  }

  // With a port in the host, a failure shares its key with one whose path starts with the port.
  lemma PortsCollide(ftype: string, host: string, port: string, path: string)
    ensures FailureKey(ftype, host + ":" + port, path) == FailureKey(ftype, host, port + ":" + path)
  {
    var a, b := ftype + ":" + host, port + ":" + path;
    assert FailureKey(ftype, host + ":" + port, path) == a + ":" + b == FailureKey(ftype, host, port + ":" + path);
  }

  // A colon moved from one field to the next leaves the key as it is.
  lemma ColonSplits(s: string) returns (a: string, b: string)
    requires ':' in s
    ensures s == a + ":" + b && |a| < |s|
  {
    var i :| 0 <= i < |s| && s[i] == ':';
    a, b := s[..i], s[i + 1..];
  }

  lemma ColonsOfKey(ftype: string, host: string, path: string)
    ensures multiset(FailureKey(ftype, host, path))[':']
         == multiset(ftype)[':'] + multiset(host)[':'] + multiset(path)[':'] + 2
  {
    assert FailureKey(ftype, host, path) == ((ftype + ":") + (host + ":")) + path;
    assert multiset(":")[':'] == 1;
    assert multiset(ftype + ":") == multiset(ftype) + multiset(":");
    assert multiset(host + ":") == multiset(host) + multiset(":");
  }

  // Different failures with the same key.
  ghost predicate SharesKey(t1: string, h1: string, p1: string, t2: string, h2: string, p2: string) {
    (t1, h1, p1) != (t2, h2, p2) && FailureKey(t1, h1, p1) == FailureKey(t2, h2, p2)
  }

  lemma ColonShares(ftype: string, host: string, path: string)
    requires ':' in ftype || ':' in host || ':' in path
    ensures exists t, h, p :: SharesKey(t, h, p, ftype, host, path)
  {
    var t, h, p := ftype, host, path;
    if ':' in ftype {
      var a, b := ColonSplits(ftype);
      PortsCollide(a, b, host, path);
      assert FailureKey(ftype, host, path) == FailureKey(a, b + ":" + host, path);
      t, h := a, b + ":" + host;
    } else if ':' in host {
      var a, b := ColonSplits(host);
      PortsCollide(ftype, a, b, path);
      h, p := a, b + ":" + path;
    } else {
      var a, b := ColonSplits(path);
      PortsCollide(ftype, host, a, b);
      h, p := host + ":" + a, b;
    }
    assert SharesKey(t, h, p, ftype, host, path);
  }

  // A failure shares its key with another one if and only if one of its fields holds a colon.
  lemma KeySharedIff(ftype: string, host: string, path: string)
    ensures (exists t, h, p :: SharesKey(t, h, p, ftype, host, path)) <==> ':' in ftype || ':' in host || ':' in path
  {
    if ':' in ftype || ':' in host || ':' in path {
      ColonShares(ftype, host, path);
    } else {
      forall t, h, p | SharesKey(t, h, p, ftype, host, path)
        ensures false
      {
        ColonsOfKey(t, h, p);
        ColonsOfKey(ftype, host, path);
        assert multiset(t)[':'] == 0 && multiset(h)[':'] == 0;
        FailureKeyInjective(t, h, p, ftype, host, path);
      }
    }
  }

  // ----- the registry -------------------------------------------------------------------------------

  class Registry {
    var failures: map<string, ActiveFailure>
    ghost var log: seq<Event>
    // The time of the latest operation.
    ghost var clock: int

    // The map holds the latest failure of each key, except some that had expired already.
    ghost predicate Valid()
      reads this
    {
      && (forall k :: k in failures ==> Latest(log, k) == Some(failures[k]))
      && (forall k :: k !in failures && Latest(log, k).Some? ==> Latest(log, k).value.expires < clock)
    }

    constructor ()
      ensures Valid() && log == [] && failures == map[]
    {
      failures, log, clock := map[], [], 0;
    }

    method Set(spec: FailureSpec, now: int, parse: string -> Option<IPNet>)
      requires Valid() && now >= clock
      modifies this
      ensures Valid() && clock == now
      ensures exists f ::
                && log == old(log) + [SetEvent(FailureKey(spec.ftype, spec.host, spec.path), f)]
                && f == Activated(spec, now, parse)
                && f.spec == spec && f.expires == now + spec.duration && (f.throttled <==> 0.0 < spec.rate < 1.0)
    {
      var nets: seq<IPNet> := [];
      for i := 0 to |spec.sourceCIDRs|
        invariant nets == ParsedNets(spec.sourceCIDRs[..i], parse)
        invariant unchanged(this)
      {
        assert spec.sourceCIDRs[..i + 1][..i] == spec.sourceCIDRs[..i];
        var net := parse(spec.sourceCIDRs[i]);
        if net.Some? {
          nets := nets + [net.value];
        }
      }
      assert spec.sourceCIDRs[..|spec.sourceCIDRs|] == spec.sourceCIDRs;
      var rate := if spec.rate <= 0.0 || spec.rate >= 1.0 then 1.0 else spec.rate;
      var f := ActiveFailure(spec, now + spec.duration, rate < 1.0, nets);
      failures := failures[FailureKey(spec.ftype, spec.host, spec.path) := f];
      log := log + [SetEvent(FailureKey(spec.ftype, spec.host, spec.path), f)];
      clock := now;
      LatestAfter(old(log), log[|log| - 1]);
    }

    method Remove(ftype: string, host: string, path: string, now: int)
      requires Valid() && now >= clock
      modifies this
      ensures Valid() && clock == now
      ensures log == old(log) + [RemoveEvent(FailureKey(ftype, host, path))]
    {
      failures := failures - {FailureKey(ftype, host, path)};
      log := log + [RemoveEvent(FailureKey(ftype, host, path))];
      clock := now;
      LatestAfter(old(log), log[|log| - 1]);
    }

    // All failures that have not expired, each once, in the arbitrary order of a map.
    method Active(now: int) returns (out: seq<FailureSpec>, ghost keys: seq<string>)
      requires Valid() && now >= clock
      modifies this
      ensures Valid() && clock == now && log == old(log)
      ensures Distinct(keys) && forall k :: k in keys <==> Live(log, k, now).Some?
      ensures |out| == |keys| && forall i :: 0 <= i < |keys| ==> out[i] == Live(log, keys[i], now).value.spec
    {
      out, keys := [], [];
      clock := now;
      var todo := failures.Keys;
      while todo != {}
        invariant Valid() && clock == now && log == old(log) && todo <= failures.Keys
        invariant Distinct(keys) && forall k :: k in keys <==> k !in todo && Live(log, k, now).Some?
        invariant |out| == |keys| && forall i :: 0 <= i < |keys| ==> out[i] == Live(log, keys[i], now).value.spec
        decreases todo
      {
        ghost var some := Member(todo);
        var k :| k in todo;
        var f := failures[k];
        todo := todo - {k};
        if now > f.expires {
          failures := failures - {k};
        } else {
          out := out + [f.spec];
          keys := keys + [k];
        }
      }
    }

    method Lookup(ftype: string, host: string, path: string, now: int, draw: real) returns (r: Option<FailureSpec>)
      requires Valid() && now >= clock
      modifies this
      ensures Valid() && clock == now && log == old(log)
      ensures MostSpecific(log, ftype, host, path, now, draw, r)
      ensures r == LookupAnswer(log, Candidates(ftype, host, path), now, draw)
    {
      LookupIsMostSpecific(log, ftype, host, path, now, draw);
      hide MostSpecific;
      clock := now;
      var keys := Candidates(ftype, host, path);
      for i := 0 to |keys|
        invariant Valid() && clock == now && log == old(log)
        invariant LookupAnswer(log, keys, now, draw) == LookupAnswer(log, keys[i..], now, draw)
      {
        var k := keys[i];
        assert keys[i..][0] == k && keys[i..][1..] == keys[i + 1..];
        if k in failures {
          var f := failures[k];
          if now > f.expires {
            failures := failures - {k};
          } else if |f.spec.sourceCIDRs| == 0 {
            return if f.throttled && draw >= f.spec.rate then None else Some(f.spec);
          }
        }
      }
      r := None;
    }

    // The first geo-restricted failure that covers ip, in the arbitrary order of a map.
    method LookupForIP(ip: int, now: int, draw: real) returns (r: Option<FailureSpec>, ghost key: string)
      requires Valid() && now >= clock
      modifies this
      ensures Valid() && clock == now && log == old(log)
      ensures (exists k :: Live(log, k, now).Some? && Covers(Live(log, k, now).value, ip)) ==>
                var f := Live(log, key, now);
                f.Some? && Covers(f.value, ip) && Answers(f.value, draw, r)
      ensures !(exists k :: Live(log, k, now).Some? && Covers(Live(log, k, now).value, ip)) ==> r.None?
    {
      clock := now;
      key := "";
      var todo := failures.Keys;
      while todo != {}
        invariant Valid() && clock == now && log == old(log) && todo <= failures.Keys
        invariant forall k :: k !in todo && Live(log, k, now).Some? ==> !Covers(Live(log, k, now).value, ip)
        decreases todo
      {
        ghost var some := Member(todo);
        var k :| k in todo;
        var f := failures[k];
        todo := todo - {k};
        if now > f.expires {
          failures := failures - {k};
        } else {
          var covered := AnyContains(f, ip);
          if covered {
            key := k;
            assert Live(log, k, now) == Some(f);
            return if f.throttled && draw >= f.spec.rate then None else Some(f.spec), k;
          }
        }
      }
      r := None;
    }
  }

  method AnyContains(f: ActiveFailure, ip: int) returns (covered: bool)
    ensures covered <==> Covers(f, ip)
  {
    for i := 0 to |f.nets|
      invariant forall j :: 0 <= j < i ==> !f.nets[j].Contains(ip)
    {
      if f.nets[i].Contains(ip) {
        return true;
      }
    }
    covered := false;
  }

  lemma LatestAfter(log: seq<Event>, e: Event)
    ensures forall k :: Latest(log + [e], k)
                     == if k != e.key then Latest(log, k) else if e.SetEvent? then Some(e.failure) else None
  {
    assert (log + [e])[..|log|] == log;
  }
}

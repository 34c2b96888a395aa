/**
 Selecting certificate snapshots (internal/certlibrary/certlibrary.go). Times are whole
 nanoseconds of any size; durations are 64-bit, with the saturating subtraction of times
 and the wrapping negation of the original. normalizeHost is an arbitrary function norm.
 */
module CertLibrary {
  import opened Seqs
  import opened Text

  datatype Entry = Entry(id: string, identifiers: seq<string>, notBefore: Option<int>, notAfter: int)

  const MAX_DURATION := 0x7fff_ffff_ffff_ffff
  const MIN_DURATION := -0x8000_0000_0000_0000

  // What Validate demands of IDs: none empty, none twice.
  ghost predicate IDsValid(entries: seq<Entry>) {
    && (forall i :: 0 <= i < |entries| ==> entries[i].id != "")
    && (forall i, j :: 0 <= i < j < |entries| ==> entries[i].id != entries[j].id)
  }

  // ----- covering ---------------------------------------------------------------------------

  function IdentifierCoversHost(identifier: string, host: string): bool {
    if identifier == "" then false
    else if identifier == host then true
    else if !HasPrefix(identifier, "*.") then false
    else
      var base := identifier[2..];
      HasSuffix(host, "." + base)
      && var left := TrimSuffix(host, "." + base);
         left != "" && '.' !in left
  }

  // A wildcard stands for exactly one label, the leftmost one.
  lemma CoversMeans(identifier: string, host: string)
    ensures IdentifierCoversHost(identifier, host)
       <==> (identifier != "" && identifier == host)
            || (HasPrefix(identifier, "*.")
                && exists left :: left != "" && '.' !in left && host == left + "." + identifier[2..])
  {
    if HasPrefix(identifier, "*.") {
      var tail := "." + identifier[2..];
      if IdentifierCoversHost(identifier, host) && identifier != host {
        var left := TrimSuffix(host, tail);
        assert host == left + tail;
        assert host == left + "." + identifier[2..];
      }
      if left :| left != "" && '.' !in left && host == left + "." + identifier[2..] {
        assert host == left + tail;
        assert host[|host| - |tail|..] == tail;
        assert TrimSuffix(host, tail) == left;
      }
    }
  }

  predicate Covers(e: Entry, host: string, norm: string -> string) {
    var h := norm(host);
    h != "" && exists i :: 0 <= i < |e.identifiers| && IdentifierCoversHost(norm(e.identifiers[i]), h)
  }

  // ----- the healthy certificate -------------------------------------------------------------

  predicate Current(e: Entry, host: string, now: int, norm: string -> string) {
    Covers(e, host, norm) && !(e.notBefore.Some? && e.notBefore.value > now) && e.notAfter > now
  }

  // Later expiry wins; among equals the smaller ID.
  predicate Preferred(a: Entry, b: Entry) {
    a.notAfter > b.notAfter || (a.notAfter == b.notAfter && Before(a.id, b.id))
  }

  ghost predicate IsDefault(entries: seq<Entry>, host: string, now: int, norm: string -> string, r: Option<Entry>) {
    match r
    case None => norm(host) == "" || forall e :: e in entries ==> !Current(e, norm(host), now, norm)
    case Some(best) =>
      && norm(host) != "" && best in entries && Current(best, norm(host), now, norm)
      && forall e :: e in entries && Current(e, norm(host), now, norm) ==> e == best || Preferred(best, e)
  }

  method SelectDefault(entries: seq<Entry>, rawHost: string, now: int, norm: string -> string)
    returns (r: Option<Entry>)
    requires IDsValid(entries)
    ensures IsDefault(entries, rawHost, now, norm, r)
    // In the fields of the entries.
    ensures r.Some? ==>
              var best := r.value;
              && best in entries && Covers(best, norm(rawHost), norm)
              && best.notAfter > now && (best.notBefore.None? || best.notBefore.value <= now)
              && forall e :: e in entries && e != best && Covers(e, norm(rawHost), norm)
                             && e.notAfter > now && (e.notBefore.None? || e.notBefore.value <= now) ==>
                   e.notAfter < best.notAfter || (e.notAfter == best.notAfter && Before(best.id, e.id))
    ensures r.None? ==> norm(rawHost) == "" || forall e :: e in entries && Covers(e, norm(rawHost), norm) ==>
              e.notAfter <= now || (e.notBefore.Some? && e.notBefore.value > now)
  {
    var host := norm(rawHost);
    if host == "" {
      return None;
    }
    r := None;
    for i := 0 to |entries|
      invariant IsDefault(entries[..i], rawHost, now, norm, r)
    {
      var entry := entries[i];
      assert entries[..i + 1] == entries[..i] + [entry];
      if Current(entry, host, now, norm) {
        if r.None? {
          r := Some(entry);
        } else {
          var best := r.value;
          PreferenceStep(entries, i, best, entry);
          if entry.notAfter > best.notAfter || (entry.notAfter == best.notAfter && Before(entry.id, best.id)) {
            forall e | e in entries[..i] && Current(e, host, now, norm)
              ensures Preferred(entry, e)
            {
              if e != best {
                PreferredTransitive(entry, best, e);
              }
            }
            r := Some(entry);
          }
        }
      }
    }
    assert entries[..|entries|] == entries;
  }

  lemma PreferredTransitive(a: Entry, b: Entry, c: Entry)
    requires Preferred(a, b) && Preferred(b, c)
    ensures Preferred(a, c)
  {
    if a.notAfter == b.notAfter == c.notAfter {
      BeforeTransitive(a.id, b.id, c.id);
    }
  }

  // Of two different entries one is preferred.
  lemma PreferenceStep(entries: seq<Entry>, i: nat, best: Entry, entry: Entry)
    requires IDsValid(entries) && i < |entries| && entries[i] == entry && best in entries[..i]
    ensures Preferred(entry, best) || Preferred(best, entry)
  {
    BeforeTotal(entry.id, best.id);
  }

  lemma NotBothPreferred(a: Entry, b: Entry)
    requires Preferred(a, b)
    ensures !Preferred(b, a) && a != b
  {
    if a.notAfter == b.notAfter {
      BeforeIrreflexive(a.id);
      if Before(b.id, a.id) {
        BeforeTransitive(a.id, b.id, a.id);
      }
    }
  }

  // The choice depends on the set of entries only, not on their order in the manifest.
  lemma DefaultOrderFree(a: seq<Entry>, b: seq<Entry>, host: string, now: int, norm: string -> string,
                         x: Option<Entry>, y: Option<Entry>)
    requires multiset(a) == multiset(b) && IsDefault(a, host, now, norm, x) && IsDefault(b, host, now, norm, y)
    ensures x == y
  {
    forall e
      ensures e in a <==> e in b
    {
      assert e in a <==> e in multiset(a);
      assert e in b <==> e in multiset(b);
    }
    if x.Some? && y.Some? && x.value != y.value {
      NotBothPreferred(x.value, y.value);
    }
  }

  // ----- the closest expiry --------------------------------------------------------------------

  // Time.Sub: saturates where the difference does not fit.
  function Sub(t: int, u: int): int {
    if t - u > MAX_DURATION then MAX_DURATION else if t - u < MIN_DURATION then MIN_DURATION else t - u
  }

  // Negation wraps: the smallest duration is its own negative.
  function AbsDuration(d: int): int {
    if d < 0 then if d == MIN_DURATION then MIN_DURATION else -d else d
  }

  function CodeDistance(e: Entry, target: int): int {
    AbsDuration(Sub(e.notAfter, target))
  }

  function Distance(e: Entry, target: int): nat {
    if e.notAfter >= target then e.notAfter - target else target - e.notAfter
  }

  // The distance is right as long as it fits, and wrong beyond that in two ways.
  lemma CodeDistanceMeans(e: Entry, target: int)
    ensures e.notAfter - target > MIN_DURATION && e.notAfter - target <= MAX_DURATION ==>
              CodeDistance(e, target) == Distance(e, target)
    ensures e.notAfter - target > MAX_DURATION ==> CodeDistance(e, target) == MAX_DURATION
    ensures e.notAfter - target <= MIN_DURATION ==> CodeDistance(e, target) == MIN_DURATION
  {
  }

  // An entry covers a host if one of its identifiers does, after normalization of both.
  lemma CoversHost(e: Entry, host: string, norm: string -> string)
    ensures Covers(e, host, norm)
       <==> norm(host) != ""
            && exists id :: id in e.identifiers && IdentifierCoversHost(norm(id), norm(host))
  {
    if Covers(e, host, norm) {
      var i :| 0 <= i < |e.identifiers| && IdentifierCoversHost(norm(e.identifiers[i]), norm(host));
      assert e.identifiers[i] in e.identifiers;
    }
    if id :| id in e.identifiers && IdentifierCoversHost(norm(id), norm(host)) {
      var i :| 0 <= i < |e.identifiers| && e.identifiers[i] == id;
    }
  }

  predicate Candidate(e: Entry, host: string, norm: string -> string, keep: Entry -> bool) {
    Covers(e, host, norm) && keep(e)
  }

  predicate NoWorse(a: Entry, b: Entry, target: int) {
    CodeDistance(a, target) < CodeDistance(b, target)
    || (CodeDistance(a, target) == CodeDistance(b, target) && a.notAfter <= b.notAfter)
  }

  ghost predicate IsClosest(entries: seq<Entry>, host: string, target: int, norm: string -> string, keep: Entry -> bool,
                            r: Option<Entry>) {
    match r
    case None => norm(host) == "" || forall e :: e in entries ==> !Candidate(e, norm(host), norm, keep)
    case Some(best) =>
      && norm(host) != "" && best in entries && Candidate(best, norm(host), norm, keep)
      && forall e :: e in entries && Candidate(e, norm(host), norm, keep) ==> NoWorse(best, e, target)
  }

  method SelectClosest(entries: seq<Entry>, rawHost: string, target: int, norm: string -> string, keep: Entry -> bool)
    returns (r: Option<Entry>)
    requires IDsValid(entries)
    ensures IsClosest(entries, rawHost, target, norm, keep, r)
    // No candidate has a smaller computed distance, and none as small an earlier expiry.
    ensures r.Some? ==>
              var best := r.value;
              && best in entries && Covers(best, norm(rawHost), norm) && keep(best)
              && forall e :: e in entries && Covers(e, norm(rawHost), norm) && keep(e) ==>
                   var d, m := CodeDistance(e, target), CodeDistance(best, target);
                   d >= m && (d == m ==> e.notAfter >= best.notAfter)
  {
    var host := norm(rawHost);
    if host == "" {
      return None;
    }
    r := None;
    var bestDistance := 0;
    for i := 0 to |entries|
      invariant IsClosest(entries[..i], rawHost, target, norm, keep, r)
      invariant r.Some? ==> bestDistance == CodeDistance(r.value, target)
    {
      var entry := entries[i];
      assert entries[..i + 1] == entries[..i] + [entry];
      if Covers(entry, host, norm) && keep(entry) {
        var distance := AbsDuration(Sub(entry.notAfter, target));
        if r.None? || distance < bestDistance || (distance == bestDistance && entry.notAfter < r.value.notAfter) {
          r := Some(entry);
          bestDistance := distance;
        }
      }
    }
    assert entries[..|entries|] == entries;
  }

  method SelectExpiring(entries: seq<Entry>, host: string, now: int, targetRemaining: int, norm: string -> string)
    returns (r: Option<Entry>)
    requires IDsValid(entries) && targetRemaining <= MAX_DURATION
    ensures targetRemaining <= 0 ==> r.None?
    ensures targetRemaining > 0 ==>
              IsClosest(entries, host, now + targetRemaining, norm, (e: Entry) => e.notAfter > now, r)
  {
    if targetRemaining <= 0 {
      return None;
    }
    r := SelectClosest(entries, host, now + targetRemaining, norm, (e: Entry) => e.notAfter > now);
  }

  method SelectExpired(entries: seq<Entry>, host: string, now: int, targetExpired: int, norm: string -> string)
    returns (r: Option<Entry>)
    requires IDsValid(entries) && targetExpired <= MAX_DURATION
    ensures targetExpired <= 0 ==> r.None?
    ensures targetExpired > 0 ==>
              IsClosest(entries, host, now - targetExpired, norm, (e: Entry) => e.notAfter <= now, r)
  {
    if targetExpired <= 0 {
      return None;
    }
    r := SelectClosest(entries, host, now - targetExpired, norm, (e: Entry) => e.notAfter <= now);
  }

  // Any order of the entries leads to the same expiry, or to no entry in each.
  lemma ClosestOrderFree(a: seq<Entry>, b: seq<Entry>, host: string, target: int, norm: string -> string,
                         keep: Entry -> bool, x: Option<Entry>, y: Option<Entry>)
    requires multiset(a) == multiset(b)
    requires IsClosest(a, host, target, norm, keep, x) && IsClosest(b, host, target, norm, keep, y)
    ensures x.Some? <==> y.Some?
    ensures x.Some? ==> x.value.notAfter == y.value.notAfter
  {
    forall e
      ensures e in a <==> e in b
    {
      assert e in a <==> e in multiset(a);
      assert e in b <==> e in multiset(b);
    }
  }

  // SelectExpiring is right for all inputs: no unexpired covering certificate expires closer
  // to the wanted moment.
  lemma ExpiringIsClosest(entries: seq<Entry>, host: string, now: int, remaining: int, norm: string -> string,
                          keep: Entry -> bool, best: Entry, e: Entry)
    requires 0 < remaining <= MAX_DURATION && (forall x :: keep(x) <==> x.notAfter > now)
    requires IsClosest(entries, host, now + remaining, norm, keep, Some(best))
    requires e in entries && Candidate(e, norm(host), norm, keep)
    ensures Distance(best, now + remaining) <= Distance(e, now + remaining)
  {
  }

  // Expired so long before the target that the difference is the smallest duration or less.
  predicate TooFar(e: Entry, target: int) {
    e.notAfter - target <= MIN_DURATION
  }

  // SelectExpired returns a truly closest certificate exactly when no candidate lies that
  // far back, or all candidates expired at the same moment: the distance of a certificate
  // too far back comes out negative, and so as the smallest of all.
  lemma ExpiredIsClosestIff(entries: seq<Entry>, host: string, now: int, expired: int, norm: string -> string,
                            keep: Entry -> bool, best: Entry)
    requires 0 < expired <= MAX_DURATION && (forall x :: keep(x) <==> x.notAfter <= now)
    requires IsClosest(entries, host, now - expired, norm, keep, Some(best))
    ensures (forall e :: e in entries && Candidate(e, norm(host), norm, keep) ==>
               Distance(best, now - expired) <= Distance(e, now - expired))
       <==> (forall e :: e in entries && Candidate(e, norm(host), norm, keep) ==> !TooFar(e, now - expired))
            || (forall e :: e in entries && Candidate(e, norm(host), norm, keep) ==> e.notAfter == best.notAfter)
  {
    var target := now - expired;
    if c :| c in entries && Candidate(c, norm(host), norm, keep) && TooFar(c, target) {
      assert CodeDistance(c, target) == MIN_DURATION;
      assert NoWorse(best, c, target);
      assert TooFar(best, target);
      if forall e ::
        e in entries && Candidate(e, norm(host), norm, keep) ==> Distance(best, target) <= Distance(e, target) {
        forall e | e in entries && Candidate(e, norm(host), norm, keep)
          ensures e.notAfter == best.notAfter
        {
          assert NoWorse(best, e, target);
        }
      }
    } else {
      forall e | e in entries && Candidate(e, norm(host), norm, keep)
        ensures Distance(best, target) <= Distance(e, target)
      {
        assert NoWorse(best, e, target);
        assert !TooFar(e, target) && !TooFar(best, target);
      }
    }
  }

  // Such a case: a certificate from 293 years back beats one that expired on the spot.
  lemma FarPastWins(norm: string -> string, old': Entry, exact: Entry)
    requires norm("h") == "h" && old'.identifiers == exact.identifiers == ["h"]
    requires exact.notAfter == -1 && old'.notAfter == MIN_DURATION - 1
    ensures IsClosest([exact, old'], "h", -1, norm, (e: Entry) => e.notAfter <= 0, Some(old'))
    ensures Distance(exact, -1) == 0 < Distance(old', -1)
  {
    assert IdentifierCoversHost("h", "h");
    assert norm(old'.identifiers[0]) == "h" && norm(exact.identifiers[0]) == "h";
  }
}

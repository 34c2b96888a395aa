/**
 Batches of URL checks for the real-URL run: consecutive checks, no two on one
 host, no more than a cap in a batch (cmd/uptime-bench-veriflier-url-once/main.go).
 */
module HostBatches {
  import opened Seqs

  datatype UrlCheck = UrlCheck(id: int, host: string, urlHash: string)

  type Batch = seq<UrlCheck>

  function HostKey(check: UrlCheck): string {
    if check.host != "" then check.host else "urlhash:" + check.urlHash
  }

  // Two checks compete for one host: both name it, or neither names any and the URLs hash
  // alike, or the one names what the hash of the other is filed under.
  predicate Clash(a: UrlCheck, b: UrlCheck) {
    || (a.host != "" && a.host == b.host)
    || (a.host == "" && b.host == "" && a.urlHash == b.urlHash)
    || (a.host == "" && b.host != "" && b.host == "urlhash:" + a.urlHash)
    || (b.host == "" && a.host != "" && a.host == "urlhash:" + b.urlHash)
  }

  lemma KeysClash(a: UrlCheck, b: UrlCheck)
    ensures HostKey(a) == HostKey(b) <==> Clash(a, b)
  {
    if a.host == "" && b.host == "" && HostKey(a) == HostKey(b) {
      assert HostKey(a)[8..] == a.urlHash && HostKey(b)[8..] == b.urlHash;
    }
  }

  // The hosts a batch touches.
  function HostSet(b: Batch): set<string> {
    set c | c in b :: HostKey(c)
  }

  ghost predicate HostDistinct(b: Batch) {
    forall i, j :: 0 <= i < j < |b| ==> HostKey(b[i]) != HostKey(b[j])
  }

  ghost predicate IsBatch(b: Batch, cap: int) {
    0 < |b| <= cap && HostDistinct(b)
  }

  ghost predicate AllBatches(bs: seq<Batch>, cap: int) {
    forall i :: 0 <= i < |bs| ==> IsBatch(bs[i], cap)
  }

  // bs cuts checks, in order, into legal batches.
  ghost predicate Cuts(bs: seq<Batch>, checks: seq<UrlCheck>, cap: int) {
    Flatten(bs) == checks && AllBatches(bs, cap)
  }

  // Batch i could not also have taken the first check of the batch after it.
  ghost predicate MustSplit(bs: seq<Batch>, i: nat, cap: int)
    requires i + 1 < |bs|
  {
    bs[i + 1] != [] && !IsBatch(bs[i] + [bs[i + 1][0]], cap)
  }

  ghost predicate Greedy(bs: seq<Batch>, cap: int) {
    forall i: nat :: i + 1 < |bs| ==> MustSplit(bs, i, cap)
  }

  type Positive = n: int | n >= 1 witness 1

  // Limits of 0 or less count as 1.
  function PositiveOr1(n: int): (r: Positive)
    ensures r >= n && (r == 1 || r == n)
  {
    if n <= 0 then 1 else n
  }

  // One more check touches one more host, and clashes exactly when the host is known.
  lemma HostSnoc(cur: Batch, check: UrlCheck)
    requires HostDistinct(cur)
    ensures HostSet(cur + [check]) == HostSet(cur) + {HostKey(check)}
    ensures HostDistinct(cur + [check]) <==> HostKey(check) !in HostSet(cur)
    ensures HostSet([]) == {} && HostDistinct([])
  {
    var longer := cur + [check];
    assert longer[|cur|] == check && forall i :: 0 <= i < |cur| ==> longer[i] == cur[i];
    assert forall c :: c in longer <==> c in cur || c == check;
    if HostKey(check) in HostSet(cur) {
      var i :| 0 <= i < |cur| && HostKey(cur[i]) == HostKey(check);
      assert HostKey(longer[i]) == HostKey(longer[|cur|]);
    }
  }

  // The loop's state: closed batches, the open batch and its hosts, for the checks done.
  ghost predicate Batching(batches: seq<Batch>, cur: Batch, hosts: set<string>, done: seq<UrlCheck>, cap: int) {
    && Flatten(batches) + cur == done && AllBatches(batches, cap)
    && |cur| <= cap && HostDistinct(cur) && hosts == HostSet(cur)
    && (cur == [] ==> done == [] && batches == [])
    && (cur != [] ==> Greedy(batches + [cur], cap))
  }

  // The check opens the next batch.
  lemma BatchingNext(batches: seq<Batch>, cur: Batch, hosts: set<string>, done: seq<UrlCheck>, cap: int,
          check: UrlCheck)
    requires cap >= 1 && Batching(batches, cur, hosts, done, cap) && (|cur| >= cap || HostKey(check) in hosts)
    ensures Batching(batches + [cur], [check], {HostKey(check)}, done + [check], cap)
  {
    hide HostSet, HostDistinct, HostKey, MustSplit;
    HostSnoc(cur, check);
    HostSnoc([], check);
    assert [] + [check] == [check];
    FlattenSnoc(batches, cur);
    GreedySnoc(batches + [cur], [check], cap);
  }

  // The check joins the open batch.
  lemma BatchingGrow(batches: seq<Batch>, cur: Batch, hosts: set<string>, done: seq<UrlCheck>, cap: int,
          check: UrlCheck)
    requires Batching(batches, cur, hosts, done, cap) && |cur| < cap && HostKey(check) !in hosts
    ensures Batching(batches, cur + [check], hosts + {HostKey(check)}, done + [check], cap)
  {
    hide HostSet, HostDistinct, HostKey, MustSplit;
    HostSnoc(cur, check);
    Assoc(Flatten(batches), cur, [check]);
    if cur != [] {
      GreedyGrow(batches, cur, cur + [check], cap);
    }
  }

  // No two checks of a batch compete, in the fields of the checks.
  ghost predicate NoClash(b: Batch) {
    forall i, j :: 0 <= i < j < |b| ==> !Clash(b[i], b[j])
  }

  // Batch i was closed because it is full, or because the next check competes with one of it.
  ghost predicate ClosedInTime(bs: seq<Batch>, i: nat, cap: int)
    requires i + 1 < |bs|
  {
    bs[i + 1] != [] && (|bs[i]| >= cap || exists j :: 0 <= j < |bs[i]| && Clash(bs[i][j], bs[i + 1][0]))
  }

  lemma DistinctIsNoClash(b: Batch)
    ensures HostDistinct(b) <==> NoClash(b)
  {
    hide HostKey, Clash;
    forall i, j | 0 <= i < j < |b|
      ensures HostKey(b[i]) == HostKey(b[j]) <==> Clash(b[i], b[j])
    {
      KeysClash(b[i], b[j]);
    }
  }

  // So different hosts where there are hosts, and different hashes where there are none.
  lemma NoClashFields(b: Batch)
    requires NoClash(b)
    ensures forall i, j :: 0 <= i < j < |b| ==>
              && (b[i].host != "" ==> b[i].host != b[j].host)
              && (b[i].host == "" && b[j].host == "" ==> b[i].urlHash != b[j].urlHash)
  {
    forall i, j | 0 <= i < j < |b|
      ensures b[i].host != "" ==> b[i].host != b[j].host
      ensures b[i].host == "" && b[j].host == "" ==> b[i].urlHash != b[j].urlHash
    {
      assert !Clash(b[i], b[j]);
    }
  }

  lemma SplitIsClosed(bs: seq<Batch>, i: nat, cap: int)
    requires i + 1 < |bs| && AllBatches(bs, cap) && MustSplit(bs, i, cap)
    ensures ClosedInTime(bs, i, cap)
  {
    hide HostKey, Clash;
    assert IsBatch(bs[i], cap);
    var b, next := bs[i], bs[i + 1][0];
    HostSnoc(b, next);
    if |b| < cap {
      assert HostKey(next) in HostSet(b);
      var j :| 0 <= j < |b| && HostKey(b[j]) == HostKey(next);
      KeysClash(b[j], next);
    }
  }

  method MakeHostAwareBatches(checks: seq<UrlCheck>, batchSize: int) returns (batches: seq<Batch>)
    // In the fields of the checks: in order, non-empty, within the cap, without competitors,
    // and closed no earlier than they must be.
    ensures Flatten(batches) == checks
    ensures forall i :: 0 <= i < |batches| ==> 0 < |batches[i]| <= PositiveOr1(batchSize) && NoClash(batches[i])
    ensures forall i: nat :: i + 1 < |batches| ==> ClosedInTime(batches, i, PositiveOr1(batchSize))
    ensures Cuts(batches, checks, PositiveOr1(batchSize))
    ensures Greedy(batches, PositiveOr1(batchSize))
    ensures forall other: seq<Batch> :: Cuts(other, checks, PositiveOr1(batchSize)) ==> |batches| <= |other|
  {
    var cap := PositiveOr1(batchSize);
    batches := [];
    var cur: Batch := [];
    var hosts: set<string> := {};
    for n := 0 to |checks|
      invariant Batching(batches, cur, hosts, checks[..n], cap)
    {
      hide Batching, NoClash, ClosedInTime, Cuts, Greedy;
      var host := HostKey(checks[n]);
      assert checks[..n + 1] == checks[..n] + [checks[n]];
      if |cur| >= cap || host in hosts {
        BatchingNext(batches, cur, hosts, checks[..n], cap, checks[n]);
        batches := batches + [cur];
        cur := [];
        hosts := {};
        assert cur + [checks[n]] == [checks[n]] && hosts + {host} == {host};
      } else {
        BatchingGrow(batches, cur, hosts, checks[..n], cap, checks[n]);
      }
      cur := cur + [checks[n]];
      hosts := hosts + {host};
    }
    assert checks[..|checks|] == checks;
    BatchingEnds(batches, cur, hosts, checks, cap);
    if cur != [] {
      batches := batches + [cur];
    }
    CutIsBest(batches, checks, cap);
  }

  lemma BatchingEnds(batches: seq<Batch>, cur: Batch, hosts: set<string>, checks: seq<UrlCheck>, cap: int)
    requires Batching(batches, cur, hosts, checks, cap)
    ensures var bs := if cur != [] then batches + [cur] else batches;
            Cuts(bs, checks, cap) && Greedy(bs, cap)
  {
    hide HostDistinct, MustSplit;
    if cur != [] {
      FlattenSnoc(batches, cur);
    } else {
      assert Flatten(batches) + cur == Flatten(batches);
    }
  }

  lemma CutIsBest(bs: seq<Batch>, checks: seq<UrlCheck>, cap: int)
    requires Cuts(bs, checks, cap) && Greedy(bs, cap)
    ensures forall other: seq<Batch> :: Cuts(other, checks, cap) ==> |bs| <= |other|
    ensures forall i :: 0 <= i < |bs| ==> 0 < |bs[i]| <= cap && NoClash(bs[i])
    ensures forall i: nat :: i + 1 < |bs| ==> ClosedInTime(bs, i, cap)
  {
    forall other: seq<Batch> | Cuts(other, checks, cap)
      ensures |bs| <= |other|
    {
      GreedyIsFewest(bs, other, checks, cap);
    }
    PlainCut(bs, cap);
  }

  lemma PlainCut(bs: seq<Batch>, cap: int)
    requires AllBatches(bs, cap) && Greedy(bs, cap)
    ensures forall i :: 0 <= i < |bs| ==> 0 < |bs[i]| <= cap && NoClash(bs[i])
    ensures forall i: nat :: i + 1 < |bs| ==> ClosedInTime(bs, i, cap)
  {
    forall i | 0 <= i < |bs|
      ensures 0 < |bs[i]| <= cap && NoClash(bs[i])
    {
      assert IsBatch(bs[i], cap);
      DistinctIsNoClash(bs[i]);
    }
    forall i: nat | i + 1 < |bs|
      ensures ClosedInTime(bs, i, cap)
    {
      assert MustSplit(bs, i, cap);
      SplitIsClosed(bs, i, cap);
    }
  }

  lemma GreedySnoc(bs: seq<Batch>, next: Batch, cap: int)
    requires bs != [] && next != [] && Greedy(bs, cap)
    requires !IsBatch(bs[|bs| - 1] + [next[0]], cap)
    ensures Greedy(bs + [next], cap)
  {
    forall i: nat | i + 1 < |bs| + 1
      ensures MustSplit(bs + [next], i, cap)
    {
      if i + 1 < |bs| {
        assert MustSplit(bs, i, cap);
      }
    }
  }

  // Greedy looks only at the first check of the last batch.
  lemma GreedyGrow(bs: seq<Batch>, cur: Batch, longer: Batch, cap: int)
    requires cur != [] && longer != [] && cur[0] == longer[0] && Greedy(bs + [cur], cap)
    ensures Greedy(bs + [longer], cap)
  {
    forall i: nat | i + 1 < |bs| + 1
      ensures MustSplit(bs + [longer], i, cap)
    {
      assert MustSplit(bs + [cur], i, cap);
    }
  }

  // A batch of a greedy cut that starts at p, followed by one that starts at q, leaves
  // no room for a legal batch that starts at p or earlier to reach past q.
  lemma GreedyBlocks(bs: seq<Batch>, checks: seq<UrlCheck>, cap: int, k: nat, b: Batch, lo: nat, hi: nat)
    requires Cuts(bs, checks, cap) && Greedy(bs, cap) && k + 1 < |bs|
    requires lo <= |Flatten(bs[..k])| && lo <= hi <= |checks|
    requires IsBatch(b, cap) && b == checks[lo..hi]
    ensures hi <= |Flatten(bs[..k + 1])|
  {
    hide IsBatch, AllBatches;
    FlattenPiece(bs, k);
    FlattenPiece(bs, k + 1);
    var p, q, r := |Flatten(bs[..k])|, |Flatten(bs[..k + 1])|, |Flatten(bs[..k + 2])|;
    assert MustSplit(bs, k, cap);
    assert checks[q..r][0] == checks[q];
    assert bs[k] + [bs[k + 1][0]] == checks[p..q + 1];
    if hi > q {
      PartOfBatch(checks, lo, hi, p, q + 1, cap);
    }
  }

  lemma PartOfBatch(checks: seq<UrlCheck>, lo: nat, hi: nat, p: nat, q: nat, cap: int)
    requires lo <= p < q <= hi <= |checks| && IsBatch(checks[lo..hi], cap)
    ensures IsBatch(checks[p..q], cap)
  {
    var b := checks[lo..hi];
    assert forall i :: p <= i < q ==> checks[i] == b[i - lo] == checks[p..q][i - p];
  }

  // After k batches, no other cut has covered more checks than the greedy one.
  lemma {:induction false} GreedyStaysAhead(bs: seq<Batch>, other: seq<Batch>, checks: seq<UrlCheck>, cap: int, k: nat)
    requires Cuts(bs, checks, cap) && Greedy(bs, cap) && Cuts(other, checks, cap)
    requires k <= |bs| && k <= |other|
    ensures |Flatten(other[..k])| <= |Flatten(bs[..k])|
  {
    if k > 0 {
      GreedyStaysAhead(bs, other, checks, cap, k - 1);
      FlattenPiece(other, k - 1);
      if k < |bs| {
        GreedyBlocks(bs, checks, cap, k - 1, other[k - 1], |Flatten(other[..k - 1])|, |Flatten(other[..k])|);
      } else {
        assert bs[..k] == bs;
      }
    }
  }

  // No order-preserving cut into legal batches has fewer batches than a greedy one.
  lemma GreedyIsFewest(bs: seq<Batch>, other: seq<Batch>, checks: seq<UrlCheck>, cap: int)
    requires Cuts(bs, checks, cap) && Greedy(bs, cap) && Cuts(other, checks, cap)
    ensures |bs| <= |other|
  {
    if |other| < |bs| {
      var k := |other|;
      GreedyStaysAhead(bs, other, checks, cap, k);
      assert other[..k] == other;
      FlattenPiece(bs, k);
      assert false;
    }
  }
}

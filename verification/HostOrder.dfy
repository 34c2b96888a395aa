/** The sorted list of the hosts a batch touches. */
module HostOrder {
  import opened HostBatches
  import opened Text

  ghost predicate StrictlySorted(hs: seq<string>) {
    forall i, j :: 0 <= i < j < |hs| ==> Before(hs[i], hs[j])
  }

  lemma StrictlySortedDistinct(hs: seq<string>)
    requires StrictlySorted(hs)
    ensures forall i, j :: 0 <= i < j < |hs| ==> hs[i] != hs[j]
  {
    forall i, j | 0 <= i < j < |hs|
      ensures hs[i] != hs[j]
    {
      BeforeIrreflexive(hs[i]);
    }
  }

  function InsertHost(h: string, hs: seq<string>): (r: seq<string>)
    requires StrictlySorted(hs)
    ensures StrictlySorted(r)
    ensures forall x :: x in r <==> x == h || x in hs
  {
    if hs == [] then [h]
    else if h == hs[0] then hs
    else if Before(h, hs[0]) then
      assert forall j :: 0 <= j < |hs| ==> Before(h, hs[j]) by {
        forall j | 0 < j < |hs| ensures Before(h, hs[j]) { BeforeTransitive(h, hs[0], hs[j]); }
      }
      [h] + hs
    else
      BeforeTotal(h, hs[0]);
      var r := InsertHost(h, hs[1..]);
      assert forall j :: 0 <= j < |r| ==> Before(hs[0], r[j]) by {
        forall j | 0 <= j < |r| ensures Before(hs[0], r[j]) { assert r[j] in r; }
      }
      [hs[0]] + r
  }

  // The distinct hosts of a batch in increasing order: the order in which a worker
  // takes their semaphores.
  function UniqueBatchHosts(b: Batch): (hs: seq<string>)
    ensures StrictlySorted(hs)
    ensures forall h :: h in hs <==> h in HostSet(b)
  {
    if b == [] then []
    else
      assert HostSet(b) == {HostKey(b[0])} + HostSet(b[1..]) by {
        assert b == [b[0]] + b[1..];
      }
      InsertHost(HostKey(b[0]), UniqueBatchHosts(b[1..]))
  }

  // Check c is filed under h.
  predicate FiledUnder(c: UrlCheck, h: string) {
    (c.host != "" && h == c.host) || (c.host == "" && h == "urlhash:" + c.urlHash)
  }

  // In the fields of the checks: the hosts named in the batch, and the hashes of the others.
  lemma HostsOfBatch(b: Batch)
    ensures StrictlySorted(UniqueBatchHosts(b))
    ensures forall h :: h in UniqueBatchHosts(b) <==> exists c :: c in b && FiledUnder(c, h)
  {
    forall h
      ensures h in HostSet(b) <==> exists c :: c in b && FiledUnder(c, h)
    {
      if c :| c in b && FiledUnder(c, h) {
        assert HostKey(c) == h;
      }
      if h in HostSet(b) {
        var c :| c in b && HostKey(c) == h;
        assert FiledUnder(c, h);
      }
    }
  }
}

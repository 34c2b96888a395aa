/**
 What the admission protocol makes possible: batches that together stay within the limits
 can all be executed at the same time. AdmissionSafety has the converse.
 */
module AdmissionReach {
  import opened Seqs
  import opened HostBatches
  import opened HostOrder
  import opened Admission
  import opened AdmissionSafety

  ghost predicate Leads(c: Config, s: State, run: seq<State>, t: State) {
    Run(c, run) && run[0] == s && run[|run| - 1] == t
  }

  ghost predicate Reaches(c: Config, s: State, t: State) {
    exists run :: Leads(c, s, run, t)
  }

  lemma ReachesItself(c: Config, s: State)
    ensures Reaches(c, s, s)
  {
    assert Leads(c, s, [s], s);
  }

  lemma ReachesNext(c: Config, s: State, t: State, step: Step)
    requires Reaches(c, s, t) && Enabled(c, t, step)
    ensures Reaches(c, s, Apply(c, t, step))
  {
    hide Enabled, Apply;
    var run :| Leads(c, s, run, t);
    var u := Apply(c, t, step);
    var longer := run + [u];
    forall i | 0 < i < |longer|
      ensures Next(c, longer[i - 1], longer[i])
    {
      if i < |run| {
        assert Next(c, run[i - 1], run[i]);
      }
    }
    assert Leads(c, s, longer, u);
  }

  // ----- one batch is admitted ----------------------------------------------------------------

  lemma TakeOne(c: Config, t: State, i: nat, b: Batch, k: nat)
    requires !t.crashed && i < |t.workers| && k < |Hosts(b)| && t.workers[i] == TakingHosts(b, k)
    requires HostCount(t, Hosts(b)[k]) < c.perHost
    ensures Enabled(c, t, TakeHost(i))
    ensures var v := Apply(c, t, TakeHost(i));
            v == t.(workers := t.workers[i := TakingHosts(b, k + 1)], hostSems := v.hostSems)
            && forall h :: HostCount(v, h) == HostCount(t, h) + if h == Hosts(b)[k] then 1 else 0
  {
    hide Hosts;
  }

  // Taking host k leaves those behind it alone.
  lemma LaterHosts(b: Batch, k: nat)
    requires k < |Hosts(b)|
    ensures forall j :: k < j < |Hosts(b)| ==> Hosts(b)[j] != Hosts(b)[k]
    ensures forall h :: HoldsHost(h, Hosts(b)[k..])
                     == (if h == Hosts(b)[k] then 1 else 0) + HoldsHost(h, Hosts(b)[k + 1..])
  {
    StrictlySortedDistinct(Hosts(b));
    assert Hosts(b)[k..] == [Hosts(b)[k]] + Hosts(b)[k + 1..];
  }

  // Worker i takes the hosts of its batch from host k on.
  lemma {:induction false} TakeHosts(c: Config, s: State, t: State, i: nat, b: Batch, k: nat) returns (u: State)
    requires Reaches(c, s, t) && !t.crashed && i < |t.workers| && k <= |Hosts(b)| && t.workers[i] == TakingHosts(b, k)
    requires forall j :: k <= j < |Hosts(b)| ==> HostCount(t, Hosts(b)[j]) < c.perHost
    ensures Reaches(c, s, u) && u == t.(workers := t.workers[i := TakingHosts(b, |Hosts(b)|)], hostSems := u.hostSems)
    ensures forall h :: HostCount(u, h) == HostCount(t, h) + HoldsHost(h, Hosts(b)[k..])
    decreases |Hosts(b)| - k
  {
    if k == |Hosts(b)| {
      u := t;
      assert t.workers[i := TakingHosts(b, k)] == t.workers;
    } else {
      hide Reaches, Hosts, Enabled, Apply, HoldsHost, HostCount;
      TakeOne(c, t, i, b, k);
      var v := Apply(c, t, TakeHost(i));
      ReachesNext(c, s, t, TakeHost(i));
      LaterHosts(b, k);
      u := TakeHosts(c, s, v, i, b, k + 1);
      assert u.workers == t.workers[i := TakingHosts(b, |Hosts(b)|)];
    }
  }

  // Worker i takes its tokens from token k on.
  lemma {:induction false} TakeTokens(c: Config, s: State, t: State, i: nat, b: Batch, k: nat) returns (u: State)
    requires Reaches(c, s, t) && !t.crashed && i < |t.workers| && k <= Need(c, b) && t.workers[i] == TakingTokens(b, k)
    requires t.tokens + Need(c, b) - k <= c.global
    ensures Reaches(c, s, u)
    ensures u == t.(workers := t.workers[i := TakingTokens(b, Need(c, b))], tokens := t.tokens + Need(c, b) - k)
    decreases Need(c, b) - k
  {
    if k == Need(c, b) {
      u := t;
      assert t.workers[i := TakingTokens(b, k)] == t.workers;
    } else {
      var step := TakeToken(i);
      ReachesNext(c, s, t, step);
      u := TakeTokens(c, s, Apply(c, t, step), i, b, k + 1);
      assert u.workers == t.workers[i := TakingTokens(b, Need(c, b))];
    }
  }

  // An idle worker gets the next batch and starts to execute it, if there is room.
  lemma Admit(c: Config, s: State, t: State, i: nat) returns (u: State)
    requires Reaches(c, s, t) && !t.crashed && !t.locked && t.open && t.queue != []
    requires i < |t.workers| && t.workers[i].Idle?
    requires t.tokens + Need(c, t.queue[0]) <= c.global
    requires forall h :: h in Hosts(t.queue[0]) ==> HostCount(t, h) < c.perHost
    ensures var b := t.queue[0];
            Reaches(c, s, u)
            && u == t.(workers := t.workers[i := Running(b)], queue := t.queue[1..],
                       tokens := t.tokens + Need(c, b), hostSems := u.hostSems)
            && forall h :: HostCount(u, h) == HostCount(t, h) + HoldsHost(h, Hosts(b))
  {
    hide Reaches, Hosts, Need, HostCount;
    var b := t.queue[0];
    ReachesNext(c, s, t, Feed(i));
    var t1 := Apply(c, t, Feed(i));
    SameHosts(t, t1);
    assert Hosts(b)[0..] == Hosts(b);
    forall j | 0 <= j < |Hosts(b)|
      ensures HostCount(t1, Hosts(b)[j]) < c.perHost
    {
      assert Hosts(b)[j] in Hosts(b);
    }
    var t2 := TakeHosts(c, s, t1, i, b, 0);
    ReachesNext(c, s, t2, Lock(i));
    var t3 := TakeTokens(c, s, Apply(c, t2, Lock(i)), i, b, 0);
    ReachesNext(c, s, t3, Unlock(i));
    u := Apply(c, t3, Unlock(i));
    assert u.workers == t.workers[i := Running(b)];
    SameHosts(t2, u);
  }

  lemma SameHosts(s: State, t: State)
    requires s.hostSems == t.hostSems
    ensures forall h :: HostCount(s, h) == HostCount(t, h)
  {
  }

  // ----- all of them ------------------------------------------------------------------------------

  function UsesHost(h: string): Batch -> bool {
    (b: Batch) => h in Hosts(b)
  }

  // Together the batches hold no more checks than the global limit, and no more of them use
  // any one host than the per-host limit.
  ghost predicate FitTogether(c: Config, batches: seq<Batch>) {
    |Flatten(batches)| <= c.global && forall h :: Count(UsesHost(h), batches) <= c.perHost
  }

  // The first n batches are being executed and nothing else has happened.
  ghost predicate Started(c: Config, batches: seq<Batch>, n: nat, t: State)
    requires n <= |batches|
  {
    && t.open && !t.cancelled && !t.crashed && !t.locked && t.queue == batches[n..]
    && |t.workers| >= |batches| && t.tokens == |Flatten(batches[..n])|
    && (forall i :: 0 <= i < n ==> t.workers[i] == Running(batches[i]))
    && (forall i :: n <= i < |t.workers| ==> t.workers[i].Idle?)
    && (forall h :: HostCount(t, h) == Count(UsesHost(h), batches[..n]))
  }

  lemma {:induction false} FlattenCovers(batches: seq<Batch>)
    requires forall i :: 0 <= i < |batches| ==> batches[i] != []
    ensures |batches| <= |Flatten(batches)|
  {
    if batches != [] {
      FlattenCovers(batches[1..]);
    }
  }

  lemma NextFits(c: Config, batches: seq<Batch>, n: nat, h: string)
    requires FitTogether(c, batches) && n < |batches|
    ensures |Flatten(batches[..n + 1])| == |Flatten(batches[..n])| + |batches[n]| <= c.global
    ensures Count(UsesHost(h), batches[..n + 1]) == Count(UsesHost(h), batches[..n]) + HoldsHost(h, Hosts(batches[n]))
    ensures Count(UsesHost(h), batches[..n + 1]) <= c.perHost
  {
    assert batches[..n + 1] == batches[..n] + [batches[n]];
    FlattenPiece(batches, n);
    CountSnoc(UsesHost(h), batches[..n], batches[n]);
    CountAppend(UsesHost(h), batches[..n + 1], batches[n + 1..]);
    assert batches == batches[..n + 1] + batches[n + 1..];
  }

  lemma NoneStarted(c: Config, batches: seq<Batch>)
    requires AllBatches(batches, c.global) && FitTogether(c, batches)
    ensures Started(c, batches, 0, Start(c, batches))
  {
    FlattenCovers(batches);
    assert batches[0..] == batches && batches[..0] == [];
  }

  lemma StartNext(c: Config, batches: seq<Batch>, n: nat, origin: State, s: State) returns (t: State)
    requires AllBatches(batches, c.global) && FitTogether(c, batches) && n < |batches|
    requires Reaches(c, origin, s) && Started(c, batches, n, s)
    ensures Reaches(c, origin, t) && Started(c, batches, n + 1, t)
  {
    hide Reaches, FitTogether, Hosts, HoldsHost, HostCount, Flatten, Count;
    forall h
      ensures |Flatten(batches[..n + 1])| == |Flatten(batches[..n])| + |batches[n]| <= c.global
      ensures Count(UsesHost(h), batches[..n + 1])
           == Count(UsesHost(h), batches[..n]) + HoldsHost(h, Hosts(batches[n])) <= c.perHost
    {
      NextFits(c, batches, n, h);
    }
    NextFits(c, batches, n, "");
    assert batches[n..][0] == batches[n] && batches[n..][1..] == batches[n + 1..];
    ClampNeverFires(c, batches[n]);
    forall h | h in Hosts(batches[n])
      ensures HostCount(s, h) < c.perHost
    {
      HeldCounts(h, Hosts(batches[n]));
    }
    t := Admit(c, origin, s, n);
  }

  lemma HeldCounts(h: string, hs: seq<string>)
    requires h in hs
    ensures HoldsHost(h, hs) == 1
  {
  }

  lemma {:induction false} StartUpTo(c: Config, batches: seq<Batch>, n: nat) returns (t: State)
    requires AllBatches(batches, c.global) && FitTogether(c, batches) && n <= |batches|
    ensures Reaches(c, Start(c, batches), t) && Started(c, batches, n, t)
  {
    if n == 0 {
      t := Start(c, batches);
      ReachesItself(c, t);
      NoneStarted(c, batches);
    } else {
      hide *;
      var s := StartUpTo(c, batches, n - 1);
      t := StartNext(c, batches, n - 1, Start(c, batches), s);
    }
  }

  // Batches that stay together within the limits can all be executed at the same time: the
  // limits are reached, and there are workers enough.
  lemma CanRunTogether(c: Config, batches: seq<Batch>) returns (t: State)
    requires AllBatches(batches, c.global) && FitTogether(c, batches)
    ensures Reaches(c, Start(c, batches), t)
    ensures |t.workers| >= |batches| && forall i :: 0 <= i < |batches| ==> t.workers[i] == Running(batches[i])
  {
    t := StartUpTo(c, batches, |batches|);
  }
}

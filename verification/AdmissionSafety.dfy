/** What the admission protocol keeps in every state of every run. */
module AdmissionSafety {
  import opened Seqs
  import opened HostBatches
  import opened HostOrder
  import opened Admission

  // ----- sums over the workers -------------------------------------------------------

  lemma SumPut(c: Config, g: Gauge, ws: seq<Worker>, i: nat, w: Worker)
    requires i < |ws|
    ensures Sum(c, g, ws[i := w]) == Sum(c, g, ws) - Weigh(c, g, ws[i]) + Weigh(c, g, w)
  {
    assert Weights(c, g, ws[i := w]) == Weights(c, g, ws)[i := Weigh(c, g, w)];
    TotalUpdate(Weights(c, g, ws), i, Weigh(c, g, w));
  }

  lemma SumCovers(c: Config, g: Gauge, ws: seq<Worker>, i: nat, j: nat)
    requires i < |ws| && j < |ws|
    ensures i == j ==> Weigh(c, g, ws[i]) <= Sum(c, g, ws)
    ensures i != j ==> Weigh(c, g, ws[i]) + Weigh(c, g, ws[j]) <= Sum(c, g, ws)
  {
    TotalCovers(Weights(c, g, ws), i, j);
  }

  // If the sum is more than worker i's share, some other worker holds part of it.
  lemma HolderBeside(c: Config, g: Gauge, ws: seq<Worker>, i: nat) returns (j: nat)
    requires i < |ws| && Sum(c, g, ws) > Weigh(c, g, ws[i])
    ensures j < |ws| && j != i && Weigh(c, g, ws[j]) > 0
  {
    j := TotalBeside(Weights(c, g, ws), i);
  }

  lemma SumZero(c: Config, g: Gauge, ws: seq<Worker>)
    requires forall i :: 0 <= i < |ws| ==> Weigh(c, g, ws[i]) == 0
    ensures Sum(c, g, ws) == 0
  {
    TotalZero(Weights(c, g, ws));
  }

  lemma SumBelow(c: Config, g: Gauge, g': Gauge, ws: seq<Worker>)
    requires forall i :: 0 <= i < |ws| ==> Weigh(c, g, ws[i]) <= Weigh(c, g', ws[i])
    ensures Sum(c, g, ws) <= Sum(c, g', ws)
  {
    TotalBelow(Weights(c, g, ws), Weights(c, g', ws));
  }

  // ----- every step keeps the invariant ----------------------------------------------

  lemma StartInv(c: Config, batches: seq<Batch>)
    requires AllBatches(batches, c.global)
    ensures Inv(c, Start(c, batches))
    ensures var n := |Start(c, batches).workers|;
            (batches == [] ==> n == 1)
            && (batches != [] ==> n <= c.global && n <= |batches| && (n == c.global || n == |batches|))
  {
    var s := Start(c, batches);
    forall g: Gauge | Shared(g)
      ensures Level(s, g) == Sum(c, g, s.workers) && Level(s, g) <= Limit(c, g)
    {
      SumZero(c, g, s.workers);
    }
  }

  // The shared resources stay balanced when one worker's holdings and the levels change alike.
  lemma PutBalanced(c: Config, s: State, s': State, i: nat, w: Worker)
    requires Balanced(c, s) && i < |s.workers| && s'.workers == s.workers[i := w]
    requires forall g: Gauge :: Shared(g) ==> Level(s', g) - Level(s, g) == Weigh(c, g, w) - Weigh(c, g, s.workers[i])
    requires forall g: Gauge :: Shared(g) && Level(s', g) > Level(s, g) ==> Level(s', g) <= Limit(c, g)
    ensures Balanced(c, s')
  {
    forall g: Gauge | Shared(g)
      ensures Level(s', g) == Sum(c, g, s'.workers) && Level(s', g) <= Limit(c, g)
    {
      SumPut(c, g, s.workers, i, w);
      assert Level(s, g) == Sum(c, g, s.workers);
    }
  }

  // Taking or returning host k changes the holding of exactly that host.
  lemma HostStep(b: Batch, k: nat, h: string)
    requires k < |Hosts(b)|
    ensures HoldsHost(h, Hosts(b)[..k + 1]) == HoldsHost(h, Hosts(b)[..k]) + (if h == Hosts(b)[k] then 1 else 0)
  {
    StrictlySortedDistinct(Hosts(b));
    assert Hosts(b)[..k + 1] == Hosts(b)[..k] + [Hosts(b)[k]];
  }

  lemma AllHosts(b: Batch)
    ensures Hosts(b)[..|Hosts(b)|] == Hosts(b)
    ensures Hosts(b)[..0] == []
  {
  }

  lemma TakesHost(c: Config, s: State, i: nat, w: Worker, h: string)
    requires WorkerOk(c, s, w) && Ready(c, s, TakeHost(i), w)
    ensures var n := HostCount(Around(c, s, TakeHost(i), w), h);
            n - HostCount(s, h) == HoldsHost(h, Held(Moved(c, s, TakeHost(i), w))) - HoldsHost(h, Held(w))
            && (n > HostCount(s, h) ==> n <= c.perHost)
  {
    HostStep(w.batch, w.k, h);
  }

  lemma ReturnsHost(c: Config, s: State, i: nat, w: Worker, h: string)
    requires WorkerOk(c, s, w) && Ready(c, s, ReturnHost(i), w)
    ensures var n := HostCount(Around(c, s, ReturnHost(i), w), h);
            n - HostCount(s, h) == HoldsHost(h, Held(Moved(c, s, ReturnHost(i), w))) - HoldsHost(h, Held(w))
            && n <= HostCount(s, h)
  {
    var k: nat := w.k - 1;
    HostStep(w.batch, k, h);
    assert Held(w) == Hosts(w.batch)[..k + 1] && Held(Moved(c, s, ReturnHost(i), w)) == Hosts(w.batch)[..k];
  }

  lemma LeavesHosts(c: Config, s: State, step: Step, w: Worker)
    requires WorkerOk(c, s, w) && !Global(step) && Ready(c, s, step, w)
    requires !step.TakeHost? && !step.ReturnHost?
    ensures Held(Moved(c, s, step, w)) == Held(w)
    ensures Around(c, s, step, w).hostSems == s.hostSems
  {
    hide Hosts, IsBatch, HostCount, PutHost;
    if !step.Feed? && !step.Exit? {
      AllHosts(w.batch);
    }
  }

  lemma LevelFollowsWorker(c: Config, s: State, step: Step, w: Worker, g: Gauge)
    requires WorkerOk(c, s, w) && !Global(step) && Ready(c, s, step, w) && Shared(g)
    ensures var n := Level(Around(c, s, step, w), g);
            n - Level(s, g) == Weigh(c, g, Moved(c, s, step, w)) - Weigh(c, g, w)
            && (n > Level(s, g) ==> n <= Limit(c, g))
  {
    match g
    case HostSlots(h) =>
      if step.TakeHost? {
        TakesHost(c, s, step.i, w, h);
      } else if step.ReturnHost? {
        ReturnsHost(c, s, step.i, w, h);
      } else {
        LeavesHosts(c, s, step, w);
      }
    case Tokens =>
    case Mutex =>
  }

  lemma StepBalanced(c: Config, s: State, step: Step)
    requires Inv(c, s) && Enabled(c, s, step)
    ensures Balanced(c, Apply(c, s, step))
  {
    var s' := Apply(c, s, step);
    if Global(step) {
      assert forall g: Gauge :: Shared(g) ==> Level(s', g) == Level(s, g);
    } else {
      var w := s.workers[step.i];
      assert WorkerOk(c, s, w);
      forall g: Gauge | Shared(g)
        ensures Level(s', g) - Level(s, g) == Weigh(c, g, Moved(c, s, step, w)) - Weigh(c, g, w)
        ensures Level(s', g) > Level(s, g) ==> Level(s', g) <= Limit(c, g)
      {
        LevelFollowsWorker(c, s, step, w, g);
      }
      PutBalanced(c, s, s', step.i, Moved(c, s, step, w));
    }
  }

  lemma MovedOk(c: Config, s: State, step: Step, w: Worker)
    requires WorkerOk(c, s, w) && !Global(step) && Ready(c, s, step, w)
    requires AllBatches(s.queue, c.global)
    ensures WorkerOk(c, s, Moved(c, s, step, w))
  {
  }

  lemma StepKeepsWorkers(c: Config, s: State, step: Step)
    requires Inv(c, s) && Enabled(c, s, step)
    ensures WorkersOk(c, Apply(c, s, step))
  {
    hide Balanced, IsBatch, UniqueBatchHosts, Need;
    var s' := Apply(c, s, step);
    forall j | 0 <= j < |s'.workers|
      ensures WorkerOk(c, s', s'.workers[j])
    {
      assert WorkerOk(c, s, s.workers[j]);
      if !Global(step) && step.i == j {
        MovedOk(c, s, step, s.workers[j]);
      }
    }
  }

  lemma StepKeepsInv(c: Config, s: State, step: Step)
    requires Inv(c, s) && Enabled(c, s, step)
    ensures Inv(c, Apply(c, s, step))
  {
    StepBalanced(c, s, step);
    StepKeepsWorkers(c, s, step);
    if step.Panic? {
      assert WorkerOk(c, s, s.workers[step.i]);
    } else if step.Report? {
      assert WorkerOk(c, s, s.workers[step.i]);
    }
  }

  lemma RunStep(c: Config, run: seq<State>, k: nat) returns (step: Step)
    requires Run(c, run) && 0 < k < |run|
    ensures Enabled(c, run[k - 1], step) && run[k] == Apply(c, run[k - 1], step)
  {
    assert Next(c, run[k - 1], run[k]);
    step :| Enabled(c, run[k - 1], step) && run[k] == Apply(c, run[k - 1], step);
  }

  lemma {:induction false} RunKeepsInv(c: Config, run: seq<State>, k: nat)
    requires Run(c, run) && Inv(c, run[0]) && k < |run|
    ensures Inv(c, run[k])
  {
    if k > 0 {
      RunKeepsInv(c, run, k - 1);
      var step := RunStep(c, run, k);
      StepKeepsInv(c, run[k - 1], step);
    }
  }

  // ----- limits, counted in checks -----------------------------------------------------

  // Batches are cut no larger than the token capacity, so the clamp in Acquire never
  // fires: a batch holds one token per check.
  lemma ClampNeverFires(c: Config, b: Batch)
    requires IsBatch(b, c.global)
    ensures Need(c, b) == |b|
  {
  }

  lemma {:induction false} HostChecksAbsent(h: string, b: Batch)
    requires forall i :: 0 <= i < |b| ==> HostKey(b[i]) != h
    ensures HostChecks(h, b) == 0
  {
    if b != [] {
      HostChecksAbsent(h, b[1..]);
    }
  }

  // A batch has at most one check per host, and one only for a host it takes a slot of.
  lemma {:induction false} HostChecksHeld(h: string, b: Batch)
    requires HostDistinct(b)
    ensures HostChecks(h, b) <= HoldsHost(h, Hosts(b))
  {
    if b != [] {
      if HostKey(b[0]) == h {
        assert b[0] in b;
        assert h in HostSet(b);
        HostChecksAbsent(h, b[1..]);
      } else {
        HostChecksHeld(h, b[1..]);
        assert HostSet(b[1..]) <= HostSet(b);
      }
    }
  }

  lemma SumsWithinLimits(c: Config, run: seq<State>, k: nat, h: string)
    requires Run(c, run) && Inv(c, run[0]) && k < |run|
    ensures Sum(c, RunningChecks, run[k].workers) <= c.global
    ensures Sum(c, RunningHostChecks(h), run[k].workers) <= c.perHost
  {
    RunKeepsInv(c, run, k);
    var s := run[k];
    forall i | 0 <= i < |s.workers|
      ensures Weigh(c, RunningChecks, s.workers[i]) <= Weigh(c, Tokens, s.workers[i])
      ensures Weigh(c, RunningHostChecks(h), s.workers[i]) <= Weigh(c, HostSlots(h), s.workers[i])
    {
      assert WorkerOk(c, s, s.workers[i]);
      if s.workers[i].Running? {
        HostChecksHeld(h, s.workers[i].batch);
      }
    }
    SumBelow(c, RunningChecks, Tokens, s.workers);
    SumBelow(c, RunningHostChecks(h), HostSlots(h), s.workers);
    assert Shared(Tokens) && Shared(HostSlots(h));
    assert Level(s, Tokens) == Sum(c, Tokens, s.workers);
    assert Level(s, HostSlots(h)) == Sum(c, HostSlots(h), s.workers);
  }

  // The checks of all batches that are being executed.
  function RunningNow(ws: seq<Worker>): Batch {
    if ws == [] then [] else (if ws[0].Running? then ws[0].batch else []) + RunningNow(ws[1..])
  }

  function OnHost(host: string): UrlCheck -> bool {
    (c: UrlCheck) => c.host == host
  }

  function OnHash(urlHash: string): UrlCheck -> bool {
    (c: UrlCheck) => c.host == "" && c.urlHash == urlHash
  }

  lemma SumFirst(c: Config, g: Gauge, ws: seq<Worker>)
    requires ws != []
    ensures Sum(c, g, ws) == Weigh(c, g, ws[0]) + Sum(c, g, ws[1..])
  {
    assert Weights(c, g, ws)[1..] == Weights(c, g, ws[1..]);
  }

  lemma {:induction false} RunningIsSummed(c: Config, ws: seq<Worker>)
    ensures |RunningNow(ws)| == Sum(c, RunningChecks, ws)
  {
    if ws != [] {
      SumFirst(c, RunningChecks, ws);
      RunningIsSummed(c, ws[1..]);
    }
  }

  // All checks with property p are filed under key h.
  ghost predicate Under(p: UrlCheck -> bool, h: string) {
    forall c :: p(c) ==> HostKey(c) == h
  }

  lemma {:induction false} CountedUnder(p: UrlCheck -> bool, h: string, b: Batch)
    requires Under(p, h)
    ensures Count(p, b) <= HostChecks(h, b)
  {
    if b != [] {
      CountedUnder(p, h, b[1..]);
    }
  }

  lemma {:induction false} RunningUnder(c: Config, ws: seq<Worker>, p: UrlCheck -> bool, h: string)
    requires Under(p, h)
    ensures Count(p, RunningNow(ws)) <= Sum(c, RunningHostChecks(h), ws)
  {
    hide HostChecks, Under, HostKey;
    if ws != [] {
      SumFirst(c, RunningHostChecks(h), ws);
      RunningUnder(c, ws[1..], p, h);
      var b := if ws[0].Running? then ws[0].batch else [];
      CountAppend(p, b, RunningNow(ws[1..]));
      CountedUnder(p, h, b);
    }
  }

  // In every reachable state no more checks are being executed than the global limit, no
  // more of them name any one host than the per-host limit, and no more of those without a
  // host have any one URL hash.
  lemma RunningWithinLimits(c: Config, run: seq<State>, k: nat, host: string, urlHash: string)
    requires Run(c, run) && Inv(c, run[0]) && k < |run|
    ensures |RunningNow(run[k].workers)| <= c.global
    ensures host != "" ==> Count(OnHost(host), RunningNow(run[k].workers)) <= c.perHost
    ensures Count(OnHash(urlHash), RunningNow(run[k].workers)) <= c.perHost
  {
    hide Run, Inv, Sum, RunningNow;
    var ws := run[k].workers;
    SumsWithinLimits(c, run, k, host);
    SumsWithinLimits(c, run, k, "urlhash:" + urlHash);
    RunningIsSummed(c, ws);
    if host != "" {
      RunningUnder(c, ws, OnHost(host), host);
    }
    RunningUnder(c, ws, OnHash(urlHash), "urlhash:" + urlHash);
  }

  // At most one worker is inside the token loop or its rollback.
  lemma OneInTokenLoop(c: Config, s: State, i: nat, j: nat)
    requires Inv(c, s) && i < j < |s.workers|
    ensures Weigh(c, Mutex, s.workers[i]) + Weigh(c, Mutex, s.workers[j]) <= 1
  {
    SumCovers(c, Mutex, s.workers, i, j);
    assert Shared(Mutex) && Level(s, Mutex) == Sum(c, Mutex, s.workers);
  }

  // ----- every batch is accounted for exactly once -----------------------------------

  function Reported(os: seq<Outcome>): (bs: seq<Batch>)
    ensures |bs| == |os|
    ensures forall i :: 0 <= i < |os| ==> bs[i] == os[i].batch
  {
    seq(|os|, i requires 0 <= i < |os| => os[i].batch)
  }

  // How often batch b is queued, in a worker's hands, reported or given up.
  function Copies(c: Config, s: State, b: Batch): nat
  {
    Elsewhere(s, b) + Sum(c, HasBatch(b), s.workers)
  }

  function Elsewhere(s: State, b: Batch): nat {
    multiset(s.queue)[b] + multiset(Reported(s.outcomes))[b] + multiset(s.unfed)[b]
  }

  lemma FeedPassesBatch(s: State, b: Batch)
    requires s.queue != []
    ensures Elsewhere(s, b) == Elsewhere(s.(queue := s.queue[1..]), b) + if b == s.queue[0] then 1 else 0
  {
    assert s.queue == [s.queue[0]] + s.queue[1..];
  }

  lemma ReportPassesBatch(s: State, o: Outcome, b: Batch)
    ensures Elsewhere(s.(outcomes := s.outcomes + [o]), b) == Elsewhere(s, b) + if b == o.batch then 1 else 0
  {
    assert Reported(s.outcomes + [o]) == Reported(s.outcomes) + [o.batch];
  }

  lemma SameElsewhere(s: State, t: State, b: Batch)
    requires s.queue == t.queue && s.outcomes == t.outcomes && s.unfed == t.unfed
    ensures Elsewhere(s, b) == Elsewhere(t, b)
  {
  }

  lemma MovePassesBatch(c: Config, s: State, step: Step, w: Worker, b: Batch)
    requires !Global(step) && Ready(c, s, step, w)
    ensures Elsewhere(Around(c, s, step, w), b) + Weigh(c, HasBatch(b), Moved(c, s, step, w))
         == Elsewhere(s, b) + Weigh(c, HasBatch(b), w)
  {
    hide Elsewhere, UniqueBatchHosts, Need, HostCount;
    if step.Feed? {
      FeedPassesBatch(s, b);
    } else if step.Report? {
      ReportPassesBatch(s, Outcome(w.batch, w.executed), b);
    } else {
      SameElsewhere(s, Around(c, s, step, w), b);
    }
  }

  lemma StepKeepsCopies(c: Config, s: State, step: Step, b: Batch)
    requires Inv(c, s) && Enabled(c, s, step)
    ensures Copies(c, Apply(c, s, step), b) == Copies(c, s, b)
  {
    if !Global(step) {
      var w := s.workers[step.i];
      MovePassesBatch(c, s, step, w, b);
      SumPut(c, HasBatch(b), s.workers, step.i, Moved(c, s, step, w));
    }
  }

  // No batch is lost or doubled, whatever the interleaving.
  lemma {:induction false} RunKeepsCopies(c: Config, run: seq<State>, k: nat, b: Batch)
    requires Run(c, run) && Inv(c, run[0]) && k < |run|
    ensures Copies(c, run[k], b) == Copies(c, run[0], b)
  {
    if k > 0 {
      RunKeepsCopies(c, run, k - 1, b);
      RunKeepsInv(c, run, k - 1);
      var step := RunStep(c, run, k);
      StepKeepsCopies(c, run[k - 1], step, b);
    }
  }

  // Once every worker has exited, the reported and the given-up batches are together
  // exactly the batches of the run.
  lemma ExitedAccounts(c: Config, run: seq<State>, batches: seq<Batch>)
    requires AllBatches(batches, c.global) && Run(c, run) && run[0] == Start(c, batches)
    requires var s := run[|run| - 1]; s.queue == [] && forall i :: 0 <= i < |s.workers| ==> s.workers[i].Exited?
    ensures var s := run[|run| - 1]; multiset(Reported(s.outcomes)) + multiset(s.unfed) == multiset(batches)
  {
    var s := run[|run| - 1];
    StartInv(c, batches);
    forall b: Batch
      ensures multiset(Reported(s.outcomes))[b] + multiset(s.unfed)[b] == multiset(batches)[b]
    {
      RunKeepsCopies(c, run, |run| - 1, b);
      SumZero(c, HasBatch(b), run[0].workers);
      SumZero(c, HasBatch(b), s.workers);
    }
  }
}

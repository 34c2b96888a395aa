/**
 Liveness of the admission protocol: some step is always possible while a worker is
 unfinished, every run is short, and every run that can go no further ends clean,
 unless a cancellation reached a worker inside the token loop, which crashes it.
 */
module AdmissionProgress {
  import opened HostBatches
  import opened HostOrder
  import opened Text
  import opened Admission
  import opened AdmissionSafety

  // ----- ranking: every step brings the end nearer ------------------------------------

  function BatchSteps(c: Config, b: Batch): nat
  {
    2 * |Hosts(b)| + 2 * Need(c, b) + 5
  }

  function QueueSteps(c: Config, q: seq<Batch>): nat
  {
    if q == [] then 0 else BatchSteps(c, q[0]) + QueueSteps(c, q[1..])
  }

  // An upper bound on the steps still to come.
  function StepsToGo(c: Config, s: State): nat
  {
    QueueSteps(c, s.queue) + Sum(c, Rank, s.workers)
    + (if s.open then 1 else 0) + (if s.cancelled then 0 else 1) + (if s.crashed then 0 else 1)
  }

  lemma MovedIsNearer(c: Config, s: State, step: Step, w: Worker)
    requires WorkerOk(c, s, w) && !Global(step) && Ready(c, s, step, w)
    ensures step.Feed? ==> StepsLeft(c, Moved(c, s, step, w)) == BatchSteps(c, s.queue[0])
    ensures !step.Feed? && !step.Panic? ==> StepsLeft(c, Moved(c, s, step, w)) < StepsLeft(c, w)
  {
  }

  lemma StepIsNearer(c: Config, s: State, step: Step)
    requires Inv(c, s) && Enabled(c, s, step)
    ensures StepsToGo(c, Apply(c, s, step)) < StepsToGo(c, s)
  {
    if !Global(step) {
      var w := s.workers[step.i];
      assert WorkerOk(c, s, w);
      MovedIsNearer(c, s, step, w);
      SumPut(c, Rank, s.workers, step.i, Moved(c, s, step, w));
      SumCovers(c, Rank, s.workers, step.i, step.i);
      assert step.Feed? ==> QueueSteps(c, s.queue) == BatchSteps(c, s.queue[0]) + QueueSteps(c, s.queue[1..]);
    }
  }

  // No run from a good state is longer than the bound of its first state: every run
  // terminates, under any schedule and with a cancellation at any time or none.
  lemma {:induction false} RunsAreShort(c: Config, run: seq<State>, k: nat)
    requires Run(c, run) && Inv(c, run[0]) && k < |run|
    ensures k + StepsToGo(c, run[k]) <= StepsToGo(c, run[0])
  {
    if k > 0 {
      RunsAreShort(c, run, k - 1);
      RunKeepsInv(c, run, k - 1);
      var step := RunStep(c, run, k);
      StepIsNearer(c, run[k - 1], step);
    }
  }

  // ----- deadlock freedom -------------------------------------------------------------

  // The steps that need no cancellation.
  predicate Plain(s: State, step: Step) {
    !step.Cancel? && !step.HostAbort? && !step.TokenAbort? && (step.CloseFeed? ==> s.queue == [])
  }

  // A worker that waits for something another worker holds.
  predicate Waiting(c: Config, w: Worker)
  {
    w.TakingHosts? || (w.TakingTokens? && w.t < Need(c, w.batch))
  }

  // The slot a worker is about to return is taken.
  lemma CanReturnHost(c: Config, s: State, i: nat)
    requires Inv(c, s) && i < |s.workers| && s.workers[i].ReturningHosts? && s.workers[i].k > 0
    ensures Ready(c, s, ReturnHost(i), s.workers[i])
  {
    var w := s.workers[i];
    assert WorkerOk(c, s, w);
    var h := Hosts(w.batch)[w.k - 1];
    assert Hosts(w.batch)[..w.k][w.k - 1] == h;
    SumCovers(c, HostSlots(h), s.workers, i, i);
    assert Shared(HostSlots(h)) && Level(s, HostSlots(h)) == Sum(c, HostSlots(h), s.workers);
  }

  // Every other kind of worker has a step of its own that nothing can block.
  lemma OwnStep(c: Config, s: State, i: nat) returns (step: Step)
    requires Inv(c, s) && !s.crashed && i < |s.workers|
    requires !s.workers[i].Exited? && !Waiting(c, s.workers[i])
    ensures Enabled(c, s, step) && Plain(s, step)
    ensures s.workers[i].Panicking? ==> step == Panic(i)
    ensures s.workers[i].RollingBack? ==> step == UndoToken(i) || step == UnlockFailed(i)
  {
    var w := s.workers[i];
    assert WorkerOk(c, s, w);
    assert Shared(Tokens) && Level(s, Tokens) == Sum(c, Tokens, s.workers);
    assert Shared(Mutex) && Level(s, Mutex) == Sum(c, Mutex, s.workers);
    SumCovers(c, Tokens, s.workers, i, i);
    SumCovers(c, Mutex, s.workers, i, i);
    match w
    case Idle => step := if s.open && s.queue == [] then CloseFeed else if s.open then Feed(i) else Exit(i);
    case TakingTokens(b, t) => step := Unlock(i);
    case RollingBack(b, t) => step := if t > 0 then UndoToken(i) else UnlockFailed(i);
    case Panicking(b) => step := Panic(i);
    case Running(b) => step := Finish(i);
    case ReturningTokens(b, t) => step := ReturnToken(i);
    case ReturningHosts(b, k, e) =>
      if k > 0 {
        CanReturnHost(c, s, i);
        step := ReturnHost(i);
      } else {
        step := Report(i);
      }
  }

  // A worker in the token loop is never blocked by workers that wait themselves: it
  // alone holds the mutex, so the missing tokens are with a batch past its admission.
  lemma TokenLoopMoves(c: Config, s: State, i: nat) returns (step: Step)
    requires Inv(c, s) && !s.crashed && i < |s.workers|
    requires s.workers[i].TakingTokens?
    ensures Enabled(c, s, step) && Plain(s, step)
  {
    var w := s.workers[i];
    assert WorkerOk(c, s, w);
    if w.t == Need(c, w.batch) {
      step := OwnStep(c, s, i);
    } else if s.tokens < c.global {
      step := TakeToken(i);
    } else {
      assert Shared(Tokens) && Level(s, Tokens) == Sum(c, Tokens, s.workers);
      var j := HolderBeside(c, Tokens, s.workers, i);
      OneInTokenLoop(c, s, if i < j then i else j, if i < j then j else i);
      step := OwnStep(c, s, j);
    }
  }

  // v waits for a host; w, if it waits for one, waits for a later one.
  predicate WaitsEarlier(v: Worker, w: Worker) {
    && v.TakingHosts? && v.k < |Hosts(v.batch)|
    && w.TakingHosts? && (w.k < |Hosts(w.batch)| ==> Before(Hosts(v.batch)[v.k], Hosts(w.batch)[w.k]))
  }

  // Following who holds the host a worker waits for leads to ever later hosts, so it
  // ends at a worker that can move.
  lemma {:induction false} HostChain(c: Config, s: State, i: nat, seen: set<nat>) returns (step: Step)
    requires Inv(c, s) && !s.crashed && i < |s.workers| && !s.locked
    requires forall j :: 0 <= j < |s.workers| ==> s.workers[j].Exited? || Waiting(c, s.workers[j])
    requires s.workers[i].TakingHosts?
    requires forall j :: j in seen ==> j < |s.workers| && WaitsEarlier(s.workers[j], s.workers[i])
    ensures Enabled(c, s, step) && Plain(s, step)
    decreases |s.workers| - |seen|
  {
    var w := s.workers[i];
    assert WorkerOk(c, s, w);
    if w.k == |Hosts(w.batch)| {
      step := Lock(i);
    } else {
      var h := Hosts(w.batch)[w.k];
      BeforeIrreflexive(h);
      assert i !in seen;
      SeenFits(seen + {i}, |s.workers|);
      if HostCount(s, h) < c.perHost {
        step := TakeHost(i);
      } else {
        assert Shared(HostSlots(h)) && Level(s, HostSlots(h)) == Sum(c, HostSlots(h), s.workers);
        NotHeldYet(w);
        var j := HolderBeside(c, HostSlots(h), s.workers, i);
        HolderWaitsLater(c, s, j, h);
        forall m | m in seen + {i}
          ensures m < |s.workers| && WaitsEarlier(s.workers[m], s.workers[j])
        {
          if m != i && s.workers[j].k < |Hosts(s.workers[j].batch)| {
            BeforeTransitive(Hosts(s.workers[m].batch)[s.workers[m].k], h, Hosts(s.workers[j].batch)[s.workers[j].k]);
          }
        }
        step := HostChain(c, s, j, seen + {i});
      }
    }
  }

  lemma SeenFits(seen: set<nat>, n: nat)
    requires forall j :: j in seen ==> j < n
    ensures |seen| <= n
  {
    SubsetSize(seen, NatsBelow(n));
  }

  lemma {:induction false} SubsetSize(a: set<nat>, b: set<nat>)
    requires a <= b
    ensures |a| <= |b|
  {
    if a != {} {
      var x :| x in a;
      SubsetSize(a - {x}, b - {x});
    }
  }

  function NatsBelow(n: nat): (all: set<nat>)
    ensures |all| == n && forall j: nat :: j in all <==> j < n
  {
    if n == 0 then {} else NatsBelow(n - 1) + {n - 1}
  }

  lemma NotHeldYet(w: Worker)
    requires w.TakingHosts? && w.k < |Hosts(w.batch)|
    ensures Hosts(w.batch)[w.k] !in Held(w)
  {
    StrictlySortedDistinct(Hosts(w.batch));
  }

  // A waiting worker that holds host h waits, if for a host at all, for a later one.
  lemma HolderWaitsLater(c: Config, s: State, j: nat, h: string)
    requires Inv(c, s) && !s.locked && j < |s.workers|
    requires s.workers[j].Exited? || Waiting(c, s.workers[j])
    requires Weigh(c, HostSlots(h), s.workers[j]) > 0
    ensures s.workers[j].TakingHosts?
    ensures s.workers[j].k < |Hosts(s.workers[j].batch)| ==> Before(h, Hosts(s.workers[j].batch)[s.workers[j].k])
  {
    var w := s.workers[j];
    assert WorkerOk(c, s, w);
    SumCovers(c, Mutex, s.workers, j, j);
    assert Shared(Mutex) && Level(s, Mutex) == Sum(c, Mutex, s.workers);
  }

  // Deadlock freedom: while some worker is unfinished, and nothing has crashed, a step
  // that needs no cancellation is possible.
  lemma SomeStep(c: Config, s: State, i: nat) returns (step: Step)
    requires Inv(c, s) && !s.crashed && i < |s.workers| && !s.workers[i].Exited?
    ensures Enabled(c, s, step) && Plain(s, step)
  {
    if j :| 0 <= j < |s.workers| && !s.workers[j].Exited? && !Waiting(c, s.workers[j]) {
      step := OwnStep(c, s, j);
    } else if j :| 0 <= j < |s.workers| && s.workers[j].TakingTokens? {
      step := TokenLoopMoves(c, s, j);
    } else {
      if s.locked {
        assert Shared(Mutex) && Level(s, Mutex) == Sum(c, Mutex, s.workers);
        SumZero(c, Mutex, s.workers);
      }
      step := HostChain(c, s, i, {});
    }
  }

  // ----- how runs end -----------------------------------------------------------------

  ghost predicate AllExited(s: State) {
    forall i :: 0 <= i < |s.workers| ==> s.workers[i].Exited?
  }

  // Mutex free, every semaphore empty, nothing queued.
  ghost predicate Clean(s: State) {
    !s.locked && s.tokens == 0 && (forall h :: HostCount(s, h) == 0) && s.queue == []
  }

  lemma ExitedIsClean(c: Config, s: State)
    requires Inv(c, s) && AllExited(s)
    ensures Clean(s)
  {
    assert WorkerOk(c, s, s.workers[0]);
    SumZero(c, Tokens, s.workers);
    SumZero(c, Mutex, s.workers);
    assert Shared(Tokens) && Level(s, Tokens) == Sum(c, Tokens, s.workers);
    assert Shared(Mutex) && Level(s, Mutex) == Sum(c, Mutex, s.workers);
    forall h
      ensures HostCount(s, h) == 0
    {
      SumZero(c, HostSlots(h), s.workers);
      assert Shared(HostSlots(h)) && Level(s, HostSlots(h)) == Sum(c, HostSlots(h), s.workers);
    }
  }

  // A run that can go no further has crashed, or every worker has exited with the mutex
  // free and every semaphore empty, and each batch was reported once or given up.
  lemma EndedRun(c: Config, run: seq<State>, batches: seq<Batch>)
    requires AllBatches(batches, c.global) && Run(c, run) && run[0] == Start(c, batches)
    requires Ended(c, run[|run| - 1])
    ensures var s := run[|run| - 1];
            s.crashed ||
            (AllExited(s) && Clean(s) && multiset(Reported(s.outcomes)) + multiset(s.unfed) == multiset(batches))
  {
    var s := run[|run| - 1];
    StartInv(c, batches);
    RunKeepsInv(c, run, |run| - 1);
    if !s.crashed {
      if i :| 0 <= i < |s.workers| && !s.workers[i].Exited? {
        var step := SomeStep(c, s, i);
        assert false;
      }
      ExitedIsClean(c, s);
      ExitedAccounts(c, run, batches);
    }
  }

  // Without a cancellation a run cannot crash, and ends with every batch executed.
  lemma UncancelledRun(c: Config, run: seq<State>, batches: seq<Batch>)
    requires AllBatches(batches, c.global) && Run(c, run) && run[0] == Start(c, batches)
    requires Ended(c, run[|run| - 1]) && !run[|run| - 1].cancelled
    ensures var s := run[|run| - 1];
            !s.crashed && AllExited(s) && Clean(s) && multiset(Reported(s.outcomes)) == multiset(batches)
            && forall i :: 0 <= i < |s.outcomes| ==> s.outcomes[i].executed
  {
    StartInv(c, batches);
    RunKeepsInv(c, run, |run| - 1);
    EndedRun(c, run, batches);
  }

  // ----- when a cancellation can crash the run -----------------------------------------

  // The worker's batch does not have its tokens yet.
  predicate Unadmitted(c: Config, w: Worker)
  {
    Waiting(c, w) || w.RollingBack? || w.Panicking?
  }

  // Some batch still to be handed out, or handed out, does not have its tokens yet.
  ghost predicate Exposed(c: Config, s: State)
  {
    !s.crashed && ((s.open && s.queue != []) || exists i :: 0 <= i < |s.workers| && Unadmitted(c, s.workers[i]))
  }

  ghost predicate CrashesFrom(c: Config, s: State, run: seq<State>)
  {
    Run(c, run) && run[0] == s && run[|run| - 1].crashed
  }

  // The run has crashed, worker i is unadmitted, or a batch is still queued.
  predicate StillExposed(c: Config, s: State, i: nat)
  {
    s.crashed || (i < |s.workers| && Unadmitted(c, s.workers[i])) || (s.open && s.queue != [])
  }

  lemma StillExposedIsExposed(c: Config, s: State, i: nat)
    requires StillExposed(c, s, i)
    ensures s.crashed || Exposed(c, s)
  {
  }

  lemma RollbackGoesOn(c: Config, s: State, i: nat) returns (step: Step)
    requires Inv(c, s) && !s.crashed && i < |s.workers|
    requires s.workers[i].Panicking? || s.workers[i].RollingBack?
    ensures Enabled(c, s, step) && StillExposed(c, Apply(c, s, step), i)
  {
    step := OwnStep(c, s, i);
  }

  lemma TokenLoopAborts(c: Config, s: State, i: nat) returns (step: Step)
    requires !s.crashed && i < |s.workers|
    requires s.workers[i].TakingTokens? && s.workers[i].t < Need(c, s.workers[i].batch)
    ensures Enabled(c, s, step) && StillExposed(c, Apply(c, s, step), i)
  {
    step := if s.cancelled then TokenAbort(i) else Cancel;
  }

  lemma PlainKeepsTaker(c: Config, s: State, step: Step, i: nat)
    requires Inv(c, s) && Enabled(c, s, step) && Plain(s, step)
    requires i < |s.workers| && s.workers[i].TakingHosts?
    ensures StillExposed(c, Apply(c, s, step), i)
  {
    assert WorkerOk(c, s, s.workers[i]);
  }

  lemma PlainKeepsQueue(c: Config, s: State, step: Step)
    requires Inv(c, s) && Enabled(c, s, step) && Plain(s, step) && s.open && s.queue != []
    ensures StillExposed(c, Apply(c, s, step), if step.Feed? then step.i else 0)
  {
  }

  lemma TowardsCrashFrom(c: Config, s: State, i: nat) returns (step: Step)
    requires Inv(c, s) && !s.crashed && i < |s.workers| && Unadmitted(c, s.workers[i])
    ensures Enabled(c, s, step) && StillExposed(c, Apply(c, s, step), i)
  {
    if s.workers[i].TakingTokens? {
      step := TokenLoopAborts(c, s, i);
    } else if s.workers[i].TakingHosts? {
      step := SomeStep(c, s, i);
      PlainKeepsTaker(c, s, step, i);
    } else {
      step := RollbackGoesOn(c, s, i);
    }
  }

  // An exposed state has a step that crashes or leaves it exposed.
  lemma TowardsCrash(c: Config, s: State) returns (step: Step)
    requires Inv(c, s) && Exposed(c, s)
    ensures Enabled(c, s, step)
    ensures Apply(c, s, step).crashed || Exposed(c, Apply(c, s, step))
  {
    var i: nat := 0;
    if j: nat :| j < |s.workers| && Unadmitted(c, s.workers[j]) {
      i := j;
      step := TowardsCrashFrom(c, s, i);
    } else {
      assert WorkerOk(c, s, s.workers[0]);
      step := SomeStep(c, s, 0);
      PlainKeepsQueue(c, s, step);
      i := if step.Feed? then step.i else 0;
    }
    StillExposedIsExposed(c, Apply(c, s, step), i);
  }

  lemma {:induction false} CrashRun(c: Config, s: State) returns (run: seq<State>)
    requires Inv(c, s) && Exposed(c, s)
    ensures CrashesFrom(c, s, run)
    decreases StepsToGo(c, s)
  {
    var step := TowardsCrash(c, s);
    var s' := Apply(c, s, step);
    var rest := [s'];
    if !s'.crashed {
      StepKeepsInv(c, s, step);
      StepIsNearer(c, s, step);
      rest := CrashRun(c, s');
    }
    run := [s] + rest;
    forall i | 0 < i < |run|
      ensures Next(c, run[i - 1], run[i])
    {
      if i > 1 {
        assert Next(c, rest[i - 2], rest[i - 1]);
      }
    }
  }

  lemma StepStaysUnexposed(c: Config, s: State, step: Step)
    requires Inv(c, s) && Enabled(c, s, step) && !Exposed(c, s)
    ensures !Apply(c, s, step).crashed && !Exposed(c, Apply(c, s, step))
  {
    var s' := Apply(c, s, step);
    if !Global(step) {
      assert !Unadmitted(c, s.workers[step.i]);
      assert WorkerOk(c, s, s.workers[step.i]);
    }
    forall i | 0 <= i < |s'.workers|
      ensures !Unadmitted(c, s'.workers[i])
    {
      assert !Unadmitted(c, s.workers[i]);
    }
  }

  lemma {:induction false} UnexposedRun(c: Config, run: seq<State>, k: nat)
    requires Run(c, run) && Inv(c, run[0]) && !run[0].crashed && !Exposed(c, run[0]) && k < |run|
    ensures !run[k].crashed && !Exposed(c, run[k])
  {
    if k > 0 {
      UnexposedRun(c, run, k - 1);
      RunKeepsInv(c, run, k - 1);
      var step := RunStep(c, run, k);
      StepStaysUnexposed(c, run[k - 1], step);
    }
  }

  // From any live state, some schedule and some moment of cancellation crash the run if
  // and only if a batch is still waiting for its admission.
  lemma CrashReachable(c: Config, s: State)
    requires Inv(c, s) && !s.crashed
    ensures (exists run :: CrashesFrom(c, s, run)) <==> Exposed(c, s)
  {
    if Exposed(c, s) {
      var run := CrashRun(c, s);
    }
    if run :| CrashesFrom(c, s, run) && !Exposed(c, s) {
      UnexposedRun(c, run, |run| - 1);
    }
  }

  // So a run with any batch at all can be crashed by an ill-timed cancellation. Today no
  // caller can cancel: the one call chain passes context.Background, and UncancelledRun
  // is what holds of it.
  lemma StartIsExposed(c: Config, batches: seq<Batch>) returns (run: seq<State>)
    requires AllBatches(batches, c.global) && batches != []
    ensures CrashesFrom(c, Start(c, batches), run)
  {
    StartInv(c, batches);
    run := CrashRun(c, Start(c, batches));
  }
}

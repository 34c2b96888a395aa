/**
 The admission protocol of the real-URL run
 (cmd/uptime-bench-veriflier-url-once/main.go): workers take one slot of every host
 of a batch in sorted order, then the token mutex, then one token per check, run the
 batch, and give everything back. Each constructor of Step is one atomic action of one
 goroutine; a run interleaves them freely, and Cancel may happen at any time.

 When the token loop is cancelled, Acquire returns a nil release function, the caller
 stores it over its no-op, and its own release calls it: the goroutine panics and the
 process ends. The worker states RollingBack and Panicking and the flag crashed are
 that path.
 */
module Admission {
  import opened Seqs
  import opened HostBatches
  import opened HostOrder

  // Limits as the run uses them, after non-positive values became 1.
  datatype Config = Config(perHost: Positive, global: Positive)

  datatype Worker =
    | Idle
    | TakingHosts(batch: Batch, k: nat)
    | TakingTokens(batch: Batch, t: nat)
    | RollingBack(batch: Batch, t: nat)
    | Panicking(batch: Batch)
    | Running(batch: Batch)
    | ReturningTokens(batch: Batch, t: nat)
    | ReturningHosts(batch: Batch, k: nat, executed: bool)
    | Exited

  // What a worker reports for a batch: it ran, or its admission was cancelled.
  datatype Outcome = Outcome(batch: Batch, executed: bool)

  datatype State = State(
    queue: seq<Batch>, open: bool, cancelled: bool, crashed: bool,
    workers: seq<Worker>, hostSems: map<string, nat>, tokens: nat, locked: bool,
    outcomes: seq<Outcome>, unfed: seq<Batch>)

  datatype Step =
    | Cancel
    | CloseFeed
    | Feed(i: nat)
    | Exit(i: nat)
    | TakeHost(i: nat)
    | HostAbort(i: nat)
    | Lock(i: nat)
    | TakeToken(i: nat)
    | TokenAbort(i: nat)
    | Unlock(i: nat)
    | UndoToken(i: nat)
    | UnlockFailed(i: nat)
    | Panic(i: nat)
    | Finish(i: nat)
    | ReturnToken(i: nat)
    | ReturnHost(i: nat)
    | Report(i: nat)

  // Tokens a batch asks for, with the clamp of lockedTokenSemaphore.Acquire.
  function Need(c: Config, b: Batch): nat
  {
    if |b| > c.global then c.global else |b|
  }

  function HostCount(s: State, h: string): nat {
    if h in s.hostSems then s.hostSems[h] else 0
  }

  function Hosts(b: Batch): seq<string> {
    UniqueBatchHosts(b)
  }

  predicate Global(step: Step) {
    step.Cancel? || step.CloseFeed?
  }

  // Worker w may take this step of its own in state s.
  predicate Ready(c: Config, s: State, step: Step, w: Worker)
    requires !Global(step)
  {
    match step
    case Feed(_) => w.Idle? && s.open && s.queue != []
    case Exit(_) => w.Idle? && !s.open
    case TakeHost(_) => w.TakingHosts? && w.k < |Hosts(w.batch)| && HostCount(s, Hosts(w.batch)[w.k]) < c.perHost
    case HostAbort(_) => w.TakingHosts? && w.k < |Hosts(w.batch)| && s.cancelled
    case Lock(_) => w.TakingHosts? && w.k == |Hosts(w.batch)| && !s.locked
    case TakeToken(_) => w.TakingTokens? && w.t < Need(c, w.batch) && s.tokens < c.global
    case TokenAbort(_) => w.TakingTokens? && w.t < Need(c, w.batch) && s.cancelled
    case Unlock(_) => w.TakingTokens? && w.t == Need(c, w.batch) && s.locked
    case UndoToken(_) => w.RollingBack? && w.t > 0 && s.tokens > 0
    case UnlockFailed(_) => w.RollingBack? && w.t == 0 && s.locked
    case Panic(_) => w.Panicking?
    case Finish(_) => w.Running?
    case ReturnToken(_) => w.ReturningTokens? && w.t > 0 && s.tokens > 0
    case ReturnHost(_) =>
      w.ReturningHosts? && 0 < w.k <= |Hosts(w.batch)| && HostCount(s, Hosts(w.batch)[w.k - 1]) > 0
    case Report(_) => w.ReturningHosts? && w.k == 0
  }

  predicate Enabled(c: Config, s: State, step: Step)
  {
    !s.crashed &&
    match step
    case Cancel => !s.cancelled
    case CloseFeed => s.open && (s.queue == [] || s.cancelled)
    case _ => step.i < |s.workers| && Ready(c, s, step, s.workers[step.i])
  }

  // The worker after its step.
  function Moved(c: Config, s: State, step: Step, w: Worker): Worker
    requires !Global(step) && Ready(c, s, step, w)
  {
    match step
    case Feed(_) => TakingHosts(s.queue[0], 0)
    case Exit(_) => Exited
    case TakeHost(_) => TakingHosts(w.batch, w.k + 1)
    case HostAbort(_) => ReturningHosts(w.batch, w.k, false)
    case Lock(_) => TakingTokens(w.batch, 0)
    case TakeToken(_) => TakingTokens(w.batch, w.t + 1)
    case TokenAbort(_) => RollingBack(w.batch, w.t)
    case Unlock(_) => Running(w.batch)
    case UndoToken(_) => RollingBack(w.batch, w.t - 1)
    case UnlockFailed(_) => Panicking(w.batch)
    case Panic(_) => w
    case Finish(_) => ReturningTokens(w.batch, Need(c, w.batch))
    case ReturnToken(_) =>
      if w.t == 1 then ReturningHosts(w.batch, |Hosts(w.batch)|, true) else ReturningTokens(w.batch, w.t - 1)
    case ReturnHost(_) => ReturningHosts(w.batch, w.k - 1, w.executed)
    case Report(_) => Idle
  }

  function PutHost(s: State, h: string, n: nat): State {
    s.(hostSems := s.hostSems[h := n])
  }

  // Everything but the workers after worker w's step.
  function Around(c: Config, s: State, step: Step, w: Worker): (r: State)
    requires !Global(step) && Ready(c, s, step, w)
    ensures r.workers == s.workers
  {
    match step
    case Feed(_) => s.(queue := s.queue[1..])
    case TakeHost(_) =>
      var h := Hosts(w.batch)[w.k];
      PutHost(s, h, HostCount(s, h) + 1)
    case Lock(_) => s.(locked := true)
    case TakeToken(_) => s.(tokens := s.tokens + 1)
    case Unlock(_) => s.(locked := false)
    case UndoToken(_) => s.(tokens := s.tokens - 1)
    case UnlockFailed(_) => s.(locked := false)
    case Panic(_) => s.(crashed := true)
    case ReturnToken(_) => s.(tokens := s.tokens - 1)
    case ReturnHost(_) =>
      var h := Hosts(w.batch)[w.k - 1];
      PutHost(s, h, HostCount(s, h) - 1)
    case Report(_) => s.(outcomes := s.outcomes + [Outcome(w.batch, w.executed)])
    case _ => s
  }

  function Apply(c: Config, s: State, step: Step): State
    requires Enabled(c, s, step)
  {
    match step
    case Cancel => s.(cancelled := true)
    case CloseFeed => s.(open := false, queue := [], unfed := s.queue)
    case _ =>
      var w := s.workers[step.i];
      Around(c, s, step, w).(workers := s.workers[step.i := Moved(c, s, step, w)])
  }

  ghost predicate Next(c: Config, s: State, s': State)
  {
    exists step :: Enabled(c, s, step) && s' == Apply(c, s, step)
  }

  // Nothing can happen any more, except that somebody cancels.
  ghost predicate Ended(c: Config, s: State)
  {
    forall step :: Enabled(c, s, step) ==> step.Cancel?
  }

  // A run: every state but the first follows from the one before it.
  ghost predicate Run(c: Config, run: seq<State>)
  {
    run != [] && forall i :: 0 < i < |run| ==> Next(c, run[i - 1], run[i])
  }

  // One goroutine per global slot, but no more than there are batches, and at least one.
  function WorkerCount(c: Config, batches: seq<Batch>): (n: nat)
    ensures n >= 1 && (n == 1 || (n <= c.global && n <= |batches|))
    ensures n >= c.global || n >= |batches|
  {
    PositiveOr1(if c.global > |batches| then |batches| else c.global)
  }

  function Start(c: Config, batches: seq<Batch>): State
  {
    State(batches, true, false, false, seq(WorkerCount(c, batches), i => Idle), map[], 0, false, [], [])
  }

  // ----- what workers hold ---------------------------------------------------------

  // Quantities summed over the workers. The first three are the shared resources.
  datatype Gauge =
    | HostSlots(host: string)
    | Tokens
    | Mutex
    | RunningChecks
    | RunningHostChecks(host: string)
    | HasBatch(batch: Batch)
    | Rank

  predicate Shared(g: Gauge) {
    g.HostSlots? || g.Tokens? || g.Mutex?
  }

  function HoldsHost(h: string, hs: seq<string>): nat {
    if h in hs then 1 else 0
  }

  // The hosts whose slot a worker holds.
  function Held(w: Worker): seq<string> {
    match w
    case Idle => []
    case Exited => []
    case TakingHosts(b, k) => if k <= |Hosts(b)| then Hosts(b)[..k] else []
    case ReturningHosts(b, k, _) => if k <= |Hosts(b)| then Hosts(b)[..k] else []
    case _ => Hosts(w.batch)
  }

  function HostChecks(h: string, b: Batch): nat {
    if b == [] then 0 else (if HostKey(b[0]) == h then 1 else 0) + HostChecks(h, b[1..])
  }

  // Steps a worker still has ahead of it, counting the longest way.
  function StepsLeft(c: Config, w: Worker): nat
  {
    match w
    case Idle => 1
    case TakingHosts(b, k) => (if k <= |Hosts(b)| then |Hosts(b)| - k else 0) + 2 * Need(c, b) + |Hosts(b)| + 5
    case TakingTokens(b, t) => (if t <= Need(c, b) then Need(c, b) - t else 0) + Need(c, b) + |Hosts(b)| + 4
    case RollingBack(b, t) => t + 2
    case Panicking(b) => 1
    case Running(b) => Need(c, b) + |Hosts(b)| + 3
    case ReturningTokens(b, t) => t + |Hosts(b)| + 2
    case ReturningHosts(b, k, e) => k + 2
    case Exited => 0
  }

  function Weigh(c: Config, g: Gauge, w: Worker): nat
  {
    match g
    case HostSlots(h) => HoldsHost(h, Held(w))
    case Tokens =>
      (match w
       case TakingTokens(b, t) => t
       case RollingBack(b, t) => t
       case ReturningTokens(b, t) => t
       case Running(b) => Need(c, b)
       case _ => 0)
    case Mutex => if w.TakingTokens? || w.RollingBack? then 1 else 0
    case RunningChecks => if w.Running? then |w.batch| else 0
    case RunningHostChecks(h) => if w.Running? then HostChecks(h, w.batch) else 0
    case HasBatch(b) => if !w.Idle? && !w.Exited? && w.batch == b then 1 else 0
    case Rank => StepsLeft(c, w)
  }

  function Weights(c: Config, g: Gauge, ws: seq<Worker>): seq<nat>
  {
    seq(|ws|, i requires 0 <= i < |ws| => Weigh(c, g, ws[i]))
  }

  function Sum(c: Config, g: Gauge, ws: seq<Worker>): nat
  {
    Total(Weights(c, g, ws))
  }

  // What the semaphores and the mutex themselves show.
  function Level(s: State, g: Gauge): nat
    requires Shared(g)
  {
    match g
    case HostSlots(h) => HostCount(s, h)
    case Tokens => s.tokens
    case Mutex => if s.locked then 1 else 0
  }

  function Limit(c: Config, g: Gauge): int
    requires Shared(g)
  {
    match g
    case HostSlots(h) => c.perHost
    case Tokens => c.global
    case Mutex => 1
  }

  ghost predicate WorkerOk(c: Config, s: State, w: Worker)
  {
    (!w.Idle? && !w.Exited? ==> IsBatch(w.batch, c.global)) &&
    (w.TakingHosts? || w.ReturningHosts? ==> w.k <= |Hosts(w.batch)|) &&
    (w.TakingTokens? || w.RollingBack? ==> w.t <= Need(c, w.batch)) &&
    (w.ReturningTokens? ==> 1 <= w.t <= Need(c, w.batch)) &&
    (w.RollingBack? || w.Panicking? || (w.ReturningHosts? && !w.executed) ==> s.cancelled) &&
    (w.Exited? ==> !s.open)
  }

  // The semaphores and the mutex account exactly for what the workers hold.
  ghost predicate Balanced(c: Config, s: State)
  {
    forall g: Gauge :: Shared(g) ==> Level(s, g) == Sum(c, g, s.workers) && Level(s, g) <= Limit(c, g)
  }

  ghost predicate WorkersOk(c: Config, s: State)
  {
    forall i :: 0 <= i < |s.workers| ==> WorkerOk(c, s, s.workers[i])
  }

  ghost predicate Inv(c: Config, s: State)
  {
    && s.workers != []
    && Balanced(c, s)
    && WorkersOk(c, s)
    && AllBatches(s.queue, c.global)
    && (s.open ==> s.unfed == [])
    && (!s.open ==> s.queue == [])
    && (s.unfed != [] ==> s.cancelled)
    && (s.crashed ==> s.cancelled)
    && (forall i :: 0 <= i < |s.outcomes| && !s.outcomes[i].executed ==> s.cancelled)
  }
}

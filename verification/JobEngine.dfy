/**
 The queue, the worker pool and the maintenance statements as one protocol
 (crates/jobs/src/worker.rs over crates/jobs/src/queue.rs).

 Every SQL statement is one atomic step; workers, cancels, recovery, pruning,
 shutdown and crashes interleave freely. A retry takes the two statements the
 code issues, so other steps can fall between them.
 */
module JobEngine {
  import opened Wrappers
  import opened JobTable
  import Decimal

  /** Worker tasks carry the generation of the pool that spawned them. */
  datatype WorkerId = WorkerId(generation: nat, index: nat)

  datatype FailPlan = GiveUp | Retry(next: Time, delay: nat)

  datatype Activity =
    | AtTop                                                  // about to look at the cancellation token
    | Claiming                                               // saw no cancellation, the claim is in flight
    | Handling(job: JobId, since: Time)                      // inside the handler
    | Failing(job: JobId, since: Time, plan: FailPlan)       // between the two statements of `fail`
    | Stopped

  datatype Pool = Up | Draining | Aborted | Down

  datatype State = State(
    now: Time,
    rows: Table,
    workers: map<WorkerId, Activity>,
    pool: Pool,
    generation: nat,
    used: set<JobId>)

  datatype Config = Config(staleAfter: Duration, retention: Duration)

  datatype Step =
    | Advance(to: Time)
    | Enqueue(id: JobId, req: Request)
    | Cancel(id: JobId)
    | RecoverStale
    | Prune
    | StartPool(size: nat)
    | CheckCancelled(w: WorkerId)
    | Claim(w: WorkerId, id: JobId)
    | ClaimNothing(w: WorkerId)
    | Complete(w: WorkerId)
    | PlanFailure(w: WorkerId, retryable: bool)
    | WriteFailure(w: WorkerId, error: string)
    | LoseOutcome(w: WorkerId, succeeded: bool)              // a final statement failed, after a success or a failure
    | Panic(w: WorkerId)
    | BeginShutdown
    | AbortAll
    | Release
    | Crash

  function JobOf(a: Activity): Option<JobId> {
    if a.Handling? || a.Failing? then Some(a.job) else None
  }

  function Doing(s: State, w: WorkerId): Activity {
    if w in s.workers then s.workers[w] else Stopped
  }

  predicate Enabled(s: State, step: Step) {
    match step
    case Advance(to) => s.now <= to
    case Enqueue(id, _) => id !in s.used
    case StartPool(_) => s.pool.Down?
    case CheckCancelled(w) => Doing(s, w).AtTop?
    case Claim(w, id) => Doing(s, w).Claiming? && Claimable(s.rows, id, s.now)
    case ClaimNothing(w) => Doing(s, w).Claiming?
    case Complete(w) => Doing(s, w).Handling?
    case PlanFailure(w, _) => Doing(s, w).Handling?
    case WriteFailure(w, _) => Doing(s, w).Failing?
    case LoseOutcome(w, succeeded) => JobOf(Doing(s, w)).Some? && (succeeded ==> Doing(s, w).Handling?)
    case Panic(w) => Doing(s, w).Handling?
    case BeginShutdown => s.pool.Up?
    case AbortAll => s.pool.Draining?
    case Release => s.pool.Aborted?
    case _ => true
  }

  function Become(s: State, w: WorkerId, a: Activity): State {
    s.(workers := s.workers[w := a])
  }

  function Halted(workers: map<WorkerId, Activity>): map<WorkerId, Activity> {
    map w | w in workers :: Stopped
  }

  function FreshPool(generation: nat, size: nat): map<WorkerId, Activity> {
    map i: nat | i < (if size == 0 then 1 else size) :: WorkerId(generation, i) := AtTop
  }

  /** A pool has as many workers as it was asked for, and at least one, each about to look at the token. */
  lemma FreshPoolIs(generation: nat, size: nat, w: WorkerId)
    ensures w in FreshPool(generation, size) <==> w.generation == generation && (w.index < size || w.index == 0)
    ensures w in FreshPool(generation, size) ==> FreshPool(generation, size)[w] == AtTop
  {
    assert w == WorkerId(w.generation, w.index);
  }

  function Apply(cfg: Config, s: State, step: Step): State
    requires Enabled(s, step)
  {
    match step
    case Advance(to) => s.(now := to)
    case Enqueue(id, req) => s.(rows := Enqueued(s.rows, id, req, s.now), used := s.used + {id})
    case Cancel(id) => s.(rows := Finished(s.rows, id, Cancelled, None, s.now))
    case RecoverStale => s.(rows := Recovered(s.rows, s.now - cfg.staleAfter, s.now))
    case Prune => s.(rows := Pruned(s.rows, s.now - cfg.retention))
    case StartPool(size) =>
      s.(workers := FreshPool(s.generation + 1, size), pool := Up, generation := s.generation + 1)
    case CheckCancelled(w) => Become(s, w, if s.pool.Up? then Claiming else Stopped)
    case Claim(w, id) => Become(s.(rows := Claimed(s.rows, id, WorkerName(w), s.now)), w, Handling(id, s.now))
    case ClaimNothing(w) => Become(s, w, AtTop)
    case Complete(w) =>
      Become(s.(rows := Finished(s.rows, s.workers[w].job, Succeeded, None, s.now)), w, AtTop)
    case PlanFailure(w, retryable) =>
      var a := s.workers[w];
      if a.job !in s.rows then Become(s, w, AtTop)
      else Become(s, w, Failing(a.job, a.since, Plan(s.rows[a.job], retryable, s.now)))
    case WriteFailure(w, error) =>
      var a := s.workers[w];
      Become(s.(rows := if a.plan.GiveUp? then Finished(s.rows, a.job, Failed, Some(error), s.now)
                        else Requeued(s.rows, a.job, error, a.plan.next, s.now)), w, AtTop)
    case LoseOutcome(w, _) => Become(s, w, AtTop)
    case Panic(w) => Become(s, w, Stopped)
    case BeginShutdown => s.(pool := Draining)
    case AbortAll => s.(workers := Halted(s.workers), pool := Aborted)
    case Release => s.(rows := Recovered(s.rows, s.now, s.now), pool := Down)
    case Crash => s.(workers := Halted(s.workers), pool := Down)
  }

  function Plan(j: Job, retryable: bool, now: Time): FailPlan {
    if Exhausted(j, retryable) then GiveUp else Retry(now + Backoff(j.attempts) * SECOND, Backoff(j.attempts))
  }

  function WorkerName(w: WorkerId): string {
    "worker-" + Decimal.Digits(w.index)
  }

  // --- runs ----------------------------------------------------------------

  /** A run from an empty database with no process up. */
  datatype Run = Begin(at: Time) | Then(before: Run, step: Step, state: State)

  function Last(run: Run): State {
    match run
    case Begin(at) => State(at, map[], map[], Down, 0, {})
    case Then(_, _, state) => state
  }

  ghost predicate Valid(cfg: Config, run: Run) {
    match run
    case Begin(_) => true
    case Then(before, step, state) =>
      && Valid(cfg, before)
      && Enabled(Last(before), step)
      && state == Apply(cfg, Last(before), step)
  }

  function Extend(cfg: Config, run: Run, step: Step): (longer: Run)
    requires Enabled(Last(run), step)
    ensures Valid(cfg, run) ==> Valid(cfg, longer)
  {
    Then(run, step, Apply(cfg, Last(run), step))
  }

  function Handlers(s: State, j: JobId): set<WorkerId> {
    set w | w in s.workers && JobOf(s.workers[w]) == Some(j)
  }

  function PendingRetries(s: State, j: JobId): set<WorkerId> {
    set w | w in s.workers && s.workers[w].Failing? && s.workers[w].job == j && s.workers[w].plan.Retry?
  }

  // --- structure: what every step keeps ------------------------------------

  ghost predicate Structured(s: State) {
    TableOk(s.rows, s.now) && TasksOk(s)
  }

  /** Only the current pool runs, only while it is up or draining, and only on rows that were inserted. */
  ghost predicate TasksOk(s: State) {
    && s.rows.Keys <= s.used
    && (forall w | w in s.workers && s.workers[w] != Stopped ::
          w.generation == s.generation && (s.pool.Up? || s.pool.Draining?))
    && (forall w | w in s.workers && JobOf(s.workers[w]).Some? ::
          s.workers[w].job in s.used && s.workers[w].since <= s.now)
  }

  lemma StepKeepsStructure(cfg: Config, s: State, step: Step)
    requires Structured(s) && Enabled(s, step)
    ensures Structured(Apply(cfg, s, step))
  {
    StepKeepsTable(cfg, s, step);
    StepKeepsTasks(cfg, s, step);
  }

  lemma StepKeepsTable(cfg: Config, s: State, step: Step)
    requires Structured(s) && Enabled(s, step)
    ensures TableOk(Apply(cfg, s, step).rows, Apply(cfg, s, step).now)
  {
    match step
    case Enqueue(id, req) => InsertKeepsTable(s.rows, id, req, s.now);
    case Cancel(id) => FinishKeepsTable(s.rows, id, Cancelled, None, s.now);
    case Claim(w, id) => ClaimKeepsTable(s.rows, id, WorkerName(w), s.now);
    case Complete(w) => FinishKeepsTable(s.rows, s.workers[w].job, Succeeded, None, s.now);
    case WriteFailure(w, error) =>
      FinishKeepsTable(s.rows, s.workers[w].job, Failed, Some(error), s.now);
      if s.workers[w].plan.Retry? {
        RequeueKeepsTable(s.rows, s.workers[w].job, error, s.workers[w].plan.next, s.now);
      }
    case RecoverStale => SweepsKeepTable(s.rows, s.now - cfg.staleAfter, s.now);
    case Release => SweepsKeepTable(s.rows, s.now, s.now);
    case Prune => SweepsKeepTable(s.rows, s.now - cfg.retention, s.now);
    case _ =>
  }

  lemma StepKeepsTasks(cfg: Config, s: State, step: Step)
    requires Structured(s) && Enabled(s, step)
    ensures TasksOk(Apply(cfg, s, step))
  {
  }

  lemma {:induction false} RunsAreStructured(cfg: Config, run: Run)
    requires Valid(cfg, run)
    ensures Structured(Last(run)) && UniqueKeys(Last(run).rows)
  {
    match run
    case Begin(_) =>
    case Then(before, step, _) =>
      RunsAreStructured(cfg, before);
      StepKeepsStructure(cfg, Last(before), step);
  }

  // --- exclusion -----------------------------------------------------------

  /** No handler has been at work for longer than the stale timeout. */
  ghost predicate Timely(cfg: Config, s: State) {
    forall w | w in s.workers && JobOf(s.workers[w]).Some? :: s.now <= s.workers[w].since + cfg.staleAfter
  }

  ghost predicate AlwaysTimely(cfg: Config, run: Run) {
    Timely(cfg, Last(run)) && (run.Then? ==> AlwaysTimely(cfg, run.before))
  }

  ghost predicate Exclusive(s: State) {
    OneHandler(s) && RowsAgree(s)
  }

  ghost predicate OneHandler(s: State) {
    forall v, w | v in s.workers && w in s.workers && JobOf(s.workers[v]).Some?
      && JobOf(s.workers[v]) == JobOf(s.workers[w]) :: v == w
  }

  /** A handled row still carries its handler's lock, or it was cancelled under the handler. */
  ghost predicate RowsAgree(s: State) {
    forall w | w in s.workers && JobOf(s.workers[w]).Some? && s.workers[w].job in s.rows ::
      HeldBy(s.rows[s.workers[w].job], w, s.workers[w].since)
  }

  predicate HeldBy(j: Job, w: WorkerId, since: Time) {
    match j.state
    case Queued => false
    case Running => j.lockedBy == Some(WorkerName(w)) && j.lockedAt == Some(since)
    case _ => true
  }

  lemma StepKeepsExclusion(cfg: Config, s: State, step: Step)
    requires Structured(s) && Enabled(s, step) && Exclusive(s)
    requires Timely(cfg, s)
    ensures Exclusive(Apply(cfg, s, step))
  {
    StepKeepsOneHandler(cfg, s, step);
    StepKeepsAgreement(cfg, s, step);
  }

  lemma StepKeepsOneHandler(cfg: Config, s: State, step: Step)
    requires TasksOk(s) && Enabled(s, step) && Exclusive(s)
    ensures OneHandler(Apply(cfg, s, step))
  {
  }

  lemma StepKeepsAgreement(cfg: Config, s: State, step: Step)
    requires TasksOk(s) && Enabled(s, step) && Exclusive(s)
    requires Timely(cfg, s)
    ensures RowsAgree(Apply(cfg, s, step))
  {
  }

  /** In every interleaving whose handlers all finish within the stale timeout, no job has two handlers. */
  lemma {:induction false} TimelyRunsAreExclusive(cfg: Config, run: Run)
    requires Valid(cfg, run) && AlwaysTimely(cfg, run)
    ensures Exclusive(Last(run))
    ensures forall j | j in Last(run).rows && Last(run).rows[j].state.Queued? :: Handlers(Last(run), j) == {}
    ensures forall j | j in Last(run).rows :: RowOk(Last(run).rows[j], Last(run).now)
  {
    RunsAreStructured(cfg, run);
    match run
    case Begin(_) =>
    case Then(before, step, _) =>
      RunsAreStructured(cfg, before);
      TimelyRunsAreExclusive(cfg, before);
      StepKeepsExclusion(cfg, Last(before), step);
  }
}

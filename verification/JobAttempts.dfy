/** How often one job can run, and how long it can wait between runs, over a whole run of the engine. */
module JobAttempts {
  import opened Wrappers
  import opened JobTable
  import opened JobEngine

  // --- counting the steps of a run -----------------------------------------

  predicate ClaimsJob(step: Step, j: JobId) {
    step.Claim? && step.id == j
  }

  /** A stale recovery, by the scheduler or by the shutdown release, that took this job. */
  predicate RecoversJob(cfg: Config, s: State, step: Step, j: JobId) {
    match step
    case RecoverStale => j in StaleIds(s.rows, s.now - cfg.staleAfter)
    case Release => j in StaleIds(s.rows, s.now)
    case _ => false
  }

  predicate RetriesJob(s: State, step: Step, j: JobId) {
    step.WriteFailure? && step.w in PendingRetries(s, j)
  }

  function One(b: bool): nat {
    if b then 1 else 0
  }

  function Claims(run: Run, j: JobId): nat {
    match run
    case Begin(_) => 0
    case Then(before, step, _) => Claims(before, j) + One(ClaimsJob(step, j))
  }

  function Recoveries(cfg: Config, run: Run, j: JobId): nat {
    match run
    case Begin(_) => 0
    case Then(before, step, _) => Recoveries(cfg, before, j) + One(RecoversJob(cfg, Last(before), step, j))
  }

  function Retries(run: Run, j: JobId): nat {
    match run
    case Begin(_) => 0
    case Then(before, step, _) => Retries(before, j) + One(RetriesJob(Last(before), step, j))
  }

  /** Seconds of backoff the run has ordered for the job. */
  function RetryDelay(run: Run, j: JobId): nat {
    match run
    case Begin(_) => 0
    case Then(before, step, _) =>
      RetryDelay(before, j)
      + if RetriesJob(Last(before), step, j) then Last(before).workers[step.w].plan.delay else 0
  }

  /** The attempts the row allows; a row is claimed once even when it was enqueued allowing none. */
  function Allowed(j: Job): nat {
    if j.maxAttempts < 1 then 1 else j.maxAttempts
  }

  // --- the invariant -------------------------------------------------------

  /** What one row and one run say about a job. */
  datatype Books = Books(
    attempts: int, allowed: int, queued: int, handlers: int, pending: int, claims: int, recoveries: int, retries: int)

  /**
   Every handler beyond the one the row accounts for is charged to a recovery, and a
   retry already decided on but not yet written is charged before it is written.
   */
  predicate Balanced(b: Books) {
    && b.attempts == b.claims
    && b.handlers + b.queued <= b.recoveries + 1
    && b.claims + b.pending + b.queued <= b.allowed + b.recoveries
    && b.retries + b.handlers <= b.claims
    && b.retries <= b.allowed + b.recoveries - 1
  }

  function BooksOf(cfg: Config, run: Run, j: JobId): Books
    requires j in Last(run).rows
  {
    var s := Last(run);
    Books(s.rows[j].attempts, Allowed(s.rows[j]), One(s.rows[j].state.Queued?),
          |Handlers(s, j)|, |PendingRetries(s, j)|, Claims(run, j), Recoveries(cfg, run, j), Retries(run, j))
  }

  ghost predicate Accounted(cfg: Config, run: Run, j: JobId) {
    && (j !in Last(run).used ==> Claims(run, j) == Recoveries(cfg, run, j) == Retries(run, j) == 0)
    && (j in Last(run).rows ==> Balanced(BooksOf(cfg, run, j)))
  }

  /** The balance is kept by a claim, a recovery, a retry planned or written, and the end of a task. */
  lemma BalanceIsKept(b: Books, b': Books, claim: bool, recovery: bool, planned: bool, retry: bool, ended: bool)
    requires Balanced(b)
    requires 0 <= b.pending <= b.handlers && 0 <= b'.pending <= b'.handlers && 0 <= b.queued && 0 <= b'.queued
    requires b'.allowed == b.allowed && b'.attempts == b.attempts + One(claim)
    requires b'.queued <= b.queued - One(claim) + One(recovery) + One(retry)
    requires b'.handlers <= b.handlers + One(claim) - One(ended)
    requires b'.pending <= b.pending + One(planned) - One(retry)
    requires b'.claims == b.claims + One(claim) && b'.recoveries == b.recoveries + One(recovery)
    requires b'.retries == b.retries + One(retry)
    requires (retry ==> ended) && (planned ==> !claim && b.attempts < b.allowed)
    ensures Balanced(b')
  {
  }

  /** How one step changes the tasks at work on a job. */
  lemma HandlersAfter(cfg: Config, s: State, step: Step, j: JobId)
    requires TasksOk(s) && Enabled(s, step)
    ensures var s' := Apply(cfg, s, step);
            match step
            case Claim(w, id) => Handlers(s', j) == if id == j then Handlers(s, j) + {w} else Handlers(s, j)
            case Complete(w) => Handlers(s', j) == Handlers(s, j) - {w}
            case WriteFailure(w, _) => Handlers(s', j) == Handlers(s, j) - {w}
            case LoseOutcome(w, _) => Handlers(s', j) == Handlers(s, j) - {w}
            case Panic(w) => Handlers(s', j) == Handlers(s, j) - {w}
            case PlanFailure(w, _) => Handlers(s', j) == if s.workers[w].job in s.rows then Handlers(s, j) else Handlers(s, j) - {w}
            case StartPool(_) => Handlers(s', j) == {}
            case AbortAll => Handlers(s', j) == {}
            case Crash => Handlers(s', j) == {}
            case _ => Handlers(s', j) == Handlers(s, j)
  {
  }

  lemma PendingAfter(cfg: Config, s: State, step: Step, j: JobId)
    requires TasksOk(s) && Enabled(s, step)
    ensures var s' := Apply(cfg, s, step);
            match step
            case WriteFailure(w, _) => PendingRetries(s', j) == PendingRetries(s, j) - {w}
            case LoseOutcome(w, _) => PendingRetries(s', j) == PendingRetries(s, j) - {w}
            case PlanFailure(w, _) =>
              PendingRetries(s', j) == PendingRetries(s, j)
              || (PendingRetries(s', j) == PendingRetries(s, j) + {w} && w !in PendingRetries(s, j)
                  && s.workers[w].job == j && j in s.rows && s.rows[j].attempts < s.rows[j].maxAttempts)
            case StartPool(_) => PendingRetries(s', j) == {}
            case AbortAll => PendingRetries(s', j) == {}
            case Crash => PendingRetries(s', j) == {}
            case _ => PendingRetries(s', j) == PendingRetries(s, j)
  {
  }

  lemma PendingAreHandlers(s: State, j: JobId)
    ensures PendingRetries(s, j) <= Handlers(s, j)
    ensures |PendingRetries(s, j)| <= |Handlers(s, j)|
  {
    SubsetCard(PendingRetries(s, j), Handlers(s, j));
  }

  lemma {:induction false} SubsetCard<T>(a: set<T>, b: set<T>)
    requires a <= b
    ensures |a| <= |b|
  {
    if a != {} {
      var x :| x in a;
      SubsetCard(a - {x}, b - {x});
    }
  }

  /** The same, counted: a claim adds a handler, a planned retry becomes pending, an ending removes both. */
  lemma TaskCounts(cfg: Config, s: State, step: Step, j: JobId)
    requires TasksOk(s) && Enabled(s, step)
    ensures var s' := Apply(cfg, s, step);
            var h, h', p, p' := |Handlers(s, j)|, |Handlers(s', j)|, |PendingRetries(s, j)|, |PendingRetries(s', j)|;
            && p <= h && p' <= h'
            && h' <= h + One(ClaimsJob(step, j)) - One(step.WriteFailure? && s.workers[step.w].job == j)
            && p' <= p + One(PlansRetry(s, step, j)) - One(RetriesJob(s, step, j))
  {
    HandlersAfter(cfg, s, step, j);
    PendingAfter(cfg, s, step, j);
    PendingAreHandlers(s, j);
    PendingAreHandlers(Apply(cfg, s, step), j);
  }

  predicate PlansRetry(s: State, step: Step, j: JobId) {
    step.PlanFailure? && Doing(s, step.w).Handling? && s.workers[step.w].job == j && j in s.rows
    && s.rows[j].attempts < s.rows[j].maxAttempts
  }

  /** How one step changes the row: only a claim spends an attempt, only recoveries and retries queue it again. */
  lemma RowAfter(cfg: Config, s: State, step: Step, j: JobId)
    requires TasksOk(s) && Enabled(s, step)
    ensures s.used <= Apply(cfg, s, step).used
    ensures j in Apply(cfg, s, step).rows && j in s.rows ==>
              var row, row' := s.rows[j], Apply(cfg, s, step).rows[j];
              && row'.maxAttempts == row.maxAttempts
              && row'.attempts == row.attempts + One(ClaimsJob(step, j))
              && One(row'.state.Queued?) <= One(row.state.Queued?) - One(ClaimsJob(step, j))
                 + One(RecoversJob(cfg, s, step, j)) + One(RetriesJob(s, step, j))
    ensures j in Apply(cfg, s, step).rows && j !in s.rows ==>
              && j !in s.used && step.Enqueue?
              && Apply(cfg, s, step).rows[j].attempts == 0
    ensures j !in s.used ==> !ClaimsJob(step, j) && !RecoversJob(cfg, s, step, j) && !RetriesJob(s, step, j)
  {
  }

  /** A row just inserted: its id was never used, so no task and no earlier step concerns it. */
  lemma InsertStartsAccounts(cfg: Config, before: Run, step: Step, j: JobId)
    requires TasksOk(Last(before)) && Enabled(Last(before), step) && step.Enqueue?
    requires Accounted(cfg, before, j) && j !in Last(before).used
    ensures Accounted(cfg, Extend(cfg, before, step), j)
  {
    var s := Apply(cfg, Last(before), step);
    assert Handlers(Last(before), j) == Handlers(s, j) == {};
    assert PendingRetries(s, j) == {};
  }

  lemma StepKeepsAccounts(cfg: Config, before: Run, step: Step, j: JobId)
    requires TasksOk(Last(before)) && Enabled(Last(before), step)
    requires Accounted(cfg, before, j)
    ensures Accounted(cfg, Extend(cfg, before, step), j)
  {
    var s, after := Last(before), Extend(cfg, before, step);
    RowAfter(cfg, s, step, j);
    if j in Last(after).rows {
      if j in s.rows {
        TaskCounts(cfg, s, step, j);
        BalanceIsKept(BooksOf(cfg, before, j), BooksOf(cfg, after, j), ClaimsJob(step, j),
                      RecoversJob(cfg, s, step, j), PlansRetry(s, step, j), RetriesJob(s, step, j),
                      step.WriteFailure? && s.workers[step.w].job == j);
      } else {
        InsertStartsAccounts(cfg, before, step, j);
      }
    }
  }

  lemma {:induction false} RunsAreAccounted(cfg: Config, run: Run, j: JobId)
    requires Valid(cfg, run)
    ensures Accounted(cfg, run, j)
  {
    match run
    case Begin(_) =>
    case Then(before, step, _) =>
      RunsAreStructured(cfg, before);
      RunsAreAccounted(cfg, before, j);
      StepKeepsAccounts(cfg, before, step, j);
  }

  lemma {:induction false} DelaysAreBounded(cfg: Config, run: Run, j: JobId)
    requires Valid(cfg, run)
    ensures forall w | w in Last(run).workers && Last(run).workers[w].Failing? && Last(run).workers[w].plan.Retry? ::
              Last(run).workers[w].plan.delay <= 1053
    ensures RetryDelay(run, j) <= 1053 * Retries(run, j)
  {
    match run
    case Begin(_) =>
    case Then(before, step, _) => DelaysAreBounded(cfg, before, j);
  }

  // --- the results ---------------------------------------------------------

  /**
   Over any run: a row's attempts are its claims, they exceed what it allows by at most one per
   stale recovery, and so do the retries, which bounds the backoff the job can ever be given.
   Without recoveries that is at most `maxAttempts` runs and 1053 seconds before each but the first.
   */
  lemma AttemptsAreBounded(cfg: Config, run: Run, j: JobId)
    requires Valid(cfg, run) && j in Last(run).rows
    ensures Last(run).rows[j].attempts == Claims(run, j)
    ensures Claims(run, j) <= Allowed(Last(run).rows[j]) + Recoveries(cfg, run, j)
    ensures RetryDelay(run, j) <= 1053 * (Allowed(Last(run).rows[j]) + Recoveries(cfg, run, j) - 1)
  {
    RunsAreAccounted(cfg, run, j);
    DelaysAreBounded(cfg, run, j);
  }

  /** A run one step longer, in the state the step leads to. */
  lemma Extended(cfg: Config, run: Run, step: Step, next: State) returns (longer: Run)
    requires Valid(cfg, run) && Enabled(Last(run), step) && Apply(cfg, Last(run), step) == next
    ensures Valid(cfg, longer) && Last(longer) == next
    ensures Claims(longer, 0) == Claims(run, 0) + One(ClaimsJob(step, 0))
  {
    longer := Extend(cfg, run, step);
  }

  const FIRST_WORKER := WorkerId(1, 0)
  const SECOND_WORKER := WorkerId(1, 1)

  /** Two workers, one job. */
  function Pair(rows: Table, first: Activity): State {
    State(0, rows, map[FIRST_WORKER := first, SECOND_WORKER := AtTop], Up, 1, {0})
  }

  lemma PairStarts(cfg: Config, req: Request)
    requires req.runAt.None?
    ensures var up := Apply(cfg, Last(Begin(0)), StartPool(2));
            Apply(cfg, up, Enqueue(0, req)) == Pair(map[0 := NewRow(req, 0)], AtTop)
  {
  }

  lemma FirstWorks(cfg: Config, rows: Table, before: Activity, next: Activity)
    ensures Become(Pair(rows, before), FIRST_WORKER, next) == Pair(rows, next)
  {
  }

  /** A pool of two comes up, one job is enqueued, and the first worker claims it. */
  lemma FirstClaim(cfg: Config, req: Request) returns (run: Run)
    requires req.runAt.None?
    ensures Valid(cfg, run) && Claims(run, 0) == 1
    ensures Last(run) == Pair(Claimed(map[0 := NewRow(req, 0)], 0, "worker-0", 0), Handling(0, 0))
  {
    var rows := map[0 := NewRow(req, 0)];
    PairStarts(cfg, req);
    run := Extended(cfg, Begin(0), StartPool(2), Apply(cfg, Last(Begin(0)), StartPool(2)));
    run := Extended(cfg, run, Enqueue(0, req), Pair(rows, AtTop));
    FirstWorks(cfg, rows, AtTop, Claiming);
    run := Extended(cfg, run, CheckCancelled(FIRST_WORKER), Pair(rows, Claiming));
    var claimed := Claimed(rows, 0, "worker-0", 0);
    assert WorkerName(FIRST_WORKER) == "worker-0";
    FirstWorks(cfg, claimed, Claiming, Handling(0, 0));
    assert Apply(cfg, Pair(rows, Claiming), Claim(FIRST_WORKER, 0)) == Become(Pair(claimed, Claiming), FIRST_WORKER, Handling(0, 0));
    run := Extended(cfg, run, Claim(FIRST_WORKER, 0), Pair(claimed, Handling(0, 0)));
  }

  /** A row that allows no attempt at all still runs once: the claim does not look at `max_attempts`. */
  lemma AllowingNoneRunsOnce(cfg: Config) returns (run: Run)
    ensures Valid(cfg, run) && 0 in Last(run).rows
    ensures Last(run).rows[0].maxAttempts == 0 && Claims(run, 0) == 1
  {
    run := FirstClaim(cfg, Request(CheckFollow, "", None, None, 0, 0));
  }

  /** The stale timeout is what exclusion rests on: a handler that outlives it shares its job. */
  lemma LateHandlerSharesItsJob(cfg: Config) returns (run: Run)
    requires cfg.staleAfter >= 0
    ensures Valid(cfg, run) && !AlwaysTimely(cfg, run)
    ensures Handlers(Last(run), 0) == {WorkerId(1, 0), WorkerId(1, 1)}
  {
    var claimed := FirstClaim(cfg, Request(DownloadChapter, "", None, None, 0, 5));
    var late := Extend(cfg, claimed, Advance(cfg.staleAfter + 1));
    assert JobOf(Last(late).workers[WorkerId(1, 0)]).Some?;
    var recovered := Extend(cfg, late, RecoverStale);
    var checked := Extend(cfg, recovered, CheckCancelled(WorkerId(1, 1)));
    run := Extend(cfg, checked, Claim(WorkerId(1, 1), 0));
    assert !AlwaysTimely(cfg, late) && !AlwaysTimely(cfg, recovered) && !AlwaysTimely(cfg, checked);
  }
}

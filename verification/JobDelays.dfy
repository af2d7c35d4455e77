/** When a job may run: not before the instant it was enqueued for, and not before its backoff after a failure. */
module JobDelays {
  import opened Wrappers
  import opened JobTable
  import opened JobEngine
  import opened JobAttempts

  /** The failure a retry was decided on: when, and after how many attempts. */
  datatype Failure = Failure(at: Time, attempts: nat)

  /** The failure a task last decided on. */
  function LastFailure(run: Run, w: WorkerId): Option<Failure> {
    match run
    case Begin(_) => None
    case Then(before, step, _) =>
      if step.PlanFailure? && step.w == w && Doing(Last(before), w).Handling? && Last(before).workers[w].job in Last(before).rows
      then Some(Failure(Last(before).now, Last(before).rows[Last(before).workers[w].job].attempts))
      else LastFailure(before, w)
  }

  /** Why a job last came to wait: it was enqueued for an instant, or a failure was to be retried. */
  datatype Waiting = Requested(at: Time) | Retried(failure: Failure)

  function WaitsFor(run: Run, j: JobId): Option<Waiting> {
    match run
    case Begin(_) => None
    case Then(before, step, _) =>
      var s := Last(before);
      if step.Enqueue? && step.id == j && !Suppressed(s.rows, step.req) then
        Some(Requested(if step.req.runAt.Some? then step.req.runAt.value else s.now))
      else if RetriesJob(s, step, j) && LastFailure(before, step.w).Some? then
        Some(Retried(LastFailure(before, step.w).value))
      else WaitsFor(before, j)
  }

  /** The earliest instant it may run: the one requested, or the failure's own plus its backoff. */
  function NotBefore(waiting: Waiting): Time {
    match waiting
    case Requested(at) => at
    case Retried(Failure(at, attempts)) => at + Backoff(attempts) * 1_000_000
  }

  ghost predicate PlansKept(run: Run) {
    forall w | w in Last(run).workers && Last(run).workers[w].Failing? && Last(run).workers[w].plan.Retry? ::
      && LastFailure(run, w).Some? && Last(run).workers[w].plan.next == NotBefore(Retried(LastFailure(run, w).value))
      && Last(run).workers[w].plan.delay == Backoff(LastFailure(run, w).value.attempts)
  }

  ghost predicate DueKept(run: Run, j: JobId) {
    j in Last(run).rows ==> WaitsFor(run, j).Some? && Last(run).rows[j].runAt == NotBefore(WaitsFor(run, j).value)
  }

  lemma StepKeepsPlans(cfg: Config, before: Run, step: Step)
    requires Structured(Last(before)) && Enabled(Last(before), step) && PlansKept(before)
    ensures PlansKept(Extend(cfg, before, step))
  {
  }

  lemma StepKeepsDue(cfg: Config, before: Run, step: Step, j: JobId)
    requires Structured(Last(before)) && Enabled(Last(before), step) && PlansKept(before) && DueKept(before, j)
    ensures DueKept(Extend(cfg, before, step), j)
  {
  }

  /** A row waits for exactly that instant. */
  lemma {:induction false} RunsKeepDue(cfg: Config, run: Run, j: JobId)
    requires Valid(cfg, run)
    ensures PlansKept(run) && DueKept(run, j)
  {
    match run
    case Begin(_) =>
    case Then(before, step, _) =>
      RunsAreStructured(cfg, before);
      RunsKeepDue(cfg, before, j);
      StepKeepsPlans(cfg, before, step);
      StepKeepsDue(cfg, before, step, j);
  }

  /**
   In every run no job is claimed before the instant it was enqueued for, nor, once a failure of it
   is to be retried, within the backoff of its attempts after that failure was decided on.
   */
  lemma ClaimsWait(cfg: Config, run: Run)
    requires Valid(cfg, run) && run.Then? && run.step.Claim?
    ensures WaitsFor(run.before, run.step.id).Some?
    ensures match WaitsFor(run.before, run.step.id).value
            case Requested(at) => Last(run.before).now >= at
            case Retried(Failure(at, attempts)) => Last(run.before).now >= at + Backoff(attempts) * 1_000_000
  {
    RunsKeepDue(cfg, run.before, run.step.id);
  }
}

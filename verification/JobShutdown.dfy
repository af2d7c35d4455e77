/** Draining the worker pool: cancel, join, abort, join, release (crates/jobs/src/worker.rs). */
module JobShutdown {
  import opened Wrappers
  import opened JobTable
  import opened JobEngine

  // --- what the release does to the table ----------------------------------

  /**
   After the release a row runs exactly when its lock was taken at the release instant itself;
   every older lock is gone, its row is queued again, and no other row changed.
   */
  lemma ReleaseEmptiesTheTable(cfg: Config, s: State, j: JobId)
    requires Structured(s) && Enabled(s, Release) && j in s.rows
    ensures var row := Apply(cfg, s, Release).rows[j];
            && (row.state.Running? <==> s.rows[j].state.Running? && s.rows[j].lockedAt == Some(s.now))
            && (s.rows[j].state.Running? && s.rows[j].lockedAt.value < s.now <==> row != s.rows[j])
            && (row != s.rows[j] ==> row.state.Queued? && row.attempts == s.rows[j].attempts)
  {
  }

  // --- no write by a pool that has been released ---------------------------

  function ReleasedGeneration(run: Run): nat {
    match run
    case Begin(_) => 0
    case Then(before, step, _) => if step.Release? then Last(before).generation else ReleasedGeneration(before)
  }

  function ReleasedAt(run: Run): Time {
    match run
    case Begin(at) => at
    case Then(before, step, _) => if step.Release? then Last(before).now else ReleasedAt(before)
  }

  predicate WritesAsWorker(step: Step) {
    step.Claim? || step.Complete? || step.PlanFailure? || step.WriteFailure?
  }

  /** A release of that generation at that time is behind this state. */
  ghost predicate IsReleased(s: State, generation: nat, at: Time) {
    && generation <= s.generation && at <= s.now
    && (forall w: WorkerId | w.generation <= generation :: Doing(s, w).Stopped?)
    && (generation == s.generation ==> s.pool.Down?)
    && forall w | w in s.workers && JobOf(s.workers[w]).Some? :: s.workers[w].since >= at
  }

  lemma StepKeepsReleased(cfg: Config, s: State, step: Step, generation: nat, at: Time)
    requires TasksOk(s) && Enabled(s, step) && IsReleased(s, generation, at)
    ensures step.Release? ==> IsReleased(Apply(cfg, s, step), s.generation, s.now)
    ensures !step.Release? ==> IsReleased(Apply(cfg, s, step), generation, at)
  {
  }

  /** No task of a released pool is live, and no later task holds a claim older than the release. */
  lemma {:induction false} ReleasedPoolsAreDown(cfg: Config, run: Run)
    requires Valid(cfg, run)
    ensures IsReleased(Last(run), ReleasedGeneration(run), ReleasedAt(run))
  {
    match run
    case Begin(_) =>
    case Then(before, step, _) =>
      RunsAreStructured(cfg, before);
      ReleasedPoolsAreDown(cfg, before);
      StepKeepsReleased(cfg, Last(before), step, ReleasedGeneration(before), ReleasedAt(before));
  }

  /**
   A worker's write after a release comes from a pool started after it, and what it finishes is
   a claim made no earlier than the release: nothing released is later completed by the old pool.
   */
  lemma ReleasedPoolsNeverWrite(cfg: Config, run: Run)
    requires Valid(cfg, run) && run.Then? && WritesAsWorker(run.step)
    ensures run.step.w.generation > ReleasedGeneration(run.before)
    ensures !run.step.Claim? ==> Last(run.before).workers[run.step.w].since >= ReleasedAt(run.before)
  {
    RunsAreStructured(cfg, run.before);
    ReleasedPoolsAreDown(cfg, run.before);
  }

  // --- claims that were already in flight ----------------------------------

  function ClaimingWorkers(s: State): set<WorkerId> {
    set w | w in s.workers && s.workers[w].Claiming?
  }

  /** Claims in flight when the latest shutdown began. */
  function InFlight(run: Run): nat {
    match run
    case Begin(_) => 0
    case Then(before, step, _) => if step.BeginShutdown? then |ClaimingWorkers(Last(before))| else InFlight(before)
  }

  /** Claims that landed while that shutdown was draining. */
  function LateClaims(run: Run): nat {
    match run
    case Begin(_) => 0
    case Then(before, step, _) =>
      if step.BeginShutdown? then 0
      else LateClaims(before) + if step.Claim? && Last(before).pool.Draining? then 1 else 0
  }

  lemma NoNewClaimersWhileDraining(cfg: Config, s: State, step: Step)
    requires Enabled(s, step) && Apply(cfg, s, step).pool.Draining?
    ensures ClaimingWorkers(Apply(cfg, s, step)) ==
            if step.Claim? || step.ClaimNothing? then ClaimingWorkers(s) - {step.w} else ClaimingWorkers(s)
  {
  }

  /** The token stops new claims, but each claim already past its check can still land, once. */
  lemma {:induction false} DrainingClaimsAreBounded(cfg: Config, run: Run)
    requires Valid(cfg, run) && Last(run).pool.Draining?
    ensures LateClaims(run) + |ClaimingWorkers(Last(run))| <= InFlight(run)
  {
    NoNewClaimersWhileDraining(cfg, Last(run.before), run.step);
    if !run.step.BeginShutdown? {
      DrainingClaimsAreBounded(cfg, run.before);
    }
  }

  /** So "nothing new is claimed" after the token fires does not hold outright. */
  lemma AClaimCanLandWhileDraining(cfg: Config) returns (run: Run)
    ensures Valid(cfg, run) && run.Then? && run.step.Claim? && Last(run.before).pool.Draining?
    ensures InFlight(run) == LateClaims(run) == 1
  {
    var up := Extend(cfg, Begin(0), StartPool(1));
    assert Last(up).workers == map[WorkerId(1, 0) := AtTop];
    var queued := Extend(cfg, up, Enqueue(0, Request(CheckFollow, "", None, None, 0, 1)));
    var checked := Extend(cfg, queued, CheckCancelled(WorkerId(1, 0)));
    var draining := Extend(cfg, checked, BeginShutdown);
    assert ClaimingWorkers(Last(checked)) == {WorkerId(1, 0)} && LateClaims(draining) == 0;
    run := Extend(cfg, draining, Claim(WorkerId(1, 0), 0));
  }

  // --- the shutdown itself -------------------------------------------------

  /** What `select!` yields: a task was joined, or the drain timeout passed first. */
  datatype Selected = Joined | DeadlinePassed

  datatype DrainReport = DrainReport(drained: nat, released: nat)

  /** Tasks joined before the deadline, out of `tasks`. */
  function JoinedInTime(tasks: nat, selected: seq<Selected>): (n: nat)
    ensures n <= tasks && n <= |selected|
  {
    if tasks == 0 || selected == [] || selected[0].DeadlinePassed? then 0
    else 1 + JoinedInTime(tasks - 1, selected[1..])
  }

  lemma {:induction false} JoinedInTimeStops(tasks: nat, selected: seq<Selected>)
    ensures var n := JoinedInTime(tasks, selected);
            && (forall i | 0 <= i < n :: selected[i].Joined?)
            && (n == tasks || n == |selected| || selected[n].DeadlinePassed?)
  {
    if tasks != 0 && selected != [] && selected[0].Joined? {
      JoinedInTimeStops(tasks - 1, selected[1..]);
      var n := JoinedInTime(tasks, selected);
      assert forall i | 1 <= i < n :: selected[i] == selected[1..][i - 1];
    }
  }

  class WorkerPool {
    const queue: PostgresQueue
    var tasks: nat

    constructor (queue: PostgresQueue, workers: nat)
      ensures this.queue == queue && tasks == if workers == 0 then 1 else workers
    {
      this.queue := queue;
      tasks := if workers == 0 then 1 else workers;
    }

    /**
     `selected` lists what the drain loop observes; an exhausted list is a deadline. A release the
     database refuses is reported as releasing nothing, and leaves every row as it was.
     */
    method Shutdown(selected: seq<Selected>, now: Time, releaseFails: bool) returns (report: DrainReport)
      modifies this, queue
      ensures tasks == 0
      ensures report.drained == JoinedInTime(old(tasks), selected)
      ensures report.released == if releaseFails then 0 else |StaleIds(old(queue.rows), now)|
      ensures queue.rows == if releaseFails then old(queue.rows) else Recovered(old(queue.rows), now, now)
    {
      var drained := 0;
      var i := 0;
      while tasks > 0 && i < |selected| && selected[i].Joined?
        invariant 0 <= i <= |selected|
        invariant drained + JoinedInTime(tasks, selected[i..]) == JoinedInTime(old(tasks), selected)
        invariant queue.rows == old(queue.rows)
        decreases tasks
      {
        assert selected[i..][1..] == selected[i + 1..];
        tasks, drained, i := tasks - 1, drained + 1, i + 1;
      }
      tasks := 0;
      var released := 0;
      if !releaseFails {
        released := queue.RecoverStale(0, now);
      }
      return DrainReport(drained, released);
    }
  }
}

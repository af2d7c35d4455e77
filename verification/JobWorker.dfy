/**
 A worker's loop (crates/jobs/src/worker.rs): claim, handle, record the outcome, announce it.

 The loop runs inside the protocol of `JobEngine`: between any two of its own steps every other
 worker, the maintenance statements, the shutdown and a crash may take any of theirs.
 */
module JobWorker {
  import opened Wrappers
  import opened JobTable
  import opened JobEngine
  import Metrics = JobMetrics

  /** The event published for a job. */
  datatype Announcement = Announcement(job: JobId, state: JobState)

  /** What a handler returns: nothing, or an error with its class and whether a retry may help. */
  datatype Handled = Fine | Refused(error: string, retryable: bool, fault: Metrics.Outcome) | Panicked

  /**
   One pass round the loop: whether the claim is answered, what the handler returns, whether the two
   statements that follow it succeed, and which steps others take before each of the worker's own.
   */
  datatype Pass = Pass(
    beforeLook: seq<Step>,
    beforeClaim: seq<Step>,
    answered: bool,
    beforeOutcome: seq<Step>,
    handled: Handled,
    firstSucceeds: bool,
    beforeWrite: seq<Step>,
    writeSucceeds: bool)

  // --- the steps of one task -----------------------------------------------

  predicate TakenBy(step: Step, w: WorkerId) {
    match step
    case CheckCancelled(v) => v == w
    case Claim(v, _) => v == w
    case ClaimNothing(v) => v == w
    case Complete(v) => v == w
    case PlanFailure(v, _) => v == w
    case WriteFailure(v, _) => v == w
    case LoseOutcome(v, _) => v == w
    case Panic(v) => v == w
    case _ => false
  }

  /** What a task says about its job when it takes a step. */
  function Saying(s: State, step: Step, w: WorkerId): seq<Announcement>
    requires Enabled(s, step)
  {
    if !TakenBy(step, w) || JobOf(Doing(s, w)).None? then [] else
    var job := s.workers[w].job;
    match step
    case Complete(_) => [Announcement(job, Succeeded)]
    case PlanFailure(_, _) => if job in s.rows then [] else [Announcement(job, Failed)]
    case WriteFailure(_, _) => [Announcement(job, if s.workers[w].plan.Retry? then Queued else Failed)]
    case LoseOutcome(_, succeeded) => [Announcement(job, if succeeded then Succeeded else Failed)]
    case _ => []
  }

  ghost function Announced(cfg: Config, run: Run, w: WorkerId): seq<Announcement>
    requires Valid(cfg, run)
  {
    match run
    case Begin(_) => []
    case Then(before, step, _) => Announced(cfg, before, w) + Saying(Last(before), step, w)
  }

  function ClaimedBy(run: Run, w: WorkerId): seq<JobId> {
    match run
    case Begin(_) => []
    case Then(before, step, _) => ClaimedBy(before, w) + ClaimOf(step, w)
  }

  function ClaimOf(step: Step, w: WorkerId): seq<JobId> {
    if step.Claim? && step.w == w then [step.id] else []
  }

  /** How often the loop has looked at the cancellation token. */
  function Looks(run: Run, w: WorkerId): nat {
    match run
    case Begin(_) => 0
    case Then(before, step, _) => Looks(before, w) + if step.CheckCancelled? && step.w == w then 1 else 0
  }

  /** A claim that passes over the first row in line, or comes back with nothing though one can be had. */
  ghost predicate IsLapse(s: State, step: Step, w: WorkerId) {
    match step
    case Claim(v, id) => v == w && !IsFirst(s.rows, id, s.now)
    case ClaimNothing(v) => v == w && exists id :: Claimable(s.rows, id, s.now)
    case _ => false
  }

  ghost function Lapses(run: Run, w: WorkerId): nat {
    match run
    case Begin(_) => 0
    case Then(before, step, _) => Lapses(before, w) + if IsLapse(Last(before), step, w) then 1 else 0
  }

  function Jobs(said: seq<Announcement>): (jobs: seq<JobId>)
    ensures |jobs| == |said| && forall i | 0 <= i < |said| :: jobs[i] == said[i].job
  {
    seq(|said|, i requires 0 <= i < |said| => said[i].job)
  }

  lemma JobsOfMore(said: seq<Announcement>, more: seq<Announcement>)
    ensures Jobs(said + more) == Jobs(said) + Jobs(more)
  {
  }

  // --- every claim is announced once ---------------------------------------

  /** A task has announced every job it claimed, but for the one it has in hand or was stopped with. */
  predicate Told(a: Activity, claimed: seq<JobId>, said: seq<JobId>) {
    match a
    case AtTop => claimed == said
    case Claiming => claimed == said
    case Handling(job, _) => claimed == said + [job]
    case Failing(job, _, _) => claimed == said + [job]
    case Stopped => said <= claimed && |claimed| <= |said| + 1
  }

  /** In every run a task announces the jobs it claims, each once and in that order. */
  lemma {:induction false} ClaimsAreAnnounced(cfg: Config, run: Run, w: WorkerId)
    requires Valid(cfg, run)
    ensures Told(Doing(Last(run), w), ClaimedBy(run, w), Jobs(Announced(cfg, run, w)))
    ensures w.generation > Last(run).generation ==> ClaimedBy(run, w) == []
  {
    match run
    case Begin(_) =>
    case Then(before, step, _) =>
      ClaimsAreAnnounced(cfg, before, w);
      RunsAreStructured(cfg, before);
      var said, more := Announced(cfg, before, w), Saying(Last(before), step, w);
      JobsOfMore(said, more);
      StepKeepsTold(cfg, Last(before), step, w, ClaimedBy(before, w), Jobs(said));
  }

  lemma StepKeepsTold(cfg: Config, s: State, step: Step, w: WorkerId, claimed: seq<JobId>, said: seq<JobId>)
    requires TasksOk(s) && Enabled(s, step) && Told(Doing(s, w), claimed, said)
    requires w.generation > s.generation ==> claimed == []
    ensures Told(Doing(Apply(cfg, s, step), w), claimed + ClaimOf(step, w), said + Jobs(Saying(s, step, w)))
    ensures w.generation > Apply(cfg, s, step).generation ==> claimed + ClaimOf(step, w) == []
  {
    if !TakenBy(step, w) {
      assert Saying(s, step, w) == [] && said + [] == said && claimed + [] == claimed;
    } else {
      assert Jobs(Saying(s, step, w)) == if Saying(s, step, w) == [] then [] else [s.workers[w].job];
    }
  }

  /** The row is in the announced state and unlocked, unless it is gone. */
  predicate Holds(t: Table, said: Announcement) {
    said.job in t ==> t[said.job].state == said.state && t[said.job].lockedBy == None
  }

  /**
   What is announced is what the row has just become, if the row is still there; a statement that
   failed changed no row, and then a job is announced whose row did not move.
   */
  lemma AnnouncedIsWritten(cfg: Config, s: State, step: Step, w: WorkerId)
    requires Enabled(s, step) && Saying(s, step, w) != []
    ensures var said, rows := Saying(s, step, w)[0], Apply(cfg, s, step).rows;
            if step.LoseOutcome? then rows == s.rows
            else Holds(rows, said)
  {
  }

  /** A claim of job 0 whose handler fails and whose failure is not recorded. */
  lemma ClaimAndLose(cfg: Config, run: Run, w: WorkerId) returns (longer: Run)
    requires Valid(cfg, run) && Last(run).pool.Up? && Doing(Last(run), w).AtTop?
    requires Claimable(Last(run).rows, 0, Last(run).now)
    ensures Valid(cfg, longer)
    ensures Announced(cfg, longer, w) == Announced(cfg, run, w) + [Announcement(0, Failed)]
    ensures Last(longer) == Become(Last(run), w, AtTop).(rows := Claimed(Last(run).rows, 0, WorkerName(w), Last(run).now))
  {
    var looked := Extend(cfg, run, CheckCancelled(w));
    var claimed := Extend(cfg, looked, Claim(w, 0));
    assert Announced(cfg, claimed, w) == Announced(cfg, looked, w) == Announced(cfg, run, w);
    longer := Extend(cfg, claimed, LoseOutcome(w, false));
    assert Last(longer).workers == Last(run).workers[w := AtTop];
  }

  /** So a job can be announced, and counted, as failed while its row still runs, and then again. */
  lemma FailureAnnouncedTwice(cfg: Config) returns (run: Run, w: WorkerId)
    requires cfg.staleAfter >= 0
    ensures Valid(cfg, run)
    ensures Announced(cfg, run, w) == [Announcement(0, Failed), Announcement(0, Failed)]
    ensures 0 in Last(run).rows && Last(run).rows[0].state.Running?
  {
    w := WorkerId(1, 0);
    var up := Extend(cfg, Begin(0), StartPool(1));
    assert Last(up).workers == map[w := AtTop];
    var queued := Extend(cfg, up, Enqueue(0, Request(CheckFollow, "", None, None, 0, 1)));
    assert Announced(cfg, queued, w) == Announced(cfg, up, w) == [];
    var lost := ClaimAndLose(cfg, queued, w);
    var later := Extend(cfg, lost, Advance(cfg.staleAfter + 1));
    var freed := Extend(cfg, later, RecoverStale);
    assert Announced(cfg, freed, w) == Announced(cfg, later, w) == Announced(cfg, lost, w);
    run := ClaimAndLose(cfg, freed, w);
  }

  // --- interleaving --------------------------------------------------------

  /** The run after others took those of their steps that were possible. */
  function Interleaved(cfg: Config, run: Run, w: WorkerId, steps: seq<Step>): (longer: Run)
    ensures Valid(cfg, run) ==> Valid(cfg, longer)
    decreases |steps|
  {
    if steps == [] then run
    else if Enabled(Last(run), steps[0]) && !TakenBy(steps[0], w) then
      Interleaved(cfg, Extend(cfg, run, steps[0]), w, steps[1..])
    else Interleaved(cfg, run, w, steps[1..])
  }

  /** Others can stop a task that is at work, and nothing else. */
  lemma {:induction false} OthersOnlyStop(cfg: Config, run: Run, w: WorkerId, steps: seq<Step>)
    requires Valid(cfg, run) && w.generation <= Last(run).generation
    ensures var longer := Interleaved(cfg, run, w, steps);
            && Announced(cfg, longer, w) == Announced(cfg, run, w)
            && ClaimedBy(longer, w) == ClaimedBy(run, w)
            && Looks(longer, w) == Looks(run, w) && Lapses(longer, w) == Lapses(run, w)
            && w.generation <= Last(longer).generation
            && (Doing(Last(longer), w).Stopped? || Doing(Last(longer), w) == Doing(Last(run), w))
    decreases |steps|
  {
    if steps == [] {
    } else if Enabled(Last(run), steps[0]) && !TakenBy(steps[0], w) {
      RunsAreStructured(cfg, run);
      OthersOnlyStop(cfg, Extend(cfg, run, steps[0]), w, steps[1..]);
    } else {
      OthersOnlyStop(cfg, run, w, steps[1..]);
    }
  }

  // --- the loop ------------------------------------------------------------

  /** What the loop reports: the announcement, and the outcome counted with it. */
  datatype Report = Report(said: Announcement, counted: Option<Metrics.Outcome>)

  function Said(log: seq<Report>): (said: seq<Announcement>)
    ensures |said| == |log| && forall i | 0 <= i < |log| :: said[i] == log[i].said
  {
    seq(|log|, i requires 0 <= i < |log| => log[i].said)
  }

  lemma SaidOfMore(log: seq<Report>, r: Report)
    ensures Said(log + [r]) == Said(log) + [r.said]
  {
  }

  /** A retry is no outcome; success is counted as success and failure under the error's own class. */
  predicate CountsAsSaid(r: Report, h: Handled) {
    match r.said.state
    case Succeeded => h.Fine? && r.counted == Some(Metrics.Succeeded)
    case Failed => h.Refused? && r.counted == Some(h.fault)
    case Queued => h.Refused? && r.counted == None
    case _ => false
  }

  /** Claims that the database does not answer. */
  function Unanswered(passes: seq<Pass>): nat {
    if passes == [] then 0
    else Unanswered(passes[..|passes| - 1]) + if passes[|passes| - 1].answered then 0 else 1
  }

  lemma {:induction false} UnansweredPrefix(passes: seq<Pass>, n: nat)
    requires n <= |passes|
    ensures Unanswered(passes[..n]) <= Unanswered(passes)
    decreases |passes|
  {
    if n < |passes| {
      UnansweredPrefix(passes[..|passes| - 1], n);
      assert passes[..|passes| - 1][..n] == passes[..n];
    } else {
      assert passes[..n] == passes;
    }
  }

  /** The job runs again exactly when its handler failed for now and attempts remained at that instant. */
  predicate Settles(start: Run, h: Handled, said: Announcement) {
    said.state.Queued? <==> h.Refused? && said.job in Last(start).rows && !Exhausted(Last(start).rows[said.job], h.retryable)
  }

  /** The worker `w` from the top of its loop to where it returns, is stopped, or the passes end. */
  method RunWorker(cfg: Config, start: Run, w: WorkerId, passes: seq<Pass>) returns (run: Run, log: seq<Report>)
    requires Valid(cfg, start) && Doing(Last(start), w).AtTop?
    ensures Valid(cfg, run)
    ensures Doing(Last(run), w).AtTop? || Doing(Last(run), w).Stopped?
    ensures Doing(Last(run), w).AtTop? ==> Looks(run, w) == Looks(start, w) + |passes|
    ensures Lapses(run, w) <= Lapses(start, w) + Unanswered(passes)
    ensures Announced(cfg, run, w) == Announced(cfg, start, w) + Said(log)
    ensures forall r | r in log :: exists p | p in passes :: CountsAsSaid(r, p.handled)
  {
    RunsAreStructured(cfg, start);
    run, log := start, [];
    var i := 0;
    while i < |passes| && Doing(Last(run), w).AtTop?
      invariant 0 <= i <= |passes|
      invariant Valid(cfg, run) && w.generation <= Last(run).generation
      invariant Doing(Last(run), w).AtTop? || Doing(Last(run), w).Stopped?
      invariant Doing(Last(run), w).AtTop? ==> Looks(run, w) == Looks(start, w) + i
      invariant Lapses(run, w) <= Lapses(start, w) + Unanswered(passes[..i])
      invariant Announced(cfg, run, w) == Announced(cfg, start, w) + Said(log)
      invariant forall r | r in log :: exists p | p in passes :: CountsAsSaid(r, p.handled)
    {
      var pass := passes[i];
      assert passes[..i + 1][..i] == passes[..i];
      i := i + 1;
      var report;
      run, report := RunPass(cfg, run, w, pass);
      if report.Some? {
        SaidOfMore(log, report.value);
        log := log + [report.value];
      }
    }
    UnansweredPrefix(passes, i);
  }

  method RunPass(cfg: Config, start: Run, w: WorkerId, pass: Pass) returns (run: Run, report: Option<Report>)
    requires Valid(cfg, start) && Doing(Last(start), w).AtTop? && w.generation <= Last(start).generation
    ensures Valid(cfg, run) && w.generation <= Last(run).generation
    ensures Doing(Last(run), w).AtTop? || Doing(Last(run), w).Stopped?
    ensures Doing(Last(run), w).AtTop? ==> Looks(run, w) == Looks(start, w) + 1
    ensures Lapses(run, w) <= Lapses(start, w) + if pass.answered then 0 else 1
    ensures report.Some? ==> CountsAsSaid(report.value, pass.handled)
    ensures Announced(cfg, run, w) == Announced(cfg, start, w) + if report.Some? then [report.value.said] else []
  {
    run := LookAndClaim(cfg, start, w, pass);
    report := None;
    if Doing(Last(run), w).Handling? {
      run, report := Conclude(cfg, run, w, pass);
    }
  }

  /** The claim: the first row in line, or nothing when no row can be claimed or the database does not answer. */
  method ClaimNext(cfg: Config, start: Run, w: WorkerId, answered: bool) returns (run: Run)
    requires Valid(cfg, start) && Doing(Last(start), w).Claiming?
    ensures Valid(cfg, run) && Last(run).generation == Last(start).generation
    ensures Doing(Last(run), w).AtTop? || Doing(Last(run), w).Handling?
    ensures Doing(Last(run), w).AtTop? ==> ClaimedBy(run, w) == ClaimedBy(start, w)
    ensures Doing(Last(run), w).Handling? ==> ClaimedBy(run, w) == ClaimedBy(start, w) + [Doing(Last(run), w).job]
    ensures Announced(cfg, run, w) == Announced(cfg, start, w)
    ensures Looks(run, w) == Looks(start, w)
    ensures Lapses(run, w) <= Lapses(start, w) + if answered then 0 else 1
  {
    var rows, now := Last(start).rows, Last(start).now;
    var runnable := set id | id in rows && Claimable(rows, id, now);
    if !answered || runnable == {} {
      assert forall id :: Claimable(rows, id, now) ==> id in runnable;
      run := Extend(cfg, start, ClaimNothing(w));
    } else {
      ghost var least := FirstExists(rows, runnable);
      assert IsFirst(rows, least, now);
      var first :| first in rows && IsFirst(rows, first, now);
      assert IsFirst(rows, first, now);
      run := Extend(cfg, start, Claim(w, first));
    }
  }

  /** From the top of the loop to the handler's return, or back to the top with nothing claimed. */
  method LookAndClaim(cfg: Config, start: Run, w: WorkerId, pass: Pass) returns (run: Run)
    requires Valid(cfg, start) && Doing(Last(start), w).AtTop? && w.generation <= Last(start).generation
    ensures Valid(cfg, run) && w.generation <= Last(run).generation
    ensures !Doing(Last(run), w).Claiming? && !Doing(Last(run), w).Failing?
    ensures Announced(cfg, run, w) == Announced(cfg, start, w)
    ensures !Doing(Last(run), w).Stopped? ==> Looks(run, w) == Looks(start, w) + 1
    ensures Lapses(run, w) <= Lapses(start, w) + if pass.answered then 0 else 1
  {
    OthersOnlyStop(cfg, start, w, pass.beforeLook);
    run := Interleaved(cfg, start, w, pass.beforeLook);
    if Doing(Last(run), w).Stopped? {
      return;
    }
    run := Extend(cfg, run, CheckCancelled(w));
    if Doing(Last(run), w).Stopped? {
      return;
    }
    OthersOnlyStop(cfg, run, w, pass.beforeClaim);
    run := Interleaved(cfg, run, w, pass.beforeClaim);
    if Doing(Last(run), w).Stopped? {
      return;
    }
    run := ClaimNext(cfg, run, w, pass.answered);
    if Doing(Last(run), w).AtTop? {
      return;
    }
    OthersOnlyStop(cfg, run, w, pass.beforeOutcome);
    run := Interleaved(cfg, run, w, pass.beforeOutcome);
  }

  /** From the handler's return to the announcement. No report when the handler panics or the worker is stopped. */
  method Conclude(cfg: Config, start: Run, w: WorkerId, pass: Pass) returns (run: Run, report: Option<Report>)
    requires Valid(cfg, start) && Doing(Last(start), w).Handling? && w.generation <= Last(start).generation
    ensures Valid(cfg, run) && w.generation <= Last(run).generation
    ensures report.Some? ==> Doing(Last(run), w).AtTop? && CountsAsSaid(report.value, pass.handled)
    ensures report.None? ==> Doing(Last(run), w).Stopped?
    ensures pass.handled.Panicked? ==> report.None?
    ensures Looks(run, w) == Looks(start, w) && Lapses(run, w) == Lapses(start, w)
    ensures report.Some? ==> report.value.said.job == Doing(Last(start), w).job
    ensures report.Some? && pass.firstSucceeds && pass.writeSucceeds ==>
              Holds(Last(run).rows, report.value.said) && Settles(start, pass.handled, report.value.said)
    ensures Announced(cfg, run, w) == Announced(cfg, start, w) + if report.Some? then [report.value.said] else []
  {
    var job := Doing(Last(start), w).job;
    match pass.handled
    case Panicked =>
      run := Extend(cfg, start, Panic(w));
      return run, None;
    case Fine =>
      run := Extend(cfg, start, if pass.firstSucceeds then Complete(w) else LoseOutcome(w, true));
      return run, Some(Report(Announcement(job, Succeeded), Some(Metrics.Succeeded)));
    case Refused(error, retryable, fault) =>
      run, report := RecordFailure(cfg, start, w, pass);
  }

  /** The two statements of `fail` and what is announced of them. */
  method RecordFailure(cfg: Config, start: Run, w: WorkerId, pass: Pass) returns (run: Run, report: Option<Report>)
    requires Valid(cfg, start) && Doing(Last(start), w).Handling? && w.generation <= Last(start).generation
    requires pass.handled.Refused?
    ensures Valid(cfg, run) && w.generation <= Last(run).generation
    ensures report.Some? ==> Doing(Last(run), w).AtTop? && CountsAsSaid(report.value, pass.handled)
    ensures report.None? ==> Doing(Last(run), w).Stopped?
    ensures Looks(run, w) == Looks(start, w) && Lapses(run, w) == Lapses(start, w)
    ensures report.Some? && pass.firstSucceeds && pass.writeSucceeds ==>
              Holds(Last(run).rows, report.value.said) && Settles(start, pass.handled, report.value.said)
    ensures report.Some? && pass.firstSucceeds && pass.writeSucceeds && report.value.said.job in Last(run).rows ==>
              Last(run).rows[report.value.said.job].lastError == Some(pass.handled.error)
    ensures report.Some? ==> report.value.said.job == Doing(Last(start), w).job
    ensures Announced(cfg, run, w) == Announced(cfg, start, w) + if report.Some? then [report.value.said] else []
  {
    var job := Doing(Last(start), w).job;
    var failed := Some(Report(Announcement(job, Failed), Some(pass.handled.fault)));
    if !pass.firstSucceeds {
      run := Extend(cfg, start, LoseOutcome(w, false));
      return run, failed;
    }
    run := Extend(cfg, start, PlanFailure(w, pass.handled.retryable));
    if Doing(Last(run), w).AtTop? {
      return run, failed;
    }
    OthersOnlyStop(cfg, run, w, pass.beforeWrite);
    run := Interleaved(cfg, run, w, pass.beforeWrite);
    if Doing(Last(run), w).Stopped? {
      return run, None;
    }
    if !pass.writeSucceeds {
      run := Extend(cfg, run, LoseOutcome(w, false));
      return run, failed;
    }
    var retried := Doing(Last(run), w).plan.Retry?;
    run := Extend(cfg, run, WriteFailure(w, pass.handled.error));
    return run, if retried then Some(Report(Announcement(job, Queued), None)) else failed;
  }
}

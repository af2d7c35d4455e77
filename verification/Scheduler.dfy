/** Once-per-period scheduling from idempotency keys (crates/jobs/src/scheduler.rs). */
module Scheduler {
  import opened Wrappers
  import opened JobTable
  import opened JobEngine
  import opened JobAttempts
  import opened JobBatch

  datatype Periodic = Periodic(kind: JobKind, every: Duration, priority: int, maxAttempts: int)

  const HOUR: Duration := 60 * 60 * SECOND
  const DAY: Duration := 24 * HOUR

  function DefaultSchedule(): seq<Periodic> {
    [Periodic(UpdateSources, DAY, 10, 3), Periodic(JobKind.PruneJobs, DAY, 20, 1),
     Periodic(PruneSessions, HOUR, 20, 1), Periodic(ReconcileLibrary, DAY, 20, 1)]
  }

  function KindName(kind: JobKind): string {
    match kind
    case DownloadChapter => "download_chapter"
    case PackageChapter => "package_chapter"
    case RefreshMetadata => "refresh_metadata"
    case CheckFollow => "check_follow"
    case UpdateSources => "update_sources"
    case PruneJobs => "prune_jobs"
    case PruneSessions => "prune_sessions"
    case ReconcileLibrary => "reconcile_library"
  }

  function KindOf(name: string): Option<JobKind> {
    if name == "download_chapter" then Some(DownloadChapter)
    else if name == "package_chapter" then Some(PackageChapter)
    else if name == "refresh_metadata" then Some(RefreshMetadata)
    else if name == "check_follow" then Some(CheckFollow)
    else if name == "update_sources" then Some(UpdateSources)
    else if name == "prune_jobs" then Some(JobKind.PruneJobs)
    else if name == "prune_sessions" then Some(PruneSessions)
    else if name == "reconcile_library" then Some(ReconcileLibrary)
    else None
  }

  /** A stored kind is read back. */
  lemma KindsAreReadBack(kind: JobKind)
    ensures KindOf(KindName(kind)) == Some(kind)
  {
  }

  // --- period keys ---------------------------------------------------------

  /** Whole seconds, and never zero. */
  function PeriodSeconds(every: Duration): (seconds: int)
    ensures seconds >= 1
  {
    if every / SECOND < 1 then 1 else every / SECOND
  }

  function PeriodLength(every: Duration): Duration {
    PeriodSeconds(every) * SECOND
  }

  function Bucket(every: Duration, now: Time): int {
    (now / SECOND) / PeriodSeconds(every)
  }

  function Key(prefix: string, bucket: int): string {
    prefix + ":" + Decimal.Print(bucket)
  }

  function PeriodKey(prefix: string, every: Duration, now: Time): string {
    Key(prefix, Bucket(every, now))
  }

  /** A period is cut down to whole seconds; below a second it is one. */
  lemma PeriodLengthIs(every: Duration)
    ensures every < 1_000_000 ==> PeriodLength(every) == 1_000_000
    ensures every >= 1_000_000 ==> PeriodLength(every) <= every < PeriodLength(every) + 1_000_000
    ensures PeriodLength(every) % 1_000_000 == 0
  {
  }

  /** An instant lies in its bucket's span, so a bucket changes exactly once per period. */
  lemma BucketSpan(every: Duration, now: Time)
    ensures Bucket(every, now) * PeriodLength(every) <= now < (Bucket(every, now) + 1) * PeriodLength(every)
  {
  }

  lemma BucketIs(every: Duration, now: Time, b: int)
    requires b * PeriodLength(every) <= now < (b + 1) * PeriodLength(every)
    ensures Bucket(every, now) == b
  {
    BucketSpan(every, now);
    var p, c := PeriodLength(every), Bucket(every, now);
    if c < b {
      assert (c + 1) * p <= b * p by { MulMonotone(c + 1, b, p); }
    } else if c > b {
      assert (b + 1) * p <= c * p by { MulMonotone(b + 1, c, p); }
    }
  }

  lemma MulMonotone(a: int, b: int, p: int)
    requires a <= b && p >= 0
    ensures a * p <= b * p
  {
  }

  /** A key names its prefix and its bucket: the bucket is what follows the last colon. */
  lemma KeyIsInjective(p: string, b: int, q: string, c: int)
    requires Key(p, b) == Key(q, c)
    ensures p == q && b == c
  {
    var k, s, t := Key(p, b), Decimal.Print(b), Decimal.Print(c);
    assert k[|k| - |s| - 1] == ':' && k[|k| - |t| - 1] == ':';
    assert forall i | 0 <= i < |s| :: k[|k| - |s| + i] == s[i];
    assert forall i | 0 <= i < |t| :: k[|k| - |t| + i] == t[i];
    assert |s| == |t|;
    assert p == k[..|p|] && q == k[..|q|];
    assert s == k[|p| + 1..] && t == k[|q| + 1..];
    Decimal.PrintIsInjective(b, c);
  }

  // --- one insert per period, over whole runs ------------------------------

  predicate Inserts(s: State, step: Step, key: string) {
    step.Enqueue? && step.req.key == Some(key) && !KeyPresent(s.rows, key)
  }

  /** How often a run inserts a row under a key. */
  function InsertCount(run: Run, key: string): nat {
    match run
    case Begin(_) => 0
    case Then(before, step, _) => InsertCount(before, key) + One(Inserts(Last(before), step, key))
  }

  /** Every request under the prefix names the period of the instant it is made at, as a tick does. */
  ghost predicate Scheduled(run: Run, prefix: string, every: Duration) {
    match run
    case Begin(_) => true
    case Then(before, step, _) =>
      && Scheduled(before, prefix, every)
      && (step.Enqueue? ==> forall b | step.req.key == Some(Key(prefix, b)) :: b == Bucket(every, Last(before).now))
  }

  ghost predicate OncePerPeriod(cfg: Config, prefix: string, every: Duration) {
    forall run, b | Valid(cfg, run) && Scheduled(run, prefix, every) :: InsertCount(run, Key(prefix, b)) <= 1
  }

  /** A key already inserted is still in the table, or its period is over. */
  ghost predicate Spent(run: Run, prefix: string, every: Duration, b: int) {
    var s, key := Last(run), Key(prefix, b);
    && (InsertCount(run, key) == 0 ==> !KeyPresent(s.rows, key))
    && (InsertCount(run, key) > 0 ==>
          && InsertCount(run, key) == 1
          && b <= Bucket(every, s.now)
          && (b == Bucket(every, s.now) ==> KeyPresent(s.rows, key))
          && forall id | id in s.rows && s.rows[id].key == Some(key) :: s.rows[id].createdAt >= b * PeriodLength(every))
  }

  lemma InsertsAfter(cfg: Config, s: State, step: Step, key: string)
    requires TasksOk(s) && Enabled(s, step)
    ensures var s' := Apply(cfg, s, step);
            && (forall id | id in s'.rows && id !in s.rows ::
                  && step.Enqueue? && id == step.id && s'.rows[id].createdAt == s.now
                  && (s'.rows[id].key == Some(key) ==> Inserts(s, step, key)))
            && (Inserts(s, step, key) ==> KeyPresent(s'.rows, key))
  {
  }

  lemma RowsAfter(cfg: Config, s: State, step: Step)
    requires TasksOk(s) && Enabled(s, step)
    ensures var s' := Apply(cfg, s, step);
            && (forall id | id in s.rows && id !in s'.rows ::
                  step.Prune? && s.rows[id].updatedAt < s.now - cfg.retention)
            && (forall id | id in s.rows && id in s'.rows ::
                  s'.rows[id].key == s.rows[id].key && s'.rows[id].createdAt == s.rows[id].createdAt)
            && s.now <= s'.now
  {
  }

  /** Only an insert adds a key, and only pruning removes one. */
  lemma KeysAfter(cfg: Config, s: State, step: Step, key: string)
    requires TasksOk(s) && Enabled(s, step)
    ensures var s' := Apply(cfg, s, step);
            && (forall id | id in s'.rows && s'.rows[id].key == Some(key) ::
                  if id in s.rows then s'.rows[id].key == s.rows[id].key && s'.rows[id].createdAt == s.rows[id].createdAt
                  else Inserts(s, step, key) && s'.rows[id].createdAt == s.now)
            && (Inserts(s, step, key) ==> KeyPresent(s'.rows, key))
            && (forall id | id in s.rows && id !in s'.rows ::
                  step.Prune? && s.rows[id].updatedAt < s.now - cfg.retention)
            && (forall id | id in s.rows && id in s'.rows :: s'.rows[id].key == s.rows[id].key)
            && s.now <= s'.now
  {
    InsertsAfter(cfg, s, step, key);
    RowsAfter(cfg, s, step);
  }

  /** Retention outlasts the period: a row inserted in the current one is too young to prune. */
  lemma CurrentKeySurvives(cfg: Config, s: State, step: Step, every: Duration, b: int, id: JobId)
    requires Structured(s) && Enabled(s, step) && id in s.rows
    requires cfg.retention + 1 >= PeriodLength(every)
    requires s.rows[id].createdAt >= b * PeriodLength(every) && Bucket(every, s.now) == b
    ensures id in Apply(cfg, s, step).rows && Apply(cfg, s, step).rows[id].key == s.rows[id].key
  {
    assert s.rows[id].updatedAt >= s.now - cfg.retention by {
      BucketSpan(every, s.now);
      assert (b + 1) * PeriodLength(every) == b * PeriodLength(every) + PeriodLength(every);
      assert RowOk(s.rows[id], s.now);
    }
    KeysAfter(cfg, s, step, "");
  }

  lemma StepKeepsSpent(cfg: Config, before: Run, step: Step, prefix: string, every: Duration, b: int)
    requires Structured(Last(before)) && Enabled(Last(before), step)
    requires Scheduled(Extend(cfg, before, step), prefix, every)
    requires cfg.retention + 1 >= PeriodLength(every)
    requires Spent(before, prefix, every, b)
    ensures Spent(Extend(cfg, before, step), prefix, every, b)
  {
    var s, s', key := Last(before), Apply(cfg, Last(before), step), Key(prefix, b);
    KeysAfter(cfg, s, step, key);
    BucketIsMonotone(every, s.now, s'.now);
    if Inserts(s, step, key) {
      InsertIsSpent(cfg, before, step, prefix, every, b);
    } else if InsertCount(before, key) > 0 && Bucket(every, s'.now) == b {
      var id :| id in s.rows && s.rows[id].key == Some(key);
      CurrentKeySurvives(cfg, s, step, every, b, id);
    }
  }

  lemma InsertIsSpent(cfg: Config, before: Run, step: Step, prefix: string, every: Duration, b: int)
    requires TasksOk(Last(before)) && Enabled(Last(before), step)
    requires Scheduled(Extend(cfg, before, step), prefix, every)
    requires Spent(before, prefix, every, b) && Inserts(Last(before), step, Key(prefix, b))
    ensures Spent(Extend(cfg, before, step), prefix, every, b)
  {
    KeysAfter(cfg, Last(before), step, Key(prefix, b));
    assert b == Bucket(every, Last(before).now);
    BucketSpan(every, Last(before).now);
  }

  lemma BucketIsMonotone(every: Duration, s: Time, t: Time)
    requires s <= t
    ensures Bucket(every, s) <= Bucket(every, t)
  {
    BucketSpan(every, s);
    BucketSpan(every, t);
    if Bucket(every, t) < Bucket(every, s) {
      MulMonotone(Bucket(every, t) + 1, Bucket(every, s), PeriodLength(every));
    }
  }

  lemma {:induction false} RunsSpendKeysOnce(cfg: Config, run: Run, prefix: string, every: Duration, b: int)
    requires Valid(cfg, run) && Scheduled(run, prefix, every)
    requires cfg.retention + 1 >= PeriodLength(every)
    ensures Spent(run, prefix, every, b)
  {
    match run
    case Begin(_) =>
    case Then(before, step, _) =>
      RunsAreStructured(cfg, before);
      RunsSpendKeysOnce(cfg, before, prefix, every, b);
      StepKeepsSpent(cfg, before, step, prefix, every, b);
  }

  /**
   The period a key family may have: one insert per period in every run holds exactly when
   the retention, to the microsecond, covers the period. This applies to a schedule's kinds
   and to a follow's own interval alike.
   */
  lemma OncePerPeriodExactly(cfg: Config, prefix: string, every: Duration)
    ensures OncePerPeriod(cfg, prefix, every) <==> cfg.retention + 1 >= PeriodLength(every)
  {
    if cfg.retention + 1 >= PeriodLength(every) {
      forall run, b | Valid(cfg, run) && Scheduled(run, prefix, every)
        ensures InsertCount(run, Key(prefix, b)) <= 1
      {
        RunsSpendKeysOnce(cfg, run, prefix, every, b);
      }
    } else {
      var run := PrunedWithinThePeriod(cfg, prefix, every);
    }
  }

  /** Short retention: the row is cancelled and pruned inside its period, and the next tick inserts it again. */
  lemma PrunedWithinThePeriod(cfg: Config, prefix: string, every: Duration) returns (run: Run)
    requires cfg.retention + 1 < PeriodLength(every)
    ensures Valid(cfg, run) && Scheduled(run, prefix, every) && InsertCount(run, Key(prefix, 0)) == 2
  {
    var later := if cfg.retention < 0 then 0 else cfg.retention + 1;
    BucketIs(every, 0, 0);
    BucketIs(every, later, 0);
    forall b | Key(prefix, 0) == Key(prefix, b) ensures b == 0 {
      KeyIsInjective(prefix, 0, prefix, b);
    }
    var key := Key(prefix, 0);
    var req := Request(JobKind.PruneJobs, "{}", None, Some(key), 20, 1);
    var first := Extend(cfg, Begin(0), Enqueue(0, req));
    assert 0 in Last(first).rows;
    var cancelled := Extend(cfg, first, Step.Cancel(0));
    var aged := Extend(cfg, cancelled, Advance(later));
    var pruned := Extend(cfg, aged, Step.Prune);
    assert Last(pruned).rows == map[];
    run := Extend(cfg, pruned, Enqueue(1, req));
    assert InsertCount(first, key) == 1 + InsertCount(Begin(0), key);
    assert InsertCount(pruned, key) == InsertCount(aged, key) == InsertCount(cancelled, key) == InsertCount(first, key);
    assert Scheduled(Begin(0), prefix, every) && Scheduled(first, prefix, every) && Scheduled(pruned, prefix, every);
  }

  // --- how many rows a kind gets -------------------------------------------

  /** Rows a run inserts under the prefix at instants in `[from, to]`. */
  ghost function InsertsWithin(run: Run, prefix: string, from: Time, to: Time): nat {
    match run
    case Begin(_) => 0
    case Then(before, step, _) =>
      InsertsWithin(before, prefix, from, to)
      + One(from <= Last(before).now <= to && exists b :: Inserts(Last(before), step, Key(prefix, b)))
  }

  /** Rows a run inserts under the prefix for buckets in `[lo, hi]`. */
  ghost function InsertsForBuckets(run: Run, prefix: string, lo: int, hi: int): nat {
    match run
    case Begin(_) => 0
    case Then(before, step, _) =>
      InsertsForBuckets(before, prefix, lo, hi)
      + One(exists b | lo <= b <= hi :: Inserts(Last(before), step, Key(prefix, b)))
  }

  lemma {:induction false} BucketsCoverInstants(run: Run, prefix: string, every: Duration, from: Time, to: Time)
    requires Scheduled(run, prefix, every)
    ensures InsertsWithin(run, prefix, from, to)
         <= InsertsForBuckets(run, prefix, Bucket(every, from), Bucket(every, to))
  {
    match run
    case Begin(_) =>
    case Then(before, step, _) =>
      BucketsCoverInstants(before, prefix, every, from, to);
      if from <= Last(before).now <= to {
        BucketIsMonotone(every, from, Last(before).now);
        BucketIsMonotone(every, Last(before).now, to);
      }
  }

  lemma {:induction false} OneMoreBucket(run: Run, prefix: string, lo: int, hi: int)
    ensures InsertsForBuckets(run, prefix, lo, hi)
         <= InsertsForBuckets(run, prefix, lo, hi - 1) + InsertCount(run, Key(prefix, hi))
  {
    match run
    case Begin(_) =>
    case Then(before, step, _) =>
      OneMoreBucket(before, prefix, lo, hi);
      if b :| lo <= b <= hi && Inserts(Last(before), step, Key(prefix, b)) {
        assert b <= hi - 1 || Inserts(Last(before), step, Key(prefix, hi));
      }
  }

  lemma {:induction false} NoBuckets(run: Run, prefix: string, lo: int, hi: int)
    requires hi < lo
    ensures InsertsForBuckets(run, prefix, lo, hi) == 0
  {
    if run.Then? {
      NoBuckets(run.before, prefix, lo, hi);
    }
  }

  lemma {:induction false} OnePerBucket(run: Run, prefix: string, lo: int, hi: int)
    requires lo <= hi + 1
    requires forall b :: InsertCount(run, Key(prefix, b)) <= 1
    ensures InsertsForBuckets(run, prefix, lo, hi) <= hi - lo + 1
    decreases hi - lo
  {
    if hi < lo {
      NoBuckets(run, prefix, lo, hi);
    } else {
      OnePerBucket(run, prefix, lo, hi - 1);
      OneMoreBucket(run, prefix, lo, hi);
    }
  }

  /** A kind gets one row per period it overlaps: at most `(to - from) / period + 2` in any interval. */
  lemma InsertRate(cfg: Config, run: Run, prefix: string, every: Duration, from: Time, to: Time)
    requires Valid(cfg, run) && Scheduled(run, prefix, every) && from <= to
    requires cfg.retention + 1 >= PeriodLength(every)
    ensures InsertsWithin(run, prefix, from, to) <= (to - from) / PeriodLength(every) + 2
  {
    OncePerPeriodExactly(cfg, prefix, every);
    BucketsCoverInstants(run, prefix, every, from, to);
    BucketIsMonotone(every, from, to);
    OnePerBucket(run, prefix, Bucket(every, from), Bucket(every, to));
    BucketSpan(every, from);
    BucketSpan(every, to);
    BucketDistance(Bucket(every, from), Bucket(every, to), PeriodLength(every), from, to);
  }

  lemma BucketDistance(b: int, c: int, p: int, from: Time, to: Time)
    requires p >= 1 && from < (b + 1) * p && c * p <= to
    ensures c - b <= (to - from) / p + 1
  {
    var q := (to - from) / p;
    assert to - from < (q + 1) * p;
    assert (c - b - 1) * p == c * p - (b + 1) * p;
    if c - b - 1 >= q + 1 {
      MulMonotone(q + 1, c - b - 1, p);
    }
  }

  // --- the startup check ---------------------------------------------------

  /** The longest duration `chrono` represents: `i64::MAX` milliseconds. */
  const CHRONO_MAX: Duration := 0x7FFF_FFFF_FFFF_FFFF * 1000

  function Longest(schedule: seq<Periodic>): (longest: Duration)
    ensures longest >= 0 && forall p | p in schedule :: p.every <= longest
    ensures longest == 0 || exists p | p in schedule :: p.every == longest
  {
    if schedule == [] then 0 else
      var rest := Longest(schedule[1..]);
      if rest < schedule[0].every then schedule[0].every else rest
  }

  function CheckRetention(retention: Duration, schedule: seq<Periodic>): Result<()> {
    var longest := Longest(schedule);
    // A duration too long for chrono is taken as zero.
    var longest := if longest > CHRONO_MAX then 0 else longest;
    if retention <= longest then Err(Invalid) else Ok(())
  }

  /**
   A retention is accepted exactly when it is longer than every period of the schedule. A schedule
   with a period that no duration can hold is not checked but for a positive retention.
   */
  lemma RetentionIsLonger(retention: Duration, schedule: seq<Periodic>)
    ensures (forall p | p in schedule :: p.every <= CHRONO_MAX) ==>
              (CheckRetention(retention, schedule).Ok? <==> retention > 0 && forall p | p in schedule :: retention > p.every)
    ensures (exists p | p in schedule :: p.every > CHRONO_MAX) ==> (CheckRetention(retention, schedule).Ok? <==> retention > 0)
  {
  }

  /** An accepted retention makes every kind with a period of a second or more run once per period. */
  lemma AcceptedRetentionIsOncePerPeriod(cfg: Config, schedule: seq<Periodic>, p: Periodic)
    requires CheckRetention(cfg.retention, schedule).Ok? && Longest(schedule) <= CHRONO_MAX
    requires p in schedule && p.every >= SECOND
    ensures OncePerPeriod(cfg, KindName(p.kind), p.every)
  {
    OncePerPeriodExactly(cfg, KindName(p.kind), p.every);
  }

  /** Below a second the key still spans a whole one, which the check does not see. */
  lemma SubSecondPeriodIsAccepted(prefix: string)
    ensures CheckRetention(600_000, [Periodic(CheckFollow, 500_000, 5, 3)]).Ok?
    ensures !OncePerPeriod(Config(900 * SECOND, 600_000), prefix, 500_000)
  {
    OncePerPeriodExactly(Config(900 * SECOND, 600_000), prefix, 500_000);
  }

  lemma DefaultRetentionIsChecked()
    ensures CheckRetention(DAY, DefaultSchedule()).Err? && CheckRetention(7 * DAY, DefaultSchedule()).Ok?
  {
    assert DefaultSchedule()[0] in DefaultSchedule();
    assert Longest(DefaultSchedule()) == DAY;
  }

  lemma DefaultKindsOncePerPeriod(cfg: Config, schedule: seq<Periodic>)
    requires cfg.retention == 7 * DAY && CheckRetention(7 * DAY, schedule).Ok? && Longest(schedule) <= CHRONO_MAX
    requires forall p | p in schedule :: p.every >= SECOND
    ensures forall p | p in schedule :: OncePerPeriod(cfg, KindName(p.kind), p.every)
  {
    forall p | p in schedule ensures OncePerPeriod(cfg, KindName(p.kind), p.every) {
      AcceptedRetentionIsOncePerPeriod(cfg, schedule, p);
    }
  }

  /** Seven days cover the default schedule; one day is refused; a follow's interval is not looked at. */
  lemma DefaultRetention(cfg: Config)
    ensures CheckRetention(DAY, DefaultSchedule()).Err? && CheckRetention(7 * DAY, DefaultSchedule()).Ok?
    ensures cfg.retention == 7 * DAY ==>
              && (forall p | p in DefaultSchedule() :: OncePerPeriod(cfg, KindName(p.kind), p.every))
              && !OncePerPeriod(cfg, "check_follow:x", 8 * DAY)
  {
    DefaultRetentionIsChecked();
    if cfg.retention == 7 * DAY {
      DefaultKindsOncePerPeriod(cfg, DefaultSchedule());
      OncePerPeriodExactly(cfg, "check_follow:x", 8 * DAY);
    }
  }

  /** Maintenance runs hourly or daily, behind all other work, and only the update of sources is retried. */
  lemma DefaultScheduleIs(p: Periodic)
    ensures p in DefaultSchedule() <==>
              && (p.kind == UpdateSources || p.kind == JobKind.PruneJobs || p.kind == PruneSessions || p.kind == ReconcileLibrary)
              && p.every == (if p.kind == PruneSessions then 3_600_000_000 else 86_400_000_000)
              && p.priority == (if p.kind == UpdateSources then 10 else 20)
              && p.maxAttempts == (if p.kind == UpdateSources then 3 else 1)
  {
    var s := DefaultSchedule();
    assert s[0] in s && s[1] in s && s[2] in s && s[3] in s;
  }

  /** Within any day at most 26 rows to prune sessions are added by default, and three of every other kind. */
  lemma DefaultScheduleRate(cfg: Config, run: Run, from: Time, p: Periodic)
    requires cfg.retention == 7 * DAY && p in DefaultSchedule()
    requires Valid(cfg, run) && Scheduled(run, KindName(p.kind), p.every)
    ensures InsertsWithin(run, KindName(p.kind), from, from + 86_400_000_000) <= if p.kind == PruneSessions then 26 else 3
  {
    InsertRate(cfg, run, KindName(p.kind), p.every, from, from + 86_400_000_000);
  }

  // --- one tick ------------------------------------------------------------

  datatype Follow = Follow(id: string, interval: int)

  function PeriodicRequest(p: Periodic, now: Time): Request {
    Request(p.kind, "{}", None, Some(PeriodKey(KindName(p.kind), p.every, now)), p.priority, p.maxAttempts)
  }

  function FollowInterval(follow: Follow): Duration {
    (if follow.interval < 1 then 1 else follow.interval) * SECOND
  }

  function FollowRequest(follow: Follow, now: Time): Request {
    Request(CheckFollow, follow.id, None, Some(PeriodKey("check_follow:" + follow.id, FollowInterval(follow), now)), 5, 3)
  }

  function PeriodicRequests(schedule: seq<Periodic>, now: Time): seq<Request> {
    seq(|schedule|, i requires 0 <= i < |schedule| => PeriodicRequest(schedule[i], now))
  }

  function FollowRequests(due: seq<Follow>, now: Time): seq<Request> {
    seq(|due|, i requires 0 <= i < |due| => FollowRequest(due[i], now))
  }

  class TickingScheduler {
    const queue: PostgresQueue
    const schedule: seq<Periodic>
    const staleAfter: Duration

    constructor (queue: PostgresQueue, schedule: seq<Periodic>, staleAfter: Duration)
      ensures this.queue == queue && this.schedule == schedule && this.staleAfter == staleAfter
    {
      this.queue, this.schedule, this.staleAfter := queue, schedule, staleAfter;
    }

    /** One pass. `ids` are the identifiers the inserts generate, `due` the follows whose check is due. */
    method Tick(due: seq<Follow>, ids: seq<JobId>, now: Time, outage: Outage) returns (r: Result<TickReport>)
      requires |ids| == |schedule| + |due|
      modifies queue
      ensures Fresh(old(queue.rows), ids) && NoOutage(outage) ==> r.Ok?
      ensures r.Err? ==> BrokeOff(old(queue.rows), PeriodicRequests(schedule, now) + FollowRequests(due, now), ids,
                                  now - staleAfter, now, queue.rows)
      ensures r.Ok? ==> Ticked(old(queue.rows), PeriodicRequests(schedule, now), FollowRequests(due, now), ids,
                               now - staleAfter, now, queue.rows, r.value)
    {
      r := SweepAndEnqueue(queue, PeriodicRequests(schedule, now), FollowRequests(due, now), ids, staleAfter, now, outage);
    }
  }

  // --- follows -------------------------------------------------------------

  /**
   Two ticks ask for one check of a follow exactly when they fall in one span of its interval, in
   whole seconds and at least one.
   */
  lemma FollowSpans(follow: Follow, length: Duration, s: Time, t: Time, b: int, c: int)
    requires length == (if follow.interval < 1 then 1 else follow.interval) * 1_000_000
    requires b * length <= s < (b + 1) * length && c * length <= t < (c + 1) * length
    ensures FollowRequest(follow, s).key == FollowRequest(follow, t).key <==> b == c
  {
    assert PeriodLength(FollowInterval(follow)) == length;
    BucketIs(FollowInterval(follow), s, b);
    BucketIs(FollowInterval(follow), t, c);
    if FollowRequest(follow, s).key == FollowRequest(follow, t).key {
      KeyIsInjective("check_follow:" + follow.id, b, "check_follow:" + follow.id, c);
    }
  }

  /** With enough retention, and only then, no run ever checks a follow twice in one span of its interval. */
  lemma FollowsOncePerInterval(cfg: Config, follow: Follow, length: Duration)
    requires length == (if follow.interval < 1 then 1 else follow.interval) * 1_000_000
    ensures OncePerPeriod(cfg, "check_follow:" + follow.id, length) <==> cfg.retention + 1 >= length
  {
    assert PeriodLength(length) == length;
    OncePerPeriodExactly(cfg, "check_follow:" + follow.id, length);
  }

  /** A tick asks a follow's keys for the current span of its own interval only. */
  lemma TicksNameTheInterval(schedule: seq<Periodic>, due: seq<Follow>, now: Time, follow: Follow, length: Duration)
    requires forall other | other in due && other.id == follow.id :: other == follow
    requires length == (if follow.interval < 1 then 1 else follow.interval) * 1_000_000
    ensures forall req | req in PeriodicRequests(schedule, now) + FollowRequests(due, now) ::
              NamesThePeriod(req, "check_follow:" + follow.id, length, now)
  {
    var prefix := "check_follow:" + follow.id;
    forall i, b | 0 <= i < |schedule| ensures PeriodicRequest(schedule[i], now).key != Some(Key(prefix, b)) {
      if PeriodicRequest(schedule[i], now).key == Some(Key(prefix, b)) {
        KeyIsInjective(KindName(schedule[i].kind), Bucket(schedule[i].every, now), prefix, b);
        FollowPrefixIsNoKind(follow.id, schedule[i].kind);
      }
    }
    forall i, b | 0 <= i < |due| && FollowRequest(due[i], now).key == Some(Key(prefix, b))
      ensures b == Bucket(length, now)
    {
      KeyIsInjective("check_follow:" + due[i].id, Bucket(FollowInterval(due[i]), now), prefix, b);
      SameId(due[i].id, follow.id);
    }
  }

  lemma SameId(a: string, b: string)
    ensures "check_follow:" + a == "check_follow:" + b ==> a == b
  {
    assert ("check_follow:" + a)[13..] == a && ("check_follow:" + b)[13..] == b;
  }

  /** What a tick asks for, but for the keys. */
  lemma TickRequestsAre(schedule: seq<Periodic>, due: seq<Follow>, now: Time)
    ensures var requests := PeriodicRequests(schedule, now) + FollowRequests(due, now);
            && |requests| == |schedule| + |due|
            && (forall i | 0 <= i < |schedule| ::
                  && requests[i].kind == schedule[i].kind && requests[i].payload == "{}" && requests[i].runAt == None
                  && requests[i].priority == schedule[i].priority && requests[i].maxAttempts == schedule[i].maxAttempts)
            && (forall i | 0 <= i < |due| ::
                  var check := requests[|schedule| + i];
                  check.kind == CheckFollow && check.payload == due[i].id && check.runAt == None
                  && check.priority == 5 && check.maxAttempts == 3)
  {
  }

  /** Every tick leaves a row for the current period of every scheduled kind and of every due follow. */
  lemma TickCoversThePeriod(t: Table, schedule: seq<Periodic>, due: seq<Follow>, ids: seq<JobId>, cutoff: Time,
                            now: Time, after: Table, report: TickReport)
    requires |ids| == |schedule| + |due| && Fresh(t, ids)
    requires Ticked(t, PeriodicRequests(schedule, now), FollowRequests(due, now), ids, cutoff, now, after, report)
    ensures forall p | p in schedule :: KeyPresent(after, PeriodKey(KindName(p.kind), p.every, now))
    ensures forall f | f in due ::
              KeyPresent(after, PeriodKey("check_follow:" + f.id, (if f.interval < 1 then 1 else f.interval) * 1_000_000, now))
  {
    var periodic, follows := PeriodicRequests(schedule, now), FollowRequests(due, now);
    TickCoversItsRequests(t, periodic, follows, ids, cutoff, now, after, report);
    forall p | p in schedule ensures KeyPresent(after, PeriodKey(KindName(p.kind), p.every, now)) {
      var i :| 0 <= i < |schedule| && schedule[i] == p;
      assert periodic[i] in periodic + follows;
    }
    forall f | f in due
      ensures KeyPresent(after, PeriodKey("check_follow:" + f.id, (if f.interval < 1 then 1 else f.interval) * 1_000_000, now))
    {
      var i :| 0 <= i < |due| && due[i] == f;
      assert follows[i] in periodic + follows;
    }
  }

  // --- ticks as steps of a run ---------------------------------------------

  ghost predicate NamesThePeriod(req: Request, prefix: string, every: Duration, now: Time) {
    forall b | req.key == Some(Key(prefix, b)) :: b == Bucket(every, now)
  }

  /** A schedule whose kinds are distinct, like the default one, asks each kind's keys for its own period only. */
  lemma TicksNameThePeriod(schedule: seq<Periodic>, due: seq<Follow>, now: Time, p: Periodic)
    requires forall i, j | 0 <= i < j < |schedule| :: schedule[i].kind != schedule[j].kind
    requires p in schedule
    ensures forall req | req in PeriodicRequests(schedule, now) + FollowRequests(due, now) ::
              NamesThePeriod(req, KindName(p.kind), p.every, now)
  {
    var prefix := KindName(p.kind);
    forall i, b | 0 <= i < |schedule| && PeriodKey(KindName(schedule[i].kind), schedule[i].every, now) == Key(prefix, b)
      ensures b == Bucket(p.every, now)
    {
      KeyIsInjective(KindName(schedule[i].kind), Bucket(schedule[i].every, now), prefix, b);
      KindNamesDiffer(schedule[i].kind, p.kind);
    }
    forall i, b | 0 <= i < |due| ensures FollowRequest(due[i], now).key != Some(Key(prefix, b)) {
      if FollowRequest(due[i], now).key == Some(Key(prefix, b)) {
        KeyIsInjective("check_follow:" + due[i].id, Bucket(FollowInterval(due[i]), now), prefix, b);
        FollowPrefixIsNoKind(due[i].id, p.kind);
      }
    }
  }

  lemma KindNamesDiffer(a: JobKind, b: JobKind)
    ensures KindName(a) == KindName(b) ==> a == b
  {
  }

  lemma FollowPrefixIsNoKind(id: string, kind: JobKind)
    ensures "check_follow:" + id != KindName(kind)
  {
    assert ("check_follow:" + id)[12] == ':' && |"check_follow:" + id| >= 13;
    assert |KindName(kind)| >= 13 ==> KindName(kind)[12] != ':';
  }

  /** So a tick is a stretch of any run, and it keeps the run on schedule. */
  lemma {:induction false} TickIsARun(cfg: Config, run: Run, requests: seq<Request>, ids: seq<JobId>,
                                      prefix: string, every: Duration)
    returns (longer: Run)
    requires Valid(cfg, run) && |requests| <= |ids| && Fresh(Last(run).rows, ids)
    requires forall i | 0 <= i < |ids| :: ids[i] !in Last(run).used
    requires Scheduled(run, prefix, every)
    requires forall req | req in requests :: NamesThePeriod(req, prefix, every, Last(run).now)
    ensures Valid(cfg, longer) && Scheduled(longer, prefix, every) && Last(longer).now == Last(run).now
    ensures Last(longer).rows == EnqueuedAll(Recovered(Last(run).rows, Last(run).now - cfg.staleAfter, Last(run).now),
                                             requests, ids, Last(run).now)
    ensures Last(longer).used == Last(run).used + set id | id in ids[..|requests|]
  {
    var n := |requests|;
    if n == 0 {
      longer := Extend(cfg, run, RecoverStale);
    } else {
      var shorter := TickIsARun(cfg, run, requests[..n - 1], ids, prefix, every);
      assert ids[..n] == ids[..n - 1] + [ids[n - 1]];
      assert requests[n - 1] in requests;
      longer := Extend(cfg, shorter, Enqueue(ids[n - 1], requests[n - 1]));
    }
  }
}

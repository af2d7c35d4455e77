/** Job outcomes and time-to-first-page percentiles, window by window (crates/jobs/src/metrics.rs). */
module JobMetrics {

  const MAX_SAMPLES: nat := 4096
  const U64_MAX: nat := 0xFFFF_FFFF_FFFF_FFFF

  datatype Outcome = Succeeded | ServiceFault | SourceFault

  datatype Window = Window(succeeded: nat, failedService: nat, failedSource: nat, ttfp: seq<nat>, truncated: bool)

  datatype Snapshot = Snapshot(
    windowSecs: nat, jobsSucceeded: nat, jobsFailedService: nat, jobsFailedSource: nat,
    ttfpSamples: nat, ttfpP50: nat, ttfpP95: nat, ttfpMax: nat, ttfpTruncated: bool)

  // --- percentiles ---------------------------------------------------------

  predicate IsSorted(s: seq<nat>) {
    forall i, j | 0 <= i <= j < |s| :: s[i] <= s[j]
  }

  function Insert(x: nat, s: seq<nat>): seq<nat> {
    if s == [] || x <= s[0] then [x] + s else [s[0]] + Insert(x, s[1..])
  }

  function Sort(s: seq<nat>): seq<nat> {
    if s == [] then [] else Insert(s[0], Sort(s[1..]))
  }

  /** How many samples are at or below `v`. */
  function AtMost(s: seq<nat>, v: nat): nat {
    if s == [] then 0 else (if s[0] <= v then 1 else 0) + AtMost(s[1..], v)
  }

  lemma {:induction false} InsertCounts(x: nat, s: seq<nat>, v: nat)
    ensures |Insert(x, s)| == |s| + 1 && AtMost(Insert(x, s), v) == AtMost(s, v) + (if x <= v then 1 else 0)
    ensures multiset(Insert(x, s)) == multiset(s) + multiset{x}
  {
    if s == [] || x <= s[0] {
      assert ([x] + s)[1..] == s;
    } else {
      InsertCounts(x, s[1..], v);
      assert s == [s[0]] + s[1..] && ([s[0]] + Insert(x, s[1..]))[1..] == Insert(x, s[1..]);
    }
  }

  lemma {:induction false} InsertMembers(x: nat, s: seq<nat>)
    ensures forall y | y in Insert(x, s) :: y == x || y in s
  {
    if s != [] {
      InsertMembers(x, s[1..]);
    }
  }

  lemma Prefixed(x: nat, s: seq<nat>)
    requires IsSorted(s) && forall y | y in s :: x <= y
    ensures IsSorted([x] + s)
  {
    var t := [x] + s;
    forall i, j | 0 <= i <= j < |t| ensures t[i] <= t[j] {
      if j > 0 {
        assert t[j] == s[j - 1] && s[j - 1] in s;
      }
    }
  }

  lemma {:induction false} InsertSorts(x: nat, s: seq<nat>)
    requires IsSorted(s)
    ensures IsSorted(Insert(x, s))
  {
    if s == [] || x <= s[0] {
      Prefixed(x, s);
    } else {
      InsertSorts(x, s[1..]);
      InsertMembers(x, s[1..]);
      Prefixed(s[0], Insert(x, s[1..]));
    }
  }

  lemma {:induction false} SortIs(s: seq<nat>, v: nat)
    ensures IsSorted(Sort(s)) && |Sort(s)| == |s| && multiset(Sort(s)) == multiset(s)
    ensures AtMost(Sort(s), v) == AtMost(s, v)
  {
    if s != [] {
      assert s == [s[0]] + s[1..];
      SortIs(s[1..], v);
      InsertCounts(s[0], Sort(s[1..]), v);
      InsertSorts(s[0], Sort(s[1..]));
    }
  }

  lemma {:induction false} AtMostInSorted(s: seq<nat>, k: nat, v: nat)
    requires IsSorted(s) && k < |s|
    ensures s[k] <= v ==> AtMost(s, v) >= k + 1
    ensures v < s[k] ==> AtMost(s, v) <= k
  {
    assert s[0] <= s[k];
    if k > 0 {
      AtMostInSorted(s[1..], k - 1, v);
    } else if v < s[0] {
      NoneAtMost(s, v);
    }
  }

  lemma {:induction false} NoneAtMost(s: seq<nat>, v: nat)
    requires IsSorted(s) && s != [] && v < s[0]
    ensures AtMost(s, v) == 0
  {
    if |s| > 1 {
      NoneAtMost(s[1..], v);
    }
  }

  /** The nearest rank: the percentage of the count, rounded up, within the slice. */
  function Rank(n: nat, p: nat): nat {
    var rank := (p * n + 99) / 100;
    var atLeastOne := if rank < 1 then 1 else rank;
    if atLeastOne < n then atLeastOne else n
  }

  function Percentile(sorted: seq<nat>, p: nat): nat {
    if sorted == [] then 0 else
      assert 1 <= Rank(|sorted|, p) <= |sorted|;
      sorted[Rank(|sorted|, p) - 1]
  }

  /** `v` is the least of the samples with at least `p` percent of them at or below it. */
  predicate IsPercentile(samples: seq<nat>, p: nat, v: nat) {
    && v in samples && 100 * AtMost(samples, v) >= p * |samples|
    && forall w | w in samples && w < v :: 100 * AtMost(samples, w) < p * |samples|
  }

  lemma RankIs(n: nat, p: nat)
    requires n > 0 && 1 <= p <= 100
    ensures 1 <= Rank(n, p) <= n
    ensures 100 * Rank(n, p) >= p * n && 100 * (Rank(n, p) - 1) < p * n
  {
  }

  /** The reported percentile of any samples is the least with at least that share at or below it. */
  lemma PercentileIsLeast(samples: seq<nat>, p: nat, v: nat)
    requires samples != [] && 1 <= p <= 100
    ensures v == Percentile(Sort(samples), p) <==> IsPercentile(samples, p, v)
  {
    var sorted, value := Sort(samples), Percentile(Sort(samples), p);
    SortIs(samples, value);
    SameMembers(samples, sorted);
    RankIs(|samples|, p);
    var k := Rank(|samples|, p) - 1;
    assert value == sorted[k];
    AtMostInSorted(sorted, k, value);
    assert value in samples;
    forall w | w in samples && w < value ensures 100 * AtMost(samples, w) < p * |samples| {
      AtMostInSorted(sorted, k, w);
      SortIs(samples, w);
    }
    assert IsPercentile(samples, p, value);
  }

  lemma SameMembers(a: seq<nat>, b: seq<nat>)
    requires multiset(a) == multiset(b)
    ensures forall x | x in a :: x in b
    ensures forall x | x in b :: x in a
  {
    forall x | x in a ensures x in b { assert x in multiset(a); }
    forall x | x in b ensures x in a { assert x in multiset(b); }
  }

  // --- windows -------------------------------------------------------------

  datatype Event = Recorded(outcome: Outcome) | Timed(millis: nat) | Taken(windowSecs: nat)

  const EMPTY := Window(0, 0, 0, [], false)

  function Clamped(millis: nat): nat {
    if millis < U64_MAX then millis else U64_MAX
  }

  function Count(w: Window, outcome: Outcome): Window {
    match outcome
    case Succeeded => w.(succeeded := w.succeeded + 1)
    case ServiceFault => w.(failedService := w.failedService + 1)
    case SourceFault => w.(failedSource := w.failedSource + 1)
  }

  function Time(w: Window, millis: nat): Window {
    if |w.ttfp| >= MAX_SAMPLES then w.(truncated := true) else w.(ttfp := w.ttfp + [Clamped(millis)])
  }

  function Summary(w: Window, windowSecs: nat): Snapshot {
    var samples := Sort(w.ttfp);
    Snapshot(windowSecs, w.succeeded, w.failedService, w.failedSource,
             |samples|, Percentile(samples, 50), Percentile(samples, 95),
             if samples == [] then 0 else samples[|samples| - 1], w.truncated)
  }

  function Next(w: Window, e: Event): Window {
    match e
    case Recorded(outcome) => Count(w, outcome)
    case Timed(millis) => Time(w, millis)
    case Taken(_) => EMPTY
  }

  /** The open window after a log of calls, and the snapshots taken along it. */
  function Open(log: seq<Event>): Window {
    if log == [] then EMPTY else Next(Open(log[..|log| - 1]), log[|log| - 1])
  }

  function Snapshots(log: seq<Event>): seq<Snapshot> {
    if log == [] then [] else
      var before, last := log[..|log| - 1], log[|log| - 1];
      Snapshots(before) + if last.Taken? then [Summary(Open(before), last.windowSecs)] else []
  }

  lemma OneMore(log: seq<Event>, e: Event)
    ensures Open(log + [e]) == Next(Open(log), e)
    ensures Snapshots(log + [e]) == Snapshots(log) + (if e.Taken? then [Summary(Open(log), e.windowSecs)] else [])
  {
  }

  class JobMetrics {
    var window: Window
    /** Every call so far. */
    ghost var log: seq<Event>

    ghost predicate Valid()
      reads this
    {
      window == Open(log)
    }

    constructor ()
      ensures Valid() && log == []
    {
      window, log := EMPTY, [];
    }

    method Record(outcome: Outcome)
      requires Valid()
      modifies this
      ensures Valid() && log == old(log) + [Recorded(outcome)]
    {
      match outcome {
        case Succeeded => window := window.(succeeded := window.succeeded + 1);
        case ServiceFault => window := window.(failedService := window.failedService + 1);
        case SourceFault => window := window.(failedSource := window.failedSource + 1);
      }
      OneMore(log, Recorded(outcome));
      log := log + [Recorded(outcome)];
    }

    method RecordTimeToFirstPage(elapsed: nat)
      requires Valid()
      modifies this
      ensures Valid() && log == old(log) + [Timed(elapsed)]
    {
      OneMore(log, Timed(elapsed));
      log := log + [Timed(elapsed)];
      if |window.ttfp| >= MAX_SAMPLES {
        window := window.(truncated := true);
        return;
      }
      window := window.(ttfp := window.ttfp + [if elapsed < U64_MAX then elapsed else U64_MAX]);
    }

    /** Taking the summary and starting anew is one step. */
    method Take(windowSecs: nat) returns (snapshot: Snapshot)
      requires Valid()
      modifies this
      ensures Valid() && log == old(log) + [Taken(windowSecs)]
      ensures Snapshots(log) == Snapshots(old(log)) + [snapshot]
      ensures window == EMPTY
    {
      var taken := window;
      window := EMPTY;
      OneMore(log, Taken(windowSecs));
      log := log + [Taken(windowSecs)];
      var samples := Sort(taken.ttfp);
      snapshot := Snapshot(windowSecs, taken.succeeded, taken.failedService, taken.failedSource,
                           |samples|, Percentile(samples, 50), Percentile(samples, 95),
                           if samples == [] then 0 else samples[|samples| - 1], taken.truncated);
    }
  }

  // --- conservation --------------------------------------------------------

  function Records(log: seq<Event>, outcome: Outcome): nat {
    if log == [] then 0 else
      Records(log[..|log| - 1], outcome) + (if log[|log| - 1] == Recorded(outcome) then 1 else 0)
  }

  function InWindow(w: Window, outcome: Outcome): nat {
    match outcome case Succeeded => w.succeeded case ServiceFault => w.failedService case SourceFault => w.failedSource
  }

  function InSnapshot(s: Snapshot, outcome: Outcome): nat {
    match outcome case Succeeded => s.jobsSucceeded case ServiceFault => s.jobsFailedService case SourceFault => s.jobsFailedSource
  }

  function Reported(snapshots: seq<Snapshot>, outcome: Outcome): nat {
    if snapshots == [] then 0 else
      Reported(snapshots[..|snapshots| - 1], outcome) + InSnapshot(snapshots[|snapshots| - 1], outcome)
  }

  lemma CountAddsOne(w: Window, recorded: Outcome, outcome: Outcome)
    ensures InWindow(Count(w, recorded), outcome) == InWindow(w, outcome) + (if recorded == outcome then 1 else 0)
  {
  }

  lemma TakenReports(snapshots: seq<Snapshot>, w: Window, windowSecs: nat, outcome: Outcome)
    ensures Reported(snapshots + [Summary(w, windowSecs)], outcome) == Reported(snapshots, outcome) + InWindow(w, outcome)
  {
  }

  /** Whenever snapshots are taken, every recorded outcome is in exactly one of them or in the open window. */
  lemma {:induction false} OutcomesAreConserved(log: seq<Event>, outcome: Outcome)
    ensures Reported(Snapshots(log), outcome) + InWindow(Open(log), outcome) == Records(log, outcome)
  {
    if log != [] {
      var before, last := log[..|log| - 1], log[|log| - 1];
      OutcomesAreConserved(before, outcome);
      match last
      case Recorded(recorded) =>
        CountAddsOne(Open(before), recorded, outcome);
        assert Snapshots(log) == Snapshots(before);
      case Timed(millis) => assert Snapshots(log) == Snapshots(before);
      case Taken(windowSecs) => TakenReports(Snapshots(before), Open(before), windowSecs, outcome);
    }
  }

  /** The timings since the last snapshot, in order. */
  function Timings(log: seq<Event>): seq<nat> {
    if log == [] || log[|log| - 1].Taken? then [] else
      Timings(log[..|log| - 1]) + if log[|log| - 1].Timed? then [Clamped(log[|log| - 1].millis)] else []
  }

  /** The open window keeps the first timings, and is marked truncated exactly when there were more than it keeps. */
  lemma {:induction false} WindowsKeepTheFirstTimings(log: seq<Event>)
    ensures var timings := Timings(log);
            && Open(log).ttfp == (if |timings| <= MAX_SAMPLES then timings else timings[..MAX_SAMPLES])
            && (Open(log).truncated <==> |timings| > MAX_SAMPLES)
  {
    if log != [] {
      WindowsKeepTheFirstTimings(log[..|log| - 1]);
    }
  }

  lemma SnapshotOf(log: seq<Event>, windowSecs: nat)
    ensures var s := Summary(Open(log), windowSecs);
            var kept := if |Timings(log)| <= MAX_SAMPLES then Timings(log) else Timings(log)[..MAX_SAMPLES];
            && s.ttfpSamples == |kept|
            && (s.ttfpTruncated <==> |Timings(log)| > MAX_SAMPLES)
            && (kept == [] ==> s.ttfpP50 == s.ttfpP95 == s.ttfpMax == 0)
            && (kept != [] ==> IsPercentile(kept, 50, s.ttfpP50) && IsPercentile(kept, 95, s.ttfpP95) && IsPercentile(kept, 100, s.ttfpMax))
  {
    WindowsKeepTheFirstTimings(log);
    var kept := Open(log).ttfp;
    SortIs(kept, 0);
    if kept != [] {
      PercentileIsLeast(kept, 50, Percentile(Sort(kept), 50));
      PercentileIsLeast(kept, 95, Percentile(Sort(kept), 95));
      PercentileIsLeast(kept, 100, Percentile(Sort(kept), 100));
      RankIs(|kept|, 100);
    }
  }
}

/** The job table and the statements run against it (crates/jobs/src/queue.rs). */
module JobTable {
  import opened Wrappers

  /** Microseconds: the resolution of the database clock. */
  type Time = int
  type Duration = int

  const SECOND: Duration := 1_000_000

  type JobId = nat

  datatype JobKind =
    | DownloadChapter | PackageChapter | RefreshMetadata | CheckFollow
    | UpdateSources | PruneJobs | PruneSessions | ReconcileLibrary

  datatype JobState = Queued | Running | Succeeded | Failed | Cancelled

  datatype Job = Job(
    kind: JobKind,
    payload: string,
    state: JobState,
    priority: int,
    runAt: Time,
    attempts: nat,
    maxAttempts: int,
    lockedBy: Option<string>,
    lockedAt: Option<Time>,
    lastError: Option<string>,
    key: Option<string>,
    createdAt: Time,
    updatedAt: Time)

  type Table = map<JobId, Job>

  datatype Request = Request(
    kind: JobKind,
    payload: string,
    runAt: Option<Time>,
    key: Option<string>,
    priority: int,
    maxAttempts: int)

  // --- backoff -------------------------------------------------------------

  function Pow2(n: nat): nat {
    if n == 0 then 1 else 2 * Pow2(n - 1)
  }

  function Min(a: int, b: int): int {
    if a < b then a else b
  }

  /** Seconds to wait before the next attempt: a capped power of two plus jitter. */
  function Backoff(attempt: nat): (seconds: nat)
    ensures 1 <= seconds <= 1053
  {
    BackoffBase(attempt);
    Min(Pow2(Min(attempt, 10)), 3600) + (attempt * 7919) % 30
  }

  lemma BackoffBase(attempt: nat)
    ensures 1 <= Pow2(Min(attempt, 10)) <= 1024
    ensures attempt < 10 ==> 2 * Pow2(Min(attempt, 10)) == Pow2(Min(attempt + 1, 10))
  {
    Pow2Bound(Min(attempt, 10), 10);
    assert Pow2(10) == 1024;
  }

  lemma {:induction false} Pow2Bound(m: nat, n: nat)
    requires m <= n
    ensures 1 <= Pow2(m) <= Pow2(n)
    decreases n
  {
    if m < n {
      Pow2Bound(m, n - 1);
    } else if n > 0 {
      Pow2Bound(n - 1, n - 1);
    }
  }

  /** The delay grows with every attempt below the cap, and from there on only where the jitter wraps. */
  lemma BackoffGrowth(attempt: nat)
    ensures Backoff(attempt) < Backoff(attempt + 1) <==> attempt < 10 || attempt % 30 == 0
  {
    var base, after := Pow2(Min(attempt, 10)), Pow2(Min(attempt + 1, 10));
    BackoffBase(attempt);
    BackoffBase(attempt + 1);
    assert 1 <= attempt < 10 ==> base >= 2 by {
      if 1 <= attempt < 10 { Pow2Bound(1, attempt); }
    }
    JitterStep(attempt);
  }

  /** The delay but for its jitter: one second at first, doubled by every attempt up to the tenth. */
  lemma BackoffDoubles(attempt: nat)
    ensures Backoff(0) == 1
    ensures attempt < 10 ==>
              Backoff(attempt + 1) - (attempt + 1) * 7919 % 30 == 2 * (Backoff(attempt) - attempt * 7919 % 30)
    ensures attempt >= 10 ==> Backoff(attempt) == 1024 + attempt * 7919 % 30
  {
    BackoffBase(attempt);
    assert Pow2(10) == 1024;
  }

  /** 7919 is -1 modulo 30, so the jitter counts down and wraps every thirtieth attempt. */
  lemma JitterStep(attempt: nat)
    ensures (attempt * 7919) % 30 == if attempt % 30 == 0 then 0 else 30 - attempt % 30
    ensures ((attempt + 1) * 7919) % 30 == 29 - attempt % 30
  {
  }

  // --- the statements, one function each -----------------------------------

  predicate KeyPresent(t: Table, key: string) {
    exists id | id in t :: t[id].key == Some(key)
  }

  /** `ON CONFLICT (idempotency_key)`: the insert is suppressed while a row carries the key. */
  predicate Suppressed(t: Table, req: Request) {
    req.key.Some? && KeyPresent(t, req.key.value)
  }

  function NewRow(req: Request, now: Time): Job {
    Job(req.kind, req.payload, Queued, req.priority, if req.runAt.Some? then req.runAt.value else now,
        0, req.maxAttempts, None, None, None, req.key, now, now)
  }

  function Enqueued(t: Table, id: JobId, req: Request, now: Time): Table {
    if Suppressed(t, req) then t else t[id := NewRow(req, now)]
  }

  predicate Claimable(t: Table, id: JobId, now: Time) {
    id in t && t[id].state.Queued? && t[id].runAt <= now
  }

  /** `ORDER BY priority, run_at`. */
  predicate NoLater(a: Job, b: Job) {
    a.priority < b.priority || (a.priority == b.priority && a.runAt <= b.runAt)
  }

  /** A row the claim may take: no runnable row comes strictly before it. */
  predicate IsFirst(t: Table, id: JobId, now: Time) {
    && Claimable(t, id, now)
    && forall other | other in t && Claimable(t, other, now) :: NoLater(t[id], t[other])
  }

  lemma {:induction false} FirstExists(t: Table, ids: set<JobId>) returns (first: JobId)
    requires {} < ids <= t.Keys
    ensures first in ids && forall id | id in ids :: NoLater(t[first], t[id])
    decreases |ids|
  {
    first :| first in ids;
    if ids != {first} {
      var best := FirstExists(t, ids - {first});
      first := if NoLater(t[first], t[best]) then first else best;
    }
  }

  function Claimed(t: Table, id: JobId, worker: string, now: Time): Table
    requires id in t
  {
    t[id := t[id].(state := Running, lockedBy := Some(worker), lockedAt := Some(now),
    updatedAt := now, attempts := t[id].attempts + 1)]
  }

  /** `set_terminal`: tests nothing about the state the row is in. */
  function Finished(t: Table, id: JobId, state: JobState, error: Option<string>, now: Time): Table {
    if id !in t then t else
      t[id := t[id].(state := state, lastError := error, lockedBy := None, lockedAt := None, updatedAt := now)]
  }

  /** The second statement of `fail`, when attempts remain. */
  function Requeued(t: Table, id: JobId, error: string, next: Time, now: Time): Table {
    if id !in t then t else
      t[id := t[id].(state := Queued, runAt := next, lastError := Some(error),
      lockedBy := None, lockedAt := None, updatedAt := now)]
  }

  predicate Exhausted(j: Job, retryable: bool) {
    !retryable || j.attempts >= j.maxAttempts
  }

  predicate IsStale(j: Job, cutoff: Time) {
    j.state.Running? && j.lockedAt.Some? && j.lockedAt.value < cutoff
  }

  function StaleIds(t: Table, cutoff: Time): set<JobId> {
    set id | id in t && IsStale(t[id], cutoff)
  }

  function RecoveredRow(j: Job, cutoff: Time, now: Time): Job {
    if IsStale(j, cutoff) then j.(state := Queued, lockedBy := None, lockedAt := None, updatedAt := now) else j
  }

  function Recovered(t: Table, cutoff: Time, now: Time): Table {
    map id | id in t :: RecoveredRow(t[id], cutoff, now)
  }

  predicate Prunable(j: Job, cutoff: Time) {
    (j.state.Succeeded? || j.state.Cancelled?) && j.updatedAt < cutoff
  }

  function Pruned(t: Table, cutoff: Time): Table {
    map id | id in t && !Prunable(t[id], cutoff) :: t[id]
  }

  // --- what every statement keeps ------------------------------------------

  /** A row's lock columns are set exactly while it runs, and no timestamp is ahead of the clock. */
  predicate RowOk(j: Job, now: Time) {
    && (j.state.Running? <==> j.lockedBy.Some?)
    && (j.state.Running? <==> j.lockedAt.Some?)
    && (j.state.Running? ==> j.createdAt <= j.lockedAt.value <= j.updatedAt)
    && j.createdAt <= j.updatedAt <= now
  }

  ghost predicate UniqueKeys(t: Table) {
    forall a, b | a in t && b in t && t[a].key.Some? && t[a].key == t[b].key :: a == b
  }

  ghost predicate TableOk(t: Table, now: Time) {
    && (forall id | id in t :: RowOk(t[id], now))
    && UniqueKeys(t)
  }

  lemma ClaimKeepsTable(t: Table, id: JobId, worker: string, now: Time)
    requires TableOk(t, now) && id in t
    ensures TableOk(Claimed(t, id, worker, now), now)
  {
  }

  lemma FinishKeepsTable(t: Table, id: JobId, state: JobState, error: Option<string>, now: Time)
    requires TableOk(t, now) && state != Running
    ensures TableOk(Finished(t, id, state, error, now), now)
  {
  }

  lemma RequeueKeepsTable(t: Table, id: JobId, error: string, next: Time, now: Time)
    requires TableOk(t, now)
    ensures TableOk(Requeued(t, id, error, next, now), now)
  {
  }

  lemma InsertKeepsTable(t: Table, id: JobId, req: Request, now: Time)
    requires TableOk(t, now) && id !in t
    ensures TableOk(Enqueued(t, id, req, now), now)
  {
  }

  lemma SweepsKeepTable(t: Table, cutoff: Time, now: Time)
    requires TableOk(t, now)
    ensures TableOk(Recovered(t, cutoff, now), now)
    ensures TableOk(Pruned(t, cutoff), now)
  {
  }

  // --- the adapter ---------------------------------------------------------

  class PostgresQueue {
    var rows: Table

    constructor ()
      ensures rows == map[]
    {
      rows := map[];
    }

    /** `id` is the identifier the statement generates; it is used only when a row is inserted. */
    method Enqueue(req: Request, id: JobId, now: Time) returns (r: Result<JobId>)
      modifies this
      ensures r == Err(Storage) <==> !Suppressed(old(rows), req) && id in old(rows)
      ensures r.Err? ==> r == Err(Storage) && rows == old(rows)
      ensures r.Ok? ==> rows == Enqueued(old(rows), id, req, now)
      ensures r.Ok? ==> r.value in rows && (if Suppressed(old(rows), req) then rows[r.value].key == req.key else r.value == id)
      ensures r.Ok? && !(req.key.Some? && exists i :: i in old(rows) && old(rows)[i].key == req.key) ==>
                && id !in old(rows) && rows.Keys == old(rows).Keys + {id} && (forall i | i in old(rows) :: rows[i] == old(rows)[i])
                && rows[id] == Job(req.kind, req.payload, Queued, req.priority, if req.runAt.Some? then req.runAt.value else now, 0,
                                   req.maxAttempts, None, None, None, req.key, now, now)
      ensures req.key.Some? && (exists i :: i in old(rows) && old(rows)[i].key == req.key) ==> r.Ok? && rows == old(rows)
      ensures id !in old(rows) && TableOk(old(rows), now) ==> TableOk(rows, now)
    {
      if Suppressed(rows, req) {
        var existing :| existing in rows && rows[existing].key == req.key;
        return Ok(existing);
      }
      if id in rows {
        return Err(Storage);
      }
      rows := rows[id := NewRow(req, now)];
      return Ok(id);
    }

    method Exists(key: string) returns (present: bool)
      ensures present <==> exists id | id in rows :: rows[id].key == Some(key)
    {
      present := KeyPresent(rows, key);
    }

    /** Takes the first runnable row by priority, then by due time; ties fall either way. */
    method Claim(worker: string, now: Time) returns (r: Option<JobId>)
      modifies this
      ensures r.None? <==> forall id :: !Claimable(old(rows), id, now)
      ensures r.None? ==> rows == old(rows)
      ensures r.Some? ==> IsFirst(old(rows), r.value, now) && rows == Claimed(old(rows), r.value, worker, now)
      ensures r.None? <==> forall id | id in old(rows) && old(rows)[id].state == Queued :: old(rows)[id].runAt > now
      ensures r.Some? ==>
                && r.value in old(rows) && old(rows)[r.value].state == Queued && old(rows)[r.value].runAt <= now
                && (forall id | id in old(rows) && old(rows)[id].state == Queued && old(rows)[id].runAt <= now ::
                      && old(rows)[r.value].priority <= old(rows)[id].priority
                      && (old(rows)[r.value].priority == old(rows)[id].priority ==> old(rows)[r.value].runAt <= old(rows)[id].runAt))
                && rows == old(rows)[r.value := old(rows)[r.value].(
                     state := Running, lockedBy := Some(worker), lockedAt := Some(now), updatedAt := now,
                     attempts := old(rows)[r.value].attempts + 1)]
      ensures TableOk(old(rows), now) ==> TableOk(rows, now)
    {
      var runnable := set id | id in rows && Claimable(rows, id, now);
      if runnable == {} {
        assert forall id | id in rows && Claimable(rows, id, now) :: id in runnable;
        assert forall id | id in rows && rows[id].state == Queued :: Claimable(rows, id, now) || rows[id].runAt > now;
        return None;
      }
      ghost var least := FirstExists(rows, runnable);
      assert IsFirst(rows, least, now);
      var first :| first in rows && IsFirst(rows, first, now);
      rows := Claimed(rows, first, worker, now);
      return Some(first);
    }

    method Complete(id: JobId, now: Time)
      modifies this
      ensures rows == Finished(old(rows), id, Succeeded, None, now)
    {
      SetTerminal(id, Succeeded, None, now);
    }

    method Cancel(id: JobId, now: Time)
      modifies this
      ensures rows == Finished(old(rows), id, Cancelled, None, now)
    {
      SetTerminal(id, Cancelled, None, now);
    }

    method SetTerminal(id: JobId, state: JobState, error: Option<string>, now: Time)
      modifies this
      ensures rows == Finished(old(rows), id, state, error, now)
      ensures id !in old(rows) ==> rows == old(rows)
      ensures id in old(rows) ==> rows == old(rows)[id := old(rows)[id].(
                state := state, lastError := error, lockedBy := None, lockedAt := None, updatedAt := now)]
      ensures state != Running && TableOk(old(rows), now) ==> TableOk(rows, now)
    {
      if id in rows {
        rows := rows[id := rows[id].(state := state, lastError := error, lockedBy := None, lockedAt := None,
        updatedAt := now)];
      }
    }

    /** Returns when the job runs next, or `None` once it is exhausted. */
    method Fail(id: JobId, error: string, retryable: bool, now: Time) returns (r: Result<Option<Time>>)
      modifies this
      ensures r.Err? <==> id !in old(rows)
      ensures r.Err? ==> r == Err(NotFound) && rows == old(rows)
      ensures r.Ok? && Exhausted(old(rows)[id], retryable) ==>
                r.value == None && rows == Finished(old(rows), id, Failed, Some(error), now)
      ensures r.Ok? && !Exhausted(old(rows)[id], retryable) ==>
                && r.value == Some(now + Backoff(old(rows)[id].attempts) * SECOND)
                && rows == Requeued(old(rows), id, error, r.value.value, now)
      ensures r.Ok? && r.value.None? <==>
                id in old(rows) && (!retryable || old(rows)[id].attempts >= old(rows)[id].maxAttempts)
      ensures r.Ok? && r.value.None? ==> rows == old(rows)[id := old(rows)[id].(
                state := Failed, lastError := Some(error), lockedBy := None, lockedAt := None, updatedAt := now)]
      ensures r.Ok? && r.value.Some? ==> r.value.value == now + Backoff(old(rows)[id].attempts) * SECOND
      ensures r.Ok? && r.value.Some? ==> rows == old(rows)[id := old(rows)[id].(
                state := Queued, runAt := r.value.value, lastError := Some(error), lockedBy := None, lockedAt := None,
                updatedAt := now)]
      ensures TableOk(old(rows), now) ==> TableOk(rows, now)
    {
      var current := Get(id);
      if current.Err? {
        return Err(current.error);
      }
      if Exhausted(current.value, retryable) {
        SetTerminal(id, Failed, Some(error), now);
        return Ok(None);
      }
      var delay := Backoff(current.value.attempts) * SECOND;
      rows := Requeued(rows, id, error, now + delay, now);
      return Ok(Some(now + delay));
    }

    method RecoverStale(olderThan: Duration, now: Time) returns (affected: nat)
      modifies this
      ensures rows == Recovered(old(rows), now - olderThan, now)
      ensures affected == |StaleIds(old(rows), now - olderThan)|
      ensures rows.Keys == old(rows).Keys && forall id | id in old(rows) ::
                rows[id] == if old(rows)[id].state == Running && old(rows)[id].lockedAt.Some?
                               && old(rows)[id].lockedAt.value < now - olderThan
                            then old(rows)[id].(state := Queued, lockedBy := None, lockedAt := None, updatedAt := now)
                            else old(rows)[id]
      ensures affected == |set id | id in rows && rows[id] != old(rows)[id]|
      ensures forall id | id in rows && rows[id].state.Running? && TableOk(old(rows), now) ::
                rows[id].lockedAt.value >= now - olderThan
      ensures TableOk(old(rows), now) ==> TableOk(rows, now)
    {
      var cutoff := now - olderThan;
      affected := |StaleIds(rows, cutoff)|;
      rows := Recovered(rows, cutoff, now);
      assert StaleIds(old(rows), now - olderThan) == set id | id in rows && rows[id] != old(rows)[id];
    }

    method Get(id: JobId) returns (r: Result<Job>)
      ensures r == if id in rows then Ok(rows[id]) else Err(NotFound)
    {
      if id !in rows {
        return Err(NotFound);
      }
      return Ok(rows[id]);
    }

    method Prune(olderThan: Duration, now: Time) returns (affected: nat)
      modifies this
      ensures rows == Pruned(old(rows), now - olderThan)
      ensures forall id :: id in rows <==>
                id in old(rows) && !((old(rows)[id].state == Succeeded || old(rows)[id].state == Cancelled)
                                     && old(rows)[id].updatedAt < now - olderThan)
      ensures forall id | id in rows :: rows[id] == old(rows)[id]
      ensures affected == |old(rows)| - |rows|
      ensures TableOk(old(rows), now) ==> TableOk(rows, now)
    {
      var cutoff := now - olderThan;
      var gone := set id | id in rows && Prunable(rows[id], cutoff);
      affected := |gone|;
      ghost var before := rows;
      rows := Pruned(rows, cutoff);
      assert rows.Keys == before.Keys - gone;
    }
  }
}

/** Enqueueing a list of keyed requests one after the other, as the loops of `Scheduler::tick` do. */
module JobBatch {
  import opened Wrappers
  import opened JobTable

  function EnqueuedAll(t: Table, requests: seq<Request>, ids: seq<JobId>, now: Time): Table
    requires |requests| <= |ids|
  {
    var n := |requests|;
    if n == 0 then t else Enqueued(EnqueuedAll(t, requests[..n - 1], ids, now), ids[n - 1], requests[n - 1], now)
  }

  /** Whether the request at `i` inserts a row when its turn comes. */
  predicate InsertsAt(t: Table, requests: seq<Request>, ids: seq<JobId>, now: Time, i: nat)
    requires i < |requests| <= |ids|
  {
    !Suppressed(EnqueuedAll(t, requests[..i], ids, now), requests[i])
  }

  function Bumped(counts: map<JobKind, nat>, kind: JobKind): map<JobKind, nat> {
    counts[kind := (if kind in counts then counts[kind] else 0) + 1]
  }

  /** The counter the loop keeps while it enqueues. */
  function Counted(t: Table, requests: seq<Request>, ids: seq<JobId>, now: Time): map<JobKind, nat>
    requires |requests| <= |ids|
  {
    var n := |requests|;
    if n == 0 then map[] else
      var counts := Counted(t, requests[..n - 1], ids, now);
      if InsertsAt(t, requests, ids, now, n - 1) then Bumped(counts, requests[n - 1].kind) else counts
  }

  ghost predicate Fresh(t: Table, ids: seq<JobId>) {
    (forall i | 0 <= i < |ids| :: ids[i] !in t) && (forall i, j | 0 <= i < j < |ids| :: ids[i] != ids[j])
  }

  /** No row that was there is touched, and only generated ids are added. */
  lemma {:induction false} EnqueuingAdds(t: Table, requests: seq<Request>, ids: seq<JobId>, now: Time)
    requires |requests| <= |ids| && Fresh(t, ids)
    ensures var after := EnqueuedAll(t, requests, ids, now);
            && (forall id | id in t :: id in after && after[id] == t[id])
            && (forall id | id in after :: id in t || id in ids[..|requests|])
            && (forall i | |requests| <= i < |ids| :: ids[i] !in after)
  {
    var n := |requests|;
    if n > 0 {
      EnqueuingAdds(t, requests[..n - 1], ids, now);
      assert ids[..n] == ids[..n - 1] + [ids[n - 1]];
    }
  }

  lemma InsertKeepsKeys(before: Table, id: JobId, req: Request, now: Time, key: string)
    requires id !in before && (KeyPresent(before, key) || req.key == Some(key))
    ensures KeyPresent(Enqueued(before, id, req, now), key)
  {
    var after := Enqueued(before, id, req, now);
    if KeyPresent(before, key) {
      var other :| other in before && before[other].key == Some(key);
      assert after[other] == before[other];
    } else {
      assert after[id].key == Some(key);
    }
  }

  /**
   Every request's key has a row afterwards, no row that was there is touched, and only generated
   ids are added.
   */
  lemma {:induction false} EnqueuingAll(t: Table, requests: seq<Request>, ids: seq<JobId>, now: Time)
    requires |requests| <= |ids| && Fresh(t, ids)
    ensures var after := EnqueuedAll(t, requests, ids, now);
            && (forall i | 0 <= i < |requests| && requests[i].key.Some? :: KeyPresent(after, requests[i].key.value))
            && (forall id | id in t :: id in after && after[id] == t[id])
            && (forall id | id in after :: id in t || id in ids[..|requests|])
            && (forall i | |requests| <= i < |ids| :: ids[i] !in after)
  {
    EnqueuingAdds(t, requests, ids, now);
    var n := |requests|;
    if n > 0 {
      var before := EnqueuedAll(t, requests[..n - 1], ids, now);
      EnqueuingAll(t, requests[..n - 1], ids, now);
      forall i | 0 <= i < n && requests[i].key.Some?
        ensures KeyPresent(Enqueued(before, ids[n - 1], requests[n - 1], now), requests[i].key.value)
      {
        assert i < n - 1 ==> requests[..n - 1][i] == requests[i];
        InsertKeepsKeys(before, ids[n - 1], requests[n - 1], now, requests[i].key.value);
      }
    }
  }

  function NewOfKind(t: Table, after: Table, kind: JobKind): set<JobId> {
    set id | id in after && id !in t && after[id].kind == kind
  }

  lemma NewAfterInsert(t: Table, before: Table, id: JobId, req: Request, now: Time, kind: JobKind)
    requires id !in t && id !in before
    ensures NewOfKind(t, Enqueued(before, id, req, now), kind) ==
            if !Suppressed(before, req) && req.kind == kind then NewOfKind(t, before, kind) + {id} else NewOfKind(t, before, kind)
  {
  }

  lemma CountStep(t: Table, before: Table, id: JobId, req: Request, now: Time, counts: map<JobKind, nat>, kind: JobKind)
    requires id !in t && id !in before && |NewOfKind(t, before, kind)| == CountOf(counts, kind)
    ensures |NewOfKind(t, Enqueued(before, id, req, now), kind)|
         == CountOf(if Suppressed(before, req) then counts else Bumped(counts, req.kind), kind)
  {
    NewAfterInsert(t, before, id, req, now, kind);
    assert id !in NewOfKind(t, before, kind);
  }

  lemma {:induction false} CountedRows(t: Table, requests: seq<Request>, ids: seq<JobId>, now: Time, kind: JobKind)
    requires |requests| <= |ids| && Fresh(t, ids)
    ensures |NewOfKind(t, EnqueuedAll(t, requests, ids, now), kind)| == CountOf(Counted(t, requests, ids, now), kind)
  {
    var n := |requests|;
    if n == 0 {
      assert NewOfKind(t, t, kind) == {};
    } else {
      CountedRows(t, requests[..n - 1], ids, now, kind);
      FreshNeverCollides(t, requests, ids, now, n - 1);
      CountStep(t, EnqueuedAll(t, requests[..n - 1], ids, now), ids[n - 1], requests[n - 1], now,
                Counted(t, requests[..n - 1], ids, now), kind);
    }
  }

  /** Enqueues a keyed request and says whether that inserted a row, which `enqueue` alone cannot. */
  method EnqueueOnce(queue: PostgresQueue, req: Request, id: JobId, now: Time, refused: bool) returns (r: Result<bool>)
    requires req.key.Some?
    modifies queue
    ensures r.Err? ==> queue.rows == old(queue.rows) && (refused || id in old(queue.rows))
    ensures refused ==> r.Err?
    ensures r.Ok? ==> queue.rows == Enqueued(old(queue.rows), id, req, now) && r.value == !Suppressed(old(queue.rows), req)
  {
    if refused {
      return Err(Storage);
    }
    var before := queue.Exists(req.key.value);
    var job := queue.Enqueue(req, id, now);
    if job.Err? {
      return Err(job.error);
    }
    return Ok(!before);
  }

  /** The first request whose statements the database refuses ends the loop and leaves those before it in place. */
  method EnqueueEach(queue: PostgresQueue, requests: seq<Request>, ids: seq<JobId>, now: Time, refused: nat -> bool)
    returns (r: Result<map<JobKind, nat>>)
    requires |requests| <= |ids| && forall i | 0 <= i < |requests| :: requests[i].key.Some?
    modifies queue
    ensures r.Ok? ==>
              && queue.rows == EnqueuedAll(old(queue.rows), requests, ids, now)
              && r.value == Counted(old(queue.rows), requests, ids, now)
    ensures r.Ok? ==> forall i: nat | i < |requests| :: !refused(i)
    ensures r.Err? ==> StartsWith(old(queue.rows), requests, ids, now, queue.rows)
    ensures (forall i: nat :: !refused(i)) && AreFree(old(queue.rows), requests, ids, now) ==> r.Ok?
  {
    ghost var t := queue.rows;
    var counts: map<JobKind, nat> := map[];
    var i: nat := 0;
    while i < |requests|
      invariant i <= |requests|
      invariant queue.rows == EnqueuedAll(t, requests[..i], ids, now)
      invariant counts == Counted(t, requests[..i], ids, now)
      invariant forall k: nat | k < i :: !refused(k)
    {
      assert requests[..i + 1][..i] == requests[..i];
      var inserted := EnqueueOnce(queue, requests[i], ids[i], now, refused(i));
      if inserted.Err? {
        assert BrokeOffAt(t, requests, ids, now, i, queue.rows);
        return Err(inserted.error);
      }
      if inserted.value {
        counts := Bumped(counts, requests[i].kind);
      }
      i := i + 1;
    }
    assert requests[..i] == requests;
    return Ok(counts);
  }

  /** No insert meets a row that has its id. */
  ghost predicate AreFree(t: Table, requests: seq<Request>, ids: seq<JobId>, now: Time)
    requires |requests| <= |ids|
  {
    forall i: nat | i < |requests| :: ids[i] !in EnqueuedAll(t, requests[..i], ids, now)
  }

  /** The table after some of the requests, from the first on. */
  ghost predicate StartsWith(t: Table, requests: seq<Request>, ids: seq<JobId>, now: Time, after: Table)
    requires |requests| <= |ids|
  {
    exists k: nat | k <= |requests| :: BrokeOffAt(t, requests, ids, now, k, after)
  }

  /** The table after the requests before the `k`-th. */
  predicate BrokeOffAt(t: Table, requests: seq<Request>, ids: seq<JobId>, now: Time, k: nat, after: Table)
    requires k <= |requests| <= |ids|
  {
    after == EnqueuedAll(t, requests[..k], ids, now)
  }

  datatype TickReport = TickReport(enqueued: map<JobKind, nat>, follows: nat, recovered: nat)

  /** What a tick leaves behind: the swept table, then the schedule's rows, then the follows'. */
  ghost predicate Ticked(t: Table, periodic: seq<Request>, follows: seq<Request>, ids: seq<JobId>, cutoff: Time, now: Time,
                         after: Table, report: TickReport)
    requires |ids| == |periodic| + |follows|
  {
    var swept := Recovered(t, cutoff, now);
    var mine, theirs := ids[..|periodic|], ids[|periodic|..];
    var scheduled := EnqueuedAll(swept, periodic, mine, now);
    && after == EnqueuedAll(scheduled, follows, theirs, now)
    && report.recovered == |StaleIds(t, cutoff)|
    && report.enqueued == Counted(swept, periodic, mine, now)
    && report.follows == CountOf(Counted(scheduled, follows, theirs, now), CheckFollow)
  }

  function CountOf(counts: map<JobKind, nat>, kind: JobKind): nat {
    if kind in counts then counts[kind] else 0
  }

  lemma FreshInBoth(t: Table, periodic: seq<Request>, ids: seq<JobId>, now: Time)
    requires Fresh(t, ids) && |periodic| <= |ids|
    ensures var mine, theirs := ids[..|periodic|], ids[|periodic|..];
            Fresh(t, mine) && Fresh(EnqueuedAll(t, periodic, mine, now), theirs)
  {
    EnqueuingAll(t, periodic, ids[..|periodic|], now);
  }

  lemma FreshNeverCollides(t: Table, requests: seq<Request>, ids: seq<JobId>, now: Time, i: nat)
    requires Fresh(t, ids) && i < |requests| <= |ids|
    ensures ids[i] !in EnqueuedAll(t, requests[..i], ids, now)
  {
    EnqueuingAll(t, requests[..i], ids, now);
  }

  /** What the database refuses during a tick: the sweep, the list of due follows, or the statements of some
   request, of the schedule or of a follow. */
  datatype Outage = Outage(sweep: bool, requests: nat -> bool, due: bool, checks: nat -> bool)

  ghost predicate NoOutage(outage: Outage) {
    !outage.sweep && !outage.due && forall i: nat :: !outage.requests(i) && !outage.checks(i)
  }

  lemma {:induction false} EnqueuingConcat(t: Table, first: seq<Request>, second: seq<Request>, ids: seq<JobId>, now: Time)
    requires |first| + |second| <= |ids|
    ensures EnqueuedAll(t, first + second, ids, now) == EnqueuedAll(EnqueuedAll(t, first, ids, now), second, ids[|first|..], now)
  {
    if second == [] {
      assert first + second == first;
    } else {
      var n := |second| - 1;
      EnqueuingConcat(t, first, second[..n], ids, now);
      assert (first + second)[..|first| + n] == first + second[..n];
    }
  }

  lemma {:induction false} OnlyFirstIdsMatter(t: Table, requests: seq<Request>, ids: seq<JobId>, now: Time)
    requires |requests| <= |ids|
    ensures EnqueuedAll(t, requests, ids, now) == EnqueuedAll(t, requests, ids[..|requests|], now)
  {
    if requests != [] {
      var n := |requests| - 1;
      OnlyFirstIdsMatter(t, requests[..n], ids, now);
      OnlyFirstIdsMatter(t, requests[..n], ids[..n + 1], now);
      assert ids[..n + 1][..n] == ids[..n];
    }
  }

  /** A tick that failed: nothing at all was done, or the sweep and the requests up to some point. */
  ghost predicate BrokeOff(t: Table, requests: seq<Request>, ids: seq<JobId>, cutoff: Time, now: Time, after: Table)
    requires |requests| <= |ids|
  {
    after == t || StartsWith(Recovered(t, cutoff, now), requests, ids, now, after)
  }

  lemma StartsWithFirst(t: Table, first: seq<Request>, second: seq<Request>, mine: seq<JobId>, theirs: seq<JobId>,
                        now: Time, after: Table)
    requires |first| == |mine| && |second| == |theirs| && StartsWith(t, first, mine, now, after)
    ensures StartsWith(t, first + second, mine + theirs, now, after)
  {
    var k: nat :| k <= |first| && BrokeOffAt(t, first, mine, now, k, after);
    assert (first + second)[..k] == first[..k] && (mine + theirs)[..k] == mine[..k];
    OnlyFirstIdsMatter(t, first[..k], mine + theirs, now);
    OnlyFirstIdsMatter(t, first[..k], mine, now);
    assert BrokeOffAt(t, first + second, mine + theirs, now, k, after);
  }

  lemma StartsWithSecond(t: Table, first: seq<Request>, second: seq<Request>, mine: seq<JobId>, theirs: seq<JobId>,
                         now: Time, after: Table)
    requires |first| == |mine| && |second| == |theirs|
    requires StartsWith(EnqueuedAll(t, first, mine, now), second, theirs, now, after)
    ensures StartsWith(t, first + second, mine + theirs, now, after)
  {
    var k: nat :| k <= |second| && BrokeOffAt(EnqueuedAll(t, first, mine, now), second, theirs, now, k, after);
    assert (first + second)[..|first| + k] == first + second[..k];
    assert (mine + theirs)[|first|..] == theirs && (mine + theirs)[..|first|] == mine;
    EnqueuingConcat(t, first, second[..k], mine + theirs, now);
    OnlyFirstIdsMatter(t, first, mine + theirs, now);
    assert BrokeOffAt(t, first + second, mine + theirs, now, |first| + k, after);
  }

  lemma WholeIsAStart(t: Table, requests: seq<Request>, ids: seq<JobId>, now: Time)
    requires |requests| <= |ids|
    ensures StartsWith(t, requests, ids, now, EnqueuedAll(t, requests, ids, now))
  {
    assert requests[..|requests|] == requests;
    assert BrokeOffAt(t, requests, ids, now, |requests|, EnqueuedAll(t, requests, ids, now));
  }

  /** Fresh ids never collide, so only a refused statement can break a tick off. */
  lemma FreshIdsAreFree(swept: Table, periodic: seq<Request>, follows: seq<Request>, mine: seq<JobId>, theirs: seq<JobId>, now: Time)
    requires |mine| == |periodic| && |theirs| == |follows| && Fresh(swept, mine + theirs)
    ensures AreFree(swept, periodic, mine, now) && AreFree(EnqueuedAll(swept, periodic, mine, now), follows, theirs, now)
  {
    assert (mine + theirs)[..|mine|] == mine && (mine + theirs)[|mine|..] == theirs;
    FreshInBoth(swept, periodic, mine + theirs, now);
    forall i: nat | i < |periodic| ensures mine[i] !in EnqueuedAll(swept, periodic[..i], mine, now) {
      FreshNeverCollides(swept, periodic, mine, now, i);
    }
    var scheduled := EnqueuedAll(swept, periodic, mine, now);
    forall i: nat | i < |follows| ensures theirs[i] !in EnqueuedAll(scheduled, follows[..i], theirs, now) {
      FreshNeverCollides(scheduled, follows, theirs, now, i);
    }
  }

  /** The schedule's requests, then the follows', once those are known. */
  method EnqueueBoth(queue: PostgresQueue, periodic: seq<Request>, follows: seq<Request>, mine: seq<JobId>, theirs: seq<JobId>,
                     now: Time, outage: Outage)
    returns (r: Result<(map<JobKind, nat>, map<JobKind, nat>)>)
    requires |mine| == |periodic| && |theirs| == |follows|
    requires forall i | 0 <= i < |periodic| :: periodic[i].key.Some?
    requires forall i | 0 <= i < |follows| :: follows[i].key.Some?
    modifies queue
    ensures Fresh(old(queue.rows), mine + theirs) && NoOutage(outage) ==> r.Ok?
    ensures r.Ok? ==> var scheduled := EnqueuedAll(old(queue.rows), periodic, mine, now);
                      && queue.rows == EnqueuedAll(scheduled, follows, theirs, now)
                      && r.value == (Counted(old(queue.rows), periodic, mine, now), Counted(scheduled, follows, theirs, now))
    ensures r.Err? ==> StartsWith(old(queue.rows), periodic + follows, mine + theirs, now, queue.rows)
  {
    ghost var t := queue.rows;
    if Fresh(t, mine + theirs) {
      FreshIdsAreFree(t, periodic, follows, mine, theirs, now);
    }
    var enqueued := EnqueueEach(queue, periodic, mine, now, outage.requests);
    if enqueued.Err? {
      StartsWithFirst(t, periodic, follows, mine, theirs, now, queue.rows);
      return Err(enqueued.error);
    }
    if outage.due {
      WholeIsAStart(t, periodic, mine, now);
      StartsWithFirst(t, periodic, follows, mine, theirs, now, queue.rows);
      return Err(Storage);
    }
    var checks := EnqueueEach(queue, follows, theirs, now, outage.checks);
    if checks.Err? {
      StartsWithSecond(t, periodic, follows, mine, theirs, now, queue.rows);
      return Err(checks.error);
    }
    return Ok((enqueued.value, checks.value));
  }

  /** Sweeps stale locks, then enqueues the schedule's requests, then the follows'. */
  method SweepAndEnqueue(queue: PostgresQueue, periodic: seq<Request>, follows: seq<Request>, ids: seq<JobId>,
                         staleAfter: Duration, now: Time, outage: Outage)
    returns (r: Result<TickReport>)
    requires |ids| == |periodic| + |follows|
    requires forall i | 0 <= i < |periodic| :: periodic[i].key.Some?
    requires forall i | 0 <= i < |follows| :: follows[i].key.Some?
    modifies queue
    ensures Fresh(old(queue.rows), ids) && NoOutage(outage) ==> r.Ok?
    ensures r.Ok? ==> Ticked(old(queue.rows), periodic, follows, ids, now - staleAfter, now, queue.rows, r.value)
    ensures r.Err? ==> BrokeOff(old(queue.rows), periodic + follows, ids, now - staleAfter, now, queue.rows)
  {
    if outage.sweep {
      return Err(Storage);
    }
    var recovered := queue.RecoverStale(staleAfter, now);
    var mine, theirs := ids[..|periodic|], ids[|periodic|..];
    assert mine + theirs == ids;
    var counts := EnqueueBoth(queue, periodic, follows, mine, theirs, now, outage);
    if counts.Err? {
      return Err(counts.error);
    }
    return Ok(TickReport(counts.value.0, CountOf(counts.value.1, CheckFollow), recovered));
  }

  /**
   After a tick every request's key has a row, rows that were there changed only by the sweep,
   and the report says per kind how many rows the schedule added.
   */
  lemma TickCoversItsRequests(t: Table, periodic: seq<Request>, follows: seq<Request>, ids: seq<JobId>, cutoff: Time,
                              now: Time, after: Table, report: TickReport)
    requires |ids| == |periodic| + |follows| && Fresh(t, ids)
    requires Ticked(t, periodic, follows, ids, cutoff, now, after, report)
    ensures forall req | req in periodic + follows && req.key.Some? :: KeyPresent(after, req.key.value)
    ensures forall id | id in t :: id in after && after[id] == RecoveredRow(t[id], cutoff, now)
  {
    var swept, mine, theirs := Recovered(t, cutoff, now), ids[..|periodic|], ids[|periodic|..];
    var scheduled := EnqueuedAll(swept, periodic, mine, now);
    FreshInBoth(swept, periodic, ids, now);
    EnqueuingAll(swept, periodic, mine, now);
    EnqueuingAll(scheduled, follows, theirs, now);
    forall req | req in periodic + follows && req.key.Some? ensures KeyPresent(after, req.key.value) {
      if req in periodic {
        var i :| 0 <= i < |periodic| && periodic[i] == req;
        var id :| id in scheduled && scheduled[id].key == req.key;
        assert after[id] == scheduled[id];
      }
    }
  }

  /** The report says, per kind, how many rows the schedule added, and how many checks the follows did. */
  lemma TickCountsItsRows(t: Table, periodic: seq<Request>, follows: seq<Request>, ids: seq<JobId>, cutoff: Time,
                          now: Time, after: Table, report: TickReport)
    requires |ids| == |periodic| + |follows| && Fresh(t, ids)
    requires Ticked(t, periodic, follows, ids, cutoff, now, after, report)
    ensures var scheduled := EnqueuedAll(Recovered(t, cutoff, now), periodic, ids[..|periodic|], now);
            && (forall kind :: CountOf(report.enqueued, kind) == |NewOfKind(t, scheduled, kind)|)
            && report.follows == |NewOfKind(scheduled, after, CheckFollow)|
  {
    var swept, mine, theirs := Recovered(t, cutoff, now), ids[..|periodic|], ids[|periodic|..];
    FreshInBoth(swept, periodic, ids, now);
    forall kind ensures CountOf(report.enqueued, kind) == |NewOfKind(t, EnqueuedAll(swept, periodic, mine, now), kind)| {
      CountedRows(swept, periodic, mine, now, kind);
      assert NewOfKind(t, EnqueuedAll(swept, periodic, mine, now), kind)
          == NewOfKind(swept, EnqueuedAll(swept, periodic, mine, now), kind);
    }
    CountedRows(EnqueuedAll(swept, periodic, mine, now), follows, theirs, now, CheckFollow);
  }
}

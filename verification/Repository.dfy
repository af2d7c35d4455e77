/**
 The tables listed newest first: `list_manga` and `list_follows` over rows that upserts,
 deletes and inserts keep changing (crates/persistence/src/repository.rs).
 */
module Repository {
  import opened Wrappers
  import opened Keyset
  import opened KeysetWalk

  type Time = int

  /** A row under its natural key: (source, external key) for a series, the series for a follow. */
  datatype Record<K, D> = Record(id: nat, natural: K, createdAt: Time, updatedAt: Time, data: D)

  datatype Cursor = Id(id: nat) | Malformed

  function ParseCursor(cursor: Option<Cursor>): Result<Option<nat>> {
    match cursor
    case None => Ok(None)
    case Some(Id(id)) => Ok(Some(id))
    case Some(Malformed) => Err(Invalid)
  }

  function Listing<K, D>(rows: seq<Record<K, D>>): (entries: seq<Entry<Record<K, D>>>)
    ensures |entries| == |rows|
    ensures forall i | 0 <= i < |rows| :: entries[i] == Entry(rows[i].id, Number(rows[i].createdAt), rows[i])
  {
    seq(|rows|, i requires 0 <= i < |rows| => Entry(rows[i].id, Number(rows[i].createdAt), rows[i]))
  }

  // --- changes -------------------------------------------------------------

  datatype Change<K, D> = Upsert(natural: K, data: D, newId: nat, now: Time) | Delete(id: nat)

  predicate Conflicts<K(==), D>(rows: seq<Record<K, D>>, natural: K) {
    exists i | 0 <= i < |rows| :: rows[i].natural == natural
  }

  /** `ON CONFLICT ... DO UPDATE`: neither the id nor `created_at` is among the columns it sets. */
  function Updated<K(==), D>(rows: seq<Record<K, D>>, natural: K, data: D, now: Time): (r: seq<Record<K, D>>)
    ensures |r| == |rows|
    ensures forall i | 0 <= i < |rows| ::
              r[i] == if rows[i].natural == natural then rows[i].(data := data, updatedAt := now) else rows[i]
  {
    seq(|rows|, i requires 0 <= i < |rows| =>
      if rows[i].natural == natural then rows[i].(data := data, updatedAt := now) else rows[i])
  }

  function Without<K, D>(rows: seq<Record<K, D>>, id: nat): (r: seq<Record<K, D>>)
    ensures forall row | row in r :: row in rows && row.id != id
    ensures forall row | row in rows && row.id != id :: row in r
  {
    if rows == [] then [] else
      assert rows == [rows[0]] + rows[1..];
      (if rows[0].id == id then [] else [rows[0]]) + Without(rows[1..], id)
  }

  function Apply<K(==), D>(rows: seq<Record<K, D>>, change: Change<K, D>): seq<Record<K, D>> {
    match change
    case Upsert(natural, data, newId, now) =>
      if Conflicts(rows, natural) then Updated(rows, natural, data, now)
      else rows + [Record(newId, natural, now, now, data)]
    case Delete(id) => Without(rows, id)
  }

  /** The past of a table: identifiers are generated, so no insert reuses one. */
  datatype History<K, D> = Created | Then(before: History<K, D>, change: Change<K, D>)

  function Rows<K(==), D>(h: History<K, D>): seq<Record<K, D>> {
    match h
    case Created => []
    case Then(before, change) => Apply(Rows(before), change)
  }

  predicate Inserts<K(==), D>(rows: seq<Record<K, D>>, change: Change<K, D>) {
    change.Upsert? && !Conflicts(rows, change.natural)
  }

  /** When each id was inserted. */
  function Born<K(==), D>(h: History<K, D>): map<nat, Time> {
    match h
    case Created => map[]
    case Then(before, change) =>
      if Inserts(Rows(before), change) then Born(before)[change.newId := change.now] else Born(before)
  }

  predicate Valid<K(==), D>(h: History<K, D>) {
    h.Then? ==> Valid(h.before) && (Inserts(Rows(h.before), h.change) ==> h.change.newId !in Born(h.before))
  }

  predicate Leads<K(==), D(==)>(earlier: History<K, D>, later: History<K, D>) {
    earlier == later || (later.Then? && Leads(earlier, later.before))
  }

  predicate DistinctRows<K, D>(rows: seq<Record<K, D>>) {
    forall i, j | 0 <= i < j < |rows| :: rows[i].id != rows[j].id
  }

  lemma {:induction false} WithoutKeepsDistinct<K, D>(rows: seq<Record<K, D>>, id: nat)
    requires DistinctRows(rows)
    ensures DistinctRows(Without(rows, id))
  {
    if rows != [] {
      WithoutKeepsDistinct(rows[1..], id);
      var rest := Without(rows[1..], id);
      forall row | row in rest ensures row.id != rows[0].id {
        var i :| 0 <= i < |rows| - 1 && rows[1..][i] == row;
        assert rows[i + 1] == row;
      }
    }
  }

  /** Every row's `created_at` is the instant its id was inserted at, whatever updates came after. */
  lemma {:induction false} CreatedAtIsNeverOverwritten<K, D>(h: History<K, D>)
    requires Valid(h)
    ensures DistinctRows(Rows(h))
    ensures forall row | row in Rows(h) :: row.id in Born(h) && row.createdAt == Born(h)[row.id]
  {
    match h
    case Created =>
    case Then(before, change) =>
      CreatedAtIsNeverOverwritten(before);
      var rows := Rows(before);
      match change {
        case Upsert(natural, data, newId, now) =>
          if Conflicts(rows, natural) {
            forall row | row in Rows(h) ensures row.id in Born(h) && row.createdAt == Born(h)[row.id] {
              var i :| 0 <= i < |rows| && Updated(rows, natural, data, now)[i] == row;
              assert rows[i] in rows;
            }
          }
        case Delete(id) => WithoutKeepsDistinct(rows, id);
      }
  }

  lemma {:induction false} BirthsAreKept<K, D>(earlier: History<K, D>, later: History<K, D>, id: nat)
    requires Valid(later) && Leads(earlier, later) && id in Born(earlier)
    ensures Valid(earlier) && id in Born(later) && Born(later)[id] == Born(earlier)[id]
  {
    if earlier != later {
      BirthsAreKept(earlier, later.before, id);
    }
  }

  lemma {:induction false} PrefixesAreValid<K, D>(earlier: History<K, D>, later: History<K, D>)
    requires Valid(later) && Leads(earlier, later)
    ensures Valid(earlier)
  {
    if earlier != later {
      PrefixesAreValid(earlier, later.before);
    }
  }

  // --- walks ---------------------------------------------------------------

  function Observed<K(==), D>(seen: seq<History<K, D>>): (tables: seq<seq<Entry<Record<K, D>>>>)
    ensures |tables| == |seen| && forall i | 0 <= i < |seen| :: tables[i] == Listing(Rows(seen[i]))
  {
    seq(|seen|, i requires 0 <= i < |seen| => Listing(Rows(seen[i])))
  }

  function BirthKey<K(==), D>(h: History<K, D>): nat -> SortKey {
    (id: nat) => Number(if id in Born(h) then Born(h)[id] else 0)
  }

  lemma ListingIsKeyed<K, D>(seen: History<K, D>, all: History<K, D>)
    requires Valid(all) && Leads(seen, all)
    ensures Keyed(Listing(Rows(seen)), BirthKey(all))
  {
    PrefixesAreValid(seen, all);
    CreatedAtIsNeverOverwritten(seen);
    var rows, entries := Rows(seen), Listing(Rows(seen));
    forall x | x in entries ensures x.key == BirthKey(all)(x.id) {
      var i :| 0 <= i < |rows| && entries[i] == x;
      assert rows[i] in rows;
      BirthsAreKept(seen, all, rows[i].id);
    }
  }

  /**
   Newest-first walks survive any changes made between their fetches: each fetch may see the
   table at any point of its history. No row comes back twice. A row there throughout is missed
   exactly when the last cursor's row was deleted before the walk resumed from it and the row lies
   beyond that cursor.
   */
  lemma NewestFirstWalkIsExact<K, D>(all: History<K, D>, seen: seq<History<K, D>>)
    requires Valid(all) && forall h | h in seen :: Leads(h, all)
    ensures var pages := Walk(Desc, Observed(seen), None);
            var ids := Returned(pages);
            && (forall i, j | 0 <= i < j < |ids| :: ids[i] != ids[j])
            && (CutShort(Observed(seen), pages) <==> !CursorsSurvive(Observed(seen), pages))
            && (Finished(pages) ==>
                  forall id | forall h | h in seen :: Holds(Listing(Rows(h)), id) ::
                    id in ids <==>
                    !(CutShort(Observed(seen), pages) && IdBefore(Desc, BirthKey(all), LastCursor(pages).value, id)))
  {
    var tables := Observed(seen);
    forall table | table in tables ensures Keyed(table, BirthKey(all)) {
      var i :| 0 <= i < |seen| && tables[i] == table;
      ListingIsKeyed(seen[i], all);
    }
    WalkIsExact(Desc, tables, BirthKey(all));
    assert forall h | h in seen :: Listing(Rows(h)) in tables by {
      forall h | h in seen ensures Listing(Rows(h)) in tables {
        var i :| 0 <= i < |seen| && seen[i] == h;
        assert tables[i] == Listing(Rows(h));
      }
    }
    assert forall table | table in tables :: exists h | h in seen :: Listing(Rows(h)) == table by {
      forall table | table in tables ensures exists h | h in seen :: Listing(Rows(h)) == table {
        var i :| 0 <= i < |seen| && tables[i] == table;
        assert seen[i] in seen;
      }
    }
  }

  // --- the adapter ---------------------------------------------------------

  class Repositories<K(==), D> {
    var rows: seq<Record<K, D>>

    constructor ()
      ensures rows == []
    {
      rows := [];
    }

    /** Inserts or updates under the natural key. `newId` is used only when this is an insert. */
    method Upsert(natural: K, data: D, newId: nat, now: Time) returns (id: nat)
      modifies this
      ensures rows == Apply(old(rows), Change.Upsert(natural, data, newId, now))
      ensures exists i | 0 <= i < |rows| :: rows[i].id == id && rows[i].natural == natural && rows[i].data == data
      ensures (forall i | 0 <= i < |old(rows)| :: old(rows)[i].natural != natural) ==>
                id == newId && rows == old(rows) + [Record(newId, natural, now, now, data)]
      ensures (exists i :: 0 <= i < |old(rows)| && old(rows)[i].natural == natural) ==>
                && |rows| == |old(rows)| && (exists i :: 0 <= i < |rows| && old(rows)[i].natural == natural && old(rows)[i].id == id)
                && forall i | 0 <= i < |rows| ::
                     rows[i] == if old(rows)[i].natural == natural then old(rows)[i].(data := data, updatedAt := now) else old(rows)[i]
    {
      if Conflicts(rows, natural) {
        var i :| 0 <= i < |rows| && rows[i].natural == natural;
        rows := Updated(rows, natural, data, now);
        assert rows[i].natural == natural && rows[i].data == data;
        return rows[i].id;
      }
      rows := rows + [Record(newId, natural, now, now, data)];
      assert rows[|rows| - 1].id == newId;
      return newId;
    }

    method Delete(id: nat) returns (r: Result<()>)
      modifies this
      ensures rows == Apply(old(rows), Change.Delete(id))
      ensures r == if exists i | 0 <= i < |old(rows)| :: old(rows)[i].id == id then Ok(()) else Err(NotFound)
    {
      var affected := exists i | 0 <= i < |rows| :: rows[i].id == id;
      rows := Without(rows, id);
      return if affected then Ok(()) else Err(NotFound);
    }

    method List(cursor: Option<Cursor>) returns (r: Result<Page<Record<K, D>>>)
      ensures r.Err? <==> cursor == Some(Malformed)
      ensures r.Err? ==> r == Err(Invalid)
      ensures r.Ok? ==> r.value == PageAt(Desc, Listing(rows), ParseCursor(cursor).value)
    {
      var after := ParseCursor(cursor);
      if after.Err? {
        return Err(after.error);
      }
      var page := PageOf(Fetched(Desc, Listing(rows), after.value));
      return Ok(page);
    }
  }
}

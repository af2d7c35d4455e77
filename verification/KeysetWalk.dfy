/** Walking a listing by following each page's cursor, over a fixed table and over one that changes underneath. */
module KeysetWalk {
  import opened Wrappers
  import opened Keyset

  // --- one page ------------------------------------------------------------

  /** A page lists the first rows past the cursor; its own cursor is its last row, present while rows remain. */
  lemma PageFacts<V>(dir: SortDir, table: seq<Entry<V>>, after: Option<nat>)
    requires DistinctIds(table)
    ensures var page, past := PageAt(dir, table, after), Past(dir, table, after);
            && Listed(dir, page.items)
            && (forall x | x in page.items :: x in past)
            && (page.next.Some? <==> |past| > PAGE_SIZE)
            && (page.next.Some? ==> |page.items| == PAGE_SIZE && page.next.value == page.items[PAGE_SIZE - 1].id)
            && (forall x | x in past ::
                  x in page.items || (page.next.Some? && Before(dir, page.items[PAGE_SIZE - 1], x)))
    ensures forall x | x in Past(dir, table, after) :: x in table
    ensures |Past(dir, table, after)| <= |table|
  {
    var past := Past(dir, table, after);
    PastFacts(dir, table, after);
    var sorted := Sort(dir, past);
    SortIsListed(dir, past);
    var fetched := Take(sorted, PAGE_SIZE + 1);
    assert Take(fetched, PAGE_SIZE) == Take(sorted, PAGE_SIZE);
    forall x | x in past && x !in Take(sorted, PAGE_SIZE)
      ensures |past| > PAGE_SIZE && Before(dir, sorted[PAGE_SIZE - 1], x)
    {
      var i :| 0 <= i < |sorted| && sorted[i] == x;
      assert forall k | 0 <= k < |Take(sorted, PAGE_SIZE)| :: Take(sorted, PAGE_SIZE)[k] == sorted[k];
    }
  }

  lemma PastFacts<V>(dir: SortDir, table: seq<Entry<V>>, after: Option<nat>)
    requires DistinctIds(table)
    ensures DistinctIds(Past(dir, table, after))
    ensures forall x | x in Past(dir, table, after) :: x in table
    ensures |Past(dir, table, after)| <= |table|
    ensures after.Some? ==> match Find(table, after.value)
                            case None => Past(dir, table, after) == []
                            case Some(cursor) =>
                              && (forall x | x in Past(dir, table, after) :: Before(dir, cursor, x))
                              && (forall x | x in table && Before(dir, cursor, x) :: x in Past(dir, table, after))
  {
    if after.Some? && Find(table, after.value).Some? {
      var cursor := Find(table, after.value).value;
      KeepSelects((x: Entry<V>) => Before(dir, cursor, x), table);
      KeepShrinks((x: Entry<V>) => Before(dir, cursor, x), table);
    }
  }

  lemma {:induction false} KeepShrinks<V>(f: Entry<V> -> bool, s: seq<Entry<V>>)
    ensures |Keep(f, s)| <= |s|
  {
    if s != [] {
      KeepShrinks(f, s[1..]);
    }
  }

  // --- a fixed table -------------------------------------------------------

  lemma {:induction false} FindIs<V>(table: seq<Entry<V>>, x: Entry<V>)
    requires DistinctIds(table) && x in table
    ensures Find(table, x.id) == Some(x)
  {
  }

  /** The rows past a row are the rest of the listing. */
  lemma PastIsTheRest<V>(dir: SortDir, table: seq<Entry<V>>, i: nat)
    requires DistinctIds(table) && i < |table|
    ensures |Sort(dir, table)| == |table|
    ensures Sort(dir, Past(dir, table, Some(Sort(dir, table)[i].id))) == Sort(dir, table)[i + 1..]
  {
    var all := Sort(dir, table);
    SortIsListed(dir, table);
    var cursor := all[i];
    FindIs(table, cursor);
    var past := Past(dir, table, Some(cursor.id));
    PastFacts(dir, table, Some(cursor.id));
    SortIsListed(dir, past);
    var rest := all[i + 1..];
    forall x | x in past ensures x in rest {
      var j :| 0 <= j < |all| && all[j] == x;
      ListingOrder(dir, cursor, x, x);
      assert j > i;
      assert x == rest[j - i - 1];
    }
    forall x | x in rest ensures x in past {
      var j :| 0 <= j < |rest| && rest[j] == x;
      assert x == all[i + 1 + j];
    }
    ListingIsUnique(dir, Sort(dir, past), rest);
  }

  /** The cursor a walk over a fixed table holds after its first `n` rows. */
  function CursorAfter<V>(sorted: seq<Entry<V>>, n: nat): Option<nat>
    requires n <= |sorted|
  {
    if n == 0 then None else Some(sorted[n - 1].id)
  }

  function PageFrom<V>(sorted: seq<Entry<V>>, n: nat): Page<V>
    requires n <= |sorted|
  {
    PageSpec(Take(sorted[n..], PAGE_SIZE + 1))
  }

  /** The page of a listing's rows: the first of them, and a cursor when there are more. */
  lemma PageFromIs<V>(sorted: seq<Entry<V>>, n: nat)
    requires n <= |sorted|
    ensures PageFrom(sorted, n) ==
            if |sorted| - n > PAGE_SIZE then Page(sorted[n..n + PAGE_SIZE], CursorAfter(sorted, n + PAGE_SIZE))
            else Page(sorted[n..], None)
  {
  }

  lemma PageAtIs<V>(dir: SortDir, table: seq<Entry<V>>, n: nat)
    requires DistinctIds(table) && n <= |table|
    ensures |Sort(dir, table)| == |table|
    ensures PageAt(dir, table, CursorAfter(Sort(dir, table), n)) == PageFrom(Sort(dir, table), n)
  {
    SortIsListed(dir, table);
    if n > 0 {
      PastIsTheRest(dir, table, n - 1);
    }
  }

  /** The page a fixed table's walk gets from the cursor it holds after `n` rows. */
  predicate NextIs<V(==)>(sorted: seq<Entry<V>>, n: nat, page: Page<V>)
    requires n <= |sorted|
  {
    if |sorted| - n > PAGE_SIZE then page == Page(sorted[n..n + PAGE_SIZE], CursorAfter(sorted, n + PAGE_SIZE))
    else page == Page(sorted[n..], None)
  }

  lemma NextPage<V>(dir: SortDir, table: seq<Entry<V>>, sorted: seq<Entry<V>>, n: nat)
    requires DistinctIds(table) && sorted == Sort(dir, table) && n <= |sorted|
    ensures NextIs(sorted, n, PageAt(dir, table, CursorAfter(sorted, n)))
  {
    SortIsListed(dir, table);
    PageAtIs(dir, table, n);
    PageFromIs(sorted, n);
  }

  /** A walk under way: so many full pages, and more rows to come. */
  predicate ReadSoFar<V(==)>(sorted: seq<Entry<V>>, all: seq<Entry<V>>, cursor: Option<nat>, fetches: nat) {
    && |all| <= |sorted| && all == sorted[..|all|] && |all| == PAGE_SIZE * fetches
    && (all == [] || |all| < |sorted|) && cursor == CursorAfter(sorted, |all|)
  }

  /** One more page ends the walk with everything read, or leaves it under way. */
  lemma ReadOn<V>(sorted: seq<Entry<V>>, all: seq<Entry<V>>, cursor: Option<nat>, fetches: nat, page: Page<V>)
    requires ReadSoFar(sorted, all, cursor, fetches) && NextIs(sorted, |all|, page)
    ensures page.next.None? ==> all + page.items == sorted && fetches + 1 == FetchesFor(|sorted|)
    ensures page.next.Some? ==> ReadSoFar(sorted, all + page.items, page.next, fetches + 1) && page.items != []
  {
    if page.next.None? {
      LastFetch(|sorted|, fetches);
    }
  }

  /** Fetches it takes to read so many rows: an exactly full last page costs no further one. */
  function FetchesFor(total: nat): nat {
    if total == 0 then 1 else (total + PAGE_SIZE - 1) / PAGE_SIZE
  }

  lemma LastFetch(total: nat, before: nat)
    requires PAGE_SIZE * before <= total <= PAGE_SIZE * before + PAGE_SIZE && (before == 0 || PAGE_SIZE * before < total)
    ensures before + 1 == FetchesFor(total)
  {
  }

  /**
   Follows the cursors to the end, as the library reconciliation does. No row is skipped or
   repeated, the order is the listing's, every page but the last is full, and the extra row
   fetched means an exactly full last page costs no further fetch.
   */
  method ReadAll<V>(dir: SortDir, table: seq<Entry<V>>) returns (all: seq<Entry<V>>, fetches: nat)
    requires DistinctIds(table)
    ensures all == Sort(dir, table)
    ensures fetches == FetchesFor(|table|)
  {
    ghost var sorted := Sort(dir, table);
    all, fetches := [], 0;
    var cursor: Option<nat> := None;
    SortIsListed(dir, table);
    while true
      invariant ReadSoFar(sorted, all, cursor, fetches)
      decreases |sorted| - |all|
    {
      var page := PageOf(Fetched(dir, table, cursor));
      NextPage(dir, table, sorted, |all|);
      ReadOn(sorted, all, cursor, fetches, page);
      all, fetches := all + page.items, fetches + 1;
      if page.next.None? {
        return;
      }
      cursor := page.next;
    }
  }

  // --- a table that changes between fetches --------------------------------

  /** The pages a walk gets when its i-th fetch sees the i-th table. */
  function Walk<V>(dir: SortDir, tables: seq<seq<Entry<V>>>, after: Option<nat>): (pages: seq<Page<V>>)
    ensures |pages| <= |tables|
  {
    if tables == [] then [] else
      var page := PageAt(dir, tables[0], after);
      [page] + if page.next.Some? then Walk(dir, tables[1..], page.next) else []
  }

  function Ids<V>(items: seq<Entry<V>>): (ids: seq<nat>)
    ensures |ids| == |items| && forall i | 0 <= i < |items| :: ids[i] == items[i].id
  {
    seq(|items|, i requires 0 <= i < |items| => items[i].id)
  }

  /** The ids a walk returns, in order. */
  function Returned<V>(pages: seq<Page<V>>): seq<nat> {
    if pages == [] then [] else Ids(pages[0].items) + Returned(pages[1..])
  }

  predicate Finished<V>(pages: seq<Page<V>>) {
    pages != [] && pages[|pages| - 1].next.None?
  }

  predicate Holds<V>(table: seq<Entry<V>>, id: nat) {
    exists i | 0 <= i < |table| :: table[i].id == id
  }

  /** Every row carries the sort key its id was given once and for all, as `created_at` is. */
  ghost predicate Keyed<V>(table: seq<Entry<V>>, keyOf: nat -> SortKey) {
    DistinctIds(table) && forall x | x in table :: x.key == keyOf(x.id)
  }

  /** The cursor's row is still there whenever the walk resumes from it. */
  predicate CursorsSurvive<V>(tables: seq<seq<Entry<V>>>, pages: seq<Page<V>>)
    requires |pages| <= |tables|
  {
    forall i | 0 <= i < |pages| - 1 :: pages[i].next.Some? && Holds(tables[i + 1], pages[i].next.value)
  }

  predicate IdBefore(dir: SortDir, keyOf: nat -> SortKey, a: nat, b: nat) {
    Before(dir, Entry(a, keyOf(a), ()), Entry(b, keyOf(b), ()))
  }

  predicate Beyond(dir: SortDir, keyOf: nat -> SortKey, after: Option<nat>, id: nat) {
    after.Some? ==> IdBefore(dir, keyOf, after.value, id)
  }

  ghost predicate Forward(dir: SortDir, keyOf: nat -> SortKey, ids: seq<nat>) {
    forall i, j | 0 <= i < j < |ids| :: IdBefore(dir, keyOf, ids[i], ids[j])
  }

  lemma IdOrder(dir: SortDir, keyOf: nat -> SortKey, a: nat, b: nat, c: nat)
    ensures !IdBefore(dir, keyOf, a, a)
    ensures IdBefore(dir, keyOf, a, b) && IdBefore(dir, keyOf, b, c) ==> IdBefore(dir, keyOf, a, c)
  {
    ListingOrder(dir, Entry(a, keyOf(a), ()), Entry(b, keyOf(b), ()), Entry(c, keyOf(c), ()));
  }

  lemma ListedIsForward<V>(dir: SortDir, items: seq<Entry<V>>, keyOf: nat -> SortKey)
    requires Listed(dir, items) && forall x | x in items :: x.key == keyOf(x.id)
    ensures Forward(dir, keyOf, Ids(items))
  {
  }

  lemma PastIsBeyond<V>(dir: SortDir, table: seq<Entry<V>>, keyOf: nat -> SortKey, after: Option<nat>, x: Entry<V>)
    requires Keyed(table, keyOf) && x in Past(dir, table, after)
    ensures x in table && Holds(table, x.id) && Beyond(dir, keyOf, after, x.id)
  {
    PastFacts(dir, table, after);
    var k :| 0 <= k < |table| && table[k] == x;
  }

  /** One page of a keyed table, stated on ids: it lies beyond the cursor, in order. */
  lemma PageMovesForward<V>(dir: SortDir, table: seq<Entry<V>>, keyOf: nat -> SortKey, after: Option<nat>)
    requires Keyed(table, keyOf)
    ensures var page := PageAt(dir, table, after);
            var ids := Ids(page.items);
            && Forward(dir, keyOf, ids)
            && (forall id | id in ids :: Holds(table, id) && Beyond(dir, keyOf, after, id))
            && (page.next.Some? ==> |ids| == PAGE_SIZE && page.next.value == ids[PAGE_SIZE - 1])
  {
    PageFacts(dir, table, after);
    var items := PageAt(dir, table, after).items;
    forall k | 0 <= k < |items|
      ensures items[k].key == keyOf(items[k].id) && Holds(table, items[k].id) && Beyond(dir, keyOf, after, items[k].id)
    {
      assert items[k] in items;
      PastIsBeyond(dir, table, keyOf, after, items[k]);
    }
    ListedIsForward(dir, items, keyOf);
  }

  /** While the cursor's row is there, the page leaves behind only rows beyond its own cursor. */
  lemma PageLeavesNothing<V>(dir: SortDir, table: seq<Entry<V>>, keyOf: nat -> SortKey, after: Option<nat>, id: nat)
    requires Keyed(table, keyOf) && Holds(table, id) && Beyond(dir, keyOf, after, id)
    requires after.Some? ==> Holds(table, after.value)
    ensures var page := PageAt(dir, table, after);
            id in Ids(page.items) || (page.next.Some? && IdBefore(dir, keyOf, page.next.value, id))
  {
    PageFacts(dir, table, after);
    PastFacts(dir, table, after);
    var page := PageAt(dir, table, after);
    var i :| 0 <= i < |table| && table[i].id == id;
    assert table[i] in table;
    if after.Some? {
      assert Find(table, after.value).Some? && Before(dir, Find(table, after.value).value, table[i]);
    }
    assert table[i] in Past(dir, table, after);
    if table[i] in page.items {
      var k :| 0 <= k < |page.items| && page.items[k] == table[i];
      assert Ids(page.items)[k] == id;
    }
  }

  lemma ForwardConcat(dir: SortDir, keyOf: nat -> SortKey, a: seq<nat>, b: seq<nat>)
    requires Forward(dir, keyOf, a) && Forward(dir, keyOf, b)
    requires a != [] ==> forall id | id in b :: IdBefore(dir, keyOf, a[|a| - 1], id)
    ensures Forward(dir, keyOf, a + b)
  {
    forall x, y | x in a && y in b ensures IdBefore(dir, keyOf, x, y) {
      IdOrder(dir, keyOf, x, a[|a| - 1], y);
    }
  }

  /** Whatever happens to the table, the walk only moves forward. */
  lemma {:induction false} WalkMovesForward<V>(dir: SortDir, tables: seq<seq<Entry<V>>>, keyOf: nat -> SortKey, after: Option<nat>)
    requires forall table | table in tables :: Keyed(table, keyOf)
    ensures Forward(dir, keyOf, Returned(Walk(dir, tables, after)))
    ensures forall id | id in Returned(Walk(dir, tables, after)) :: Beyond(dir, keyOf, after, id)
  {
    if tables != [] {
      PageMovesForward(dir, tables[0], keyOf, after);
      var page, pages := PageAt(dir, tables[0], after), Walk(dir, tables, after);
      var ids := Ids(page.items);
      if page.next.None? {
        assert pages[1..] == [] && Returned(pages) == ids;
      } else {
        WalkMovesForward(dir, tables[1..], keyOf, page.next);
        assert pages[1..] == Walk(dir, tables[1..], page.next);
        var rest := Returned(pages[1..]);
        ForwardConcat(dir, keyOf, ids, rest);
        assert page.next.value in ids;
        forall id | id in rest ensures Beyond(dir, keyOf, after, id) {
          if after.Some? {
            IdOrder(dir, keyOf, after.value, page.next.value, id);
          }
        }
      }
    }
  }

  ghost predicate HeldThroughout<V>(tables: seq<seq<Entry<V>>>, keyOf: nat -> SortKey, id: nat) {
    forall table | table in tables :: Keyed(table, keyOf) && Holds(table, id)
  }

  /** What is there throughout a finished walk whose cursor rows survive comes back in it. */
  lemma {:induction false} WalkMissesNothing<V>(dir: SortDir, tables: seq<seq<Entry<V>>>, keyOf: nat -> SortKey,
                                                after: Option<nat>, id: nat)
    requires HeldThroughout(tables, keyOf, id)
    requires Finished(Walk(dir, tables, after)) && CursorsSurvive(tables, Walk(dir, tables, after))
    requires after.Some? ==> Holds(tables[0], after.value)
    requires Beyond(dir, keyOf, after, id)
    ensures id in Returned(Walk(dir, tables, after))
  {
    var page, pages := PageAt(dir, tables[0], after), Walk(dir, tables, after);
    PageLeavesNothing(dir, tables[0], keyOf, after, id);
    if id !in Ids(page.items) {
      var rest := Walk(dir, tables[1..], page.next);
      assert pages[1..] == rest;
      CursorsSurviveLater(tables, pages);
      assert HeldThroughout(tables[1..], keyOf, id);
      WalkMissesNothing(dir, tables[1..], keyOf, page.next, id);
    }
  }

  lemma CursorsSurviveLater<V>(tables: seq<seq<Entry<V>>>, pages: seq<Page<V>>)
    requires 1 < |pages| <= |tables| && CursorsSurvive(tables, pages)
    ensures CursorsSurvive(tables[1..], pages[1..]) && Holds(tables[1], pages[0].next.value)
  {
  }

  // --- a cursor row that is deleted ----------------------------------------

  /** With its cursor's row deleted, a walk ends early: the next page is empty and is the last. */
  lemma DeletedCursorEndsTheWalk<V>(dir: SortDir, table: seq<Entry<V>>, id: nat)
    requires DistinctIds(table) && !Holds(table, id)
    ensures PageAt(dir, table, Some(id)) == Page([], None)
  {
  }

  lemma {:induction false} WalkResumes<V>(dir: SortDir, tables: seq<seq<Entry<V>>>, after: Option<nat>, i: nat)
    requires i + 1 < |Walk(dir, tables, after)|
    ensures var pages := Walk(dir, tables, after);
            pages[i].next.Some? && pages[i + 1] == PageAt(dir, tables[i + 1], pages[i].next)
  {
    var pages := Walk(dir, tables, after);
    assert pages[1..] == Walk(dir, tables[1..], pages[0].next);
    if i > 0 {
      WalkResumes(dir, tables[1..], pages[0].next, i - 1);
    }
  }

  lemma ResumesOrEnds<V>(dir: SortDir, tables: seq<seq<Entry<V>>>, after: Option<nat>, i: nat)
    requires i + 1 < |Walk(dir, tables, after)| && forall table | table in tables :: DistinctIds(table)
    ensures var pages := Walk(dir, tables, after);
            && pages[i].next.Some?
            && (!Holds(tables[i + 1], pages[i].next.value) ==> i == |pages| - 2 && pages[i + 1] == Page([], None))
  {
    var pages := Walk(dir, tables, after);
    WalkResumes(dir, tables, after, i);
    if !Holds(tables[i + 1], pages[i].next.value) {
      DeletedCursorEndsTheWalk(dir, tables[i + 1], pages[i].next.value);
      if i < |pages| - 2 {
        WalkResumes(dir, tables, after, i + 1);
      }
    }
  }

  /** The cursor the last fetch resumed from. */
  function LastCursor<V>(pages: seq<Page<V>>): Option<nat>
    requires |pages| >= 2
  {
    pages[|pages| - 2].next
  }

  /** The walk resumed from a row that was gone by then. */
  predicate CutShort<V>(tables: seq<seq<Entry<V>>>, pages: seq<Page<V>>)
    requires |pages| <= |tables|
  {
    |pages| >= 2 && LastCursor(pages).Some? && !Holds(tables[|pages| - 1], LastCursor(pages).value)
  }

  /** Every resumption but the last finds its cursor's row. */
  predicate OnlyLastIsCut<V>(tables: seq<seq<Entry<V>>>, pages: seq<Page<V>>)
    requires |pages| <= |tables|
  {
    forall i | 0 <= i < |pages| - 1 ::
      pages[i].next.Some? && (i < |pages| - 2 ==> Holds(tables[i + 1], pages[i].next.value))
  }

  lemma CutIsLast<V>(tables: seq<seq<Entry<V>>>, pages: seq<Page<V>>)
    requires |pages| <= |tables| && OnlyLastIsCut(tables, pages)
    ensures CutShort(tables, pages) <==> !CursorsSurvive(tables, pages)
  {
  }

  /** A walk survives every deletion but one of the row it resumes from, and that resumption is its last. */
  lemma CutShortIs<V>(dir: SortDir, tables: seq<seq<Entry<V>>>, after: Option<nat>)
    requires forall table | table in tables :: DistinctIds(table)
    ensures var pages := Walk(dir, tables, after);
            && OnlyLastIsCut(tables, pages)
            && (CutShort(tables, pages) <==> !CursorsSurvive(tables, pages))
            && (CutShort(tables, pages) ==> pages[|pages| - 1] == Page([], None))
  {
    var pages := Walk(dir, tables, after);
    forall i | 0 <= i < |pages| - 1
      ensures pages[i].next.Some? && (i < |pages| - 2 ==> Holds(tables[i + 1], pages[i].next.value))
    {
      ResumesOrEnds(dir, tables, after, i);
    }
    CutIsLast(tables, pages);
    if CutShort(tables, pages) {
      ResumesOrEnds(dir, tables, after, |pages| - 2);
    }
  }

  /** Nothing a walk that was cut short returns lies beyond its last cursor. */
  lemma {:induction false} CutShortReturns<V>(dir: SortDir, tables: seq<seq<Entry<V>>>, keyOf: nat -> SortKey,
                                              after: Option<nat>)
    requires forall table | table in tables :: Keyed(table, keyOf)
    requires CutShort(tables, Walk(dir, tables, after))
    ensures var pages := Walk(dir, tables, after);
            && Beyond(dir, keyOf, after, LastCursor(pages).value)
            && forall id | id in Returned(pages) :: !IdBefore(dir, keyOf, LastCursor(pages).value, id)
  {
    var pages, page := Walk(dir, tables, after), PageAt(dir, tables[0], after);
    var ids, cursor := Ids(page.items), LastCursor(pages).value;
    PageMovesForward(dir, tables[0], keyOf, after);
    assert pages[1..] == Walk(dir, tables[1..], page.next) && page.next.value in ids;
    if |pages| == 2 {
      CutShortIs(dir, tables, after);
      assert Returned(pages[1..]) == [];
    } else {
      assert LastCursor(pages[1..]) == LastCursor(pages);
      CutShortReturns(dir, tables[1..], keyOf, page.next);
      if after.Some? {
        IdOrder(dir, keyOf, after.value, page.next.value, cursor);
      }
    }
    forall id | id in ids ensures !IdBefore(dir, keyOf, cursor, id) {
      AtMostLast(dir, keyOf, ids, id);
      IdOrder(dir, keyOf, cursor, id, page.next.value);
      IdOrder(dir, keyOf, cursor, page.next.value, cursor);
      IdOrder(dir, keyOf, page.next.value, cursor, page.next.value);
    }
  }

  lemma AtMostLast(dir: SortDir, keyOf: nat -> SortKey, ids: seq<nat>, id: nat)
    requires Forward(dir, keyOf, ids) && id in ids
    ensures id == ids[|ids| - 1] || IdBefore(dir, keyOf, id, ids[|ids| - 1])
  {
  }

  /** What is there throughout comes back, or lies beyond the cursor at which the walk was cut short. */
  lemma {:induction false} CutShortCovers<V>(dir: SortDir, tables: seq<seq<Entry<V>>>, keyOf: nat -> SortKey,
                                             after: Option<nat>, id: nat)
    requires HeldThroughout(tables, keyOf, id) && Beyond(dir, keyOf, after, id)
    requires CutShort(tables, Walk(dir, tables, after)) && (after.Some? ==> Holds(tables[0], after.value))
    ensures var pages := Walk(dir, tables, after);
            id in Returned(pages) || IdBefore(dir, keyOf, LastCursor(pages).value, id)
  {
    var pages, page := Walk(dir, tables, after), PageAt(dir, tables[0], after);
    PageLeavesNothing(dir, tables[0], keyOf, after, id);
    assert pages[1..] == Walk(dir, tables[1..], page.next);
    if id !in Ids(page.items) && |pages| > 2 {
      CutShortIs(dir, tables, after);
      assert LastCursor(pages[1..]) == LastCursor(pages) && HeldThroughout(tables[1..], keyOf, id);
      CutShortCovers(dir, tables[1..], keyOf, page.next, id);
    }
  }

  /**
   A walk over a table that is inserted into, updated and deleted from between fetches returns no
   row twice. Of the rows present throughout, a finished walk misses exactly those beyond its last
   cursor when that cursor's row was deleted before the walk resumed from it.
   */
  lemma WalkIsExact<V>(dir: SortDir, tables: seq<seq<Entry<V>>>, keyOf: nat -> SortKey)
    requires forall table | table in tables :: Keyed(table, keyOf)
    ensures var pages := Walk(dir, tables, None);
            var ids := Returned(pages);
            && (forall i, j | 0 <= i < j < |ids| :: ids[i] != ids[j])
            && (CutShort(tables, pages) <==> !CursorsSurvive(tables, pages))
            && (Finished(pages) ==>
                  forall id | forall table | table in tables :: Holds(table, id) ::
                    id in ids <==> !(CutShort(tables, pages) && IdBefore(dir, keyOf, LastCursor(pages).value, id)))
  {
    var pages := Walk(dir, tables, None);
    var ids := Returned(pages);
    WalkMovesForward(dir, tables, keyOf, None);
    CutShortIs(dir, tables, None);
    forall i, j | 0 <= i < j < |ids| ensures ids[i] != ids[j] {
      IdOrder(dir, keyOf, ids[i], ids[j], ids[j]);
    }
    if Finished(pages) {
      forall id | forall table | table in tables :: Holds(table, id)
        ensures id in ids <==> !(CutShort(tables, pages) && IdBefore(dir, keyOf, LastCursor(pages).value, id))
      {
        if CutShort(tables, pages) {
          CutShortReturns(dir, tables, keyOf, None);
          CutShortCovers(dir, tables, keyOf, None, id);
        } else {
          WalkMissesNothing(dir, tables, keyOf, None, id);
        }
      }
    }
  }

  // --- a row that is missed ------------------------------------------------

  function Rows(ids: seq<nat>): (rows: seq<Entry<()>>)
    ensures |rows| == |ids| && forall i | 0 <= i < |ids| :: rows[i] == Entry(ids[i], Number(ids[i]), ())
  {
    seq(|ids|, i requires 0 <= i < |ids| => Entry(ids[i], Number(ids[i]), ()))
  }

  function NumberKey(id: nat): SortKey {
    Number(id)
  }

  lemma AscendingIsSorted(ids: seq<nat>)
    requires forall i, j | 0 <= i < j < |ids| :: ids[i] < ids[j]
    ensures Keyed(Rows(ids), NumberKey) && Sort(Asc, Rows(ids)) == Rows(ids)
  {
    SortIsListed(Asc, Rows(ids));
    ListingIsUnique(Asc, Sort(Asc, Rows(ids)), Rows(ids));
  }

  /** Ids 0 to 51, with and without the fiftieth. */
  predicate Fiftieth(before: seq<nat>, after: seq<nat>) {
    |before| == 52 && (forall i | 0 <= i < 52 :: before[i] == i) && after == before[..49] + before[50..]
  }

  lemma RowHeld(ids: seq<nat>, i: nat)
    requires i < |ids|
    ensures Holds(Rows(ids), ids[i])
  {
    assert Rows(ids)[i].id == ids[i];
  }

  lemma FiftiethIsGone(before: seq<nat>, after: seq<nat>)
    requires Fiftieth(before, after)
    ensures !Holds(Rows(after), 49) && Rows(before)[49].id == 49
    ensures forall id | 50 <= id < 52 :: id !in Ids(Rows(before)[..50])
  {
  }

  lemma FiftiethIsSorted(before: seq<nat>, after: seq<nat>)
    requires Fiftieth(before, after)
    ensures Keyed(Rows(before), NumberKey) && Keyed(Rows(after), NumberKey) && Sort(Asc, Rows(before)) == Rows(before)
  {
    AscendingIsSorted(before);
    AscendingIsSorted(after);
  }

  /** Fifty-two rows; between the two fetches the fiftieth is deleted, and the last two never come back. */
  lemma DeletedCursorHidesRows(before: seq<nat>, after: seq<nat>)
    requires Fiftieth(before, after)
    ensures Keyed(Rows(before), NumberKey) && Keyed(Rows(after), NumberKey)
    ensures forall id | 50 <= id < 52 :: Holds(Rows(before), id) && Holds(Rows(after), id)
    ensures var pages := Walk(Asc, [Rows(before), Rows(after)], None);
            Finished(pages) && forall id | 50 <= id < 52 :: id !in Returned(pages)
  {
    FiftiethIsSorted(before, after);
    FiftiethIsGone(before, after);
    CutsTheWalk(Rows(before), Rows(after));
    forall id | 50 <= id < 52 ensures Holds(Rows(before), id) && Holds(Rows(after), id) {
      RowHeld(before, id);
      RowHeld(after, id - 1);
    }
  }

  lemma FiftiethExists() returns (before: seq<nat>, after: seq<nat>)
    ensures Fiftieth(before, after)
  {
    before := seq(52, i => i);
    after := before[..49] + before[50..];
  }

  lemma CutsTheWalk(before: seq<Entry<()>>, after: seq<Entry<()>>)
    requires Sort(Asc, before) == before && |before| == 52
    requires DistinctIds(before) && DistinctIds(after) && !Holds(after, before[49].id)
    ensures Walk(Asc, [before, after], None) == [Page(before[..50], Some(before[49].id)), Page([], None)]
    ensures Returned(Walk(Asc, [before, after], None)) == Ids(before[..50])
  {
    var pages := Walk(Asc, [before, after], None);
    FirstPage(before);
    DeletedCursorEndsTheWalk(Asc, after, before[49].id);
    assert [before, after][1..] == [after] && pages[1..] == Walk(Asc, [after], pages[0].next);
    assert pages[1..][1..] == [] && Returned(pages[1..]) == [];
  }

  lemma FirstPage(table: seq<Entry<()>>)
    requires Sort(Asc, table) == table && |table| == 52
    ensures PageAt(Asc, table, None) == Page(table[..50], Some(table[49].id))
  {
  }
}

/**
 The library list: a statement assembled from optional filters with numbered placeholders, over
 series joined with their source and counted through two left joins
 (`list_manga_summaries`, crates/persistence/src/repository.rs).
 */
module MangaSummaries {
  import opened Wrappers
  import opened Text
  import opened LikePattern
  import opened Keyset
  import opened Aggregates
  import KeysetWalk
  import Repository

  type Time = int

  datatype SourceRow = SourceRow(id: nat, name: string)

  datatype MangaRow = MangaRow(id: nat, source: nat, title: string, status: int, createdAt: Time, updatedAt: Time)

  datatype Database = Database(
    manga: seq<MangaRow>, sources: seq<SourceRow>, chapters: seq<Chapter>, downloads: seq<Download>)

  /** The primary keys; the source of a series is a foreign key. */
  predicate DatabaseOk(db: Database) {
    && (forall i, j | 0 <= i < j < |db.manga| :: db.manga[i].id != db.manga[j].id)
    && Aggregates.DistinctIds(db.chapters)
    && (forall i | 0 <= i < |db.manga| :: SourceOf(db.sources, db.manga[i].source).Some?)
  }

  datatype MangaSort = Title | Added | Updated | Chapters

  datatype MangaQuery = MangaQuery(q: Option<string>, status: Option<int>, source: Option<nat>, sort: MangaSort, dir: SortDir)

  datatype Summary = Summary(manga: MangaRow, sourceName: string, chapterCount: nat, downloadedCount: nat)

  function SourceOf(sources: seq<SourceRow>, id: nat): Option<SourceRow> {
    if sources == [] then None else if sources[0].id == id then Some(sources[0]) else SourceOf(sources[1..], id)
  }

  // --- what the list is ----------------------------------------------------

  /** A search of white space alone is no search. */
  predicate TextWanted(query: MangaQuery, m: MangaRow) {
    query.q.Some? && Trim(query.q.value) != "" ==> Contains(Lower(m.title), Lower(Trim(query.q.value)))
  }

  predicate StatusWanted(query: MangaQuery, m: MangaRow) {
    query.status.Some? ==> m.status == query.status.value
  }

  predicate SourceWanted(query: MangaQuery, m: MangaRow) {
    query.source.Some? ==> m.source == query.source.value
  }

  /** The rows the caller asked for. */
  predicate Wanted(query: MangaQuery, m: MangaRow) {
    TextWanted(query, m) && StatusWanted(query, m) && SourceWanted(query, m)
  }

  function SortKeyOf(sort: MangaSort, s: Summary): SortKey {
    match sort
    case Title => Text(s.manga.title)
    case Added => Number(s.manga.createdAt)
    case Updated => Number(s.manga.updatedAt)
    case Chapters => Number(s.chapterCount)
  }

  /** One group of the joined relation. */
  function SummaryOf(db: Database, m: MangaRow, source: SourceRow): Summary {
    var rows := Group(m.id, db.chapters, db.downloads);
    Summary(m, source.name, |DistinctChapters(rows)|, |DistinctDownloads(rows)|)
  }

  /** `summary`: the rows of `manga` that pass, joined with their source, grouped and counted. */
  function Materialized(db: Database, sort: MangaSort, passes: MangaRow -> bool, manga: seq<MangaRow>): seq<Entry<Summary>> {
    if manga == [] then [] else
      var m, source := manga[0], SourceOf(db.sources, manga[0].source);
      (if passes(m) && source.Some? then
         var s := SummaryOf(db, m, source.value);
         [Entry(m.id, SortKeyOf(sort, s), s)]
       else [])
      + Materialized(db, sort, passes, manga[1..])
  }

  function Summaries(db: Database, query: MangaQuery): seq<Entry<Summary>> {
    Materialized(db, query.sort, m => Wanted(query, m), db.manga)
  }

  // --- the statement -------------------------------------------------------

  datatype Value = Pattern(pattern: string) | SmallInt(n: int) | Uuid(id: nat) | BigInt(limit: nat)

  datatype Column = TitleColumn | StatusColumn | SourceColumn

  /** `column ILIKE $n` or `column = $n`; placeholders count from one. */
  datatype Filter = Filter(column: Column, placeholder: nat)

  datatype Statement = Statement(
    filters: seq<Filter>, sort: MangaSort, dir: SortDir, after: Option<nat>, limit: nat, values: seq<Value>)

  function Bound(values: seq<Value>, placeholder: nat): Option<Value> {
    if 1 <= placeholder <= |values| then Some(values[placeholder - 1]) else None
  }

  predicate Compares(column: Column, value: Value, m: MangaRow) {
    match (column, value)
    case (TitleColumn, Pattern(pattern)) => ILike(pattern, m.title)
    case (StatusColumn, SmallInt(n)) => m.status == n
    case (SourceColumn, Uuid(id)) => m.source == id
    case _ => false
  }

  predicate Satisfies(filter: Filter, values: seq<Value>, m: MangaRow) {
    var value := Bound(values, filter.placeholder);
    value.Some? && Compares(filter.column, value.value, m)
  }

  predicate Passes(filters: seq<Filter>, values: seq<Value>, m: MangaRow) {
    forall i | 0 <= i < |filters| :: Satisfies(filters[i], values, m)
  }

  /** What the database answers; a placeholder bound to a value of the wrong kind is an error. */
  function Execute(stmt: Statement, db: Database): Option<seq<Entry<Summary>>> {
    var summary := Materialized(db, stmt.sort, m => Passes(stmt.filters, stmt.values, m), db.manga);
    match (Bound(stmt.values, stmt.limit), if stmt.after.None? then None else Bound(stmt.values, stmt.after.value))
    case (Some(BigInt(limit)), None) =>
      if stmt.after.None? then Some(Take(Sort(stmt.dir, summary), limit)) else None
    case (Some(BigInt(limit)), Some(Uuid(id))) =>
      Some(Take(Sort(stmt.dir, Past(stmt.dir, summary, Some(id))), limit))
    case _ => None
  }

  /** Adding values leaves the filters already built reading theirs. */
  lemma FiltersKeepTheirValues(filters: seq<Filter>, values: seq<Value>, value: Value, m: MangaRow)
    requires forall i | 0 <= i < |filters| :: 1 <= filters[i].placeholder <= |values|
    ensures Passes(filters, values + [value], m) == Passes(filters, values, m)
  {
  }

  predicate InStep(filters: seq<Filter>, values: seq<Value>) {
    forall i | 0 <= i < |filters| :: 1 <= filters[i].placeholder <= |values|
  }

  /** Pushing a value and the filter that names it narrows what passes by that comparison alone. */
  method PushFilter(filters: seq<Filter>, values: seq<Value>, column: Column, value: Value)
    returns (filters': seq<Filter>, values': seq<Value>)
    requires InStep(filters, values)
    ensures InStep(filters', values')
    ensures forall m :: Passes(filters', values', m) == (Passes(filters, values, m) && Compares(column, value, m))
  {
    values' := values + [value];
    filters' := filters + [Filter(column, |values'|)];
    forall m ensures Passes(filters', values', m) == (Passes(filters, values, m) && Compares(column, value, m)) {
      FiltersKeepTheirValues(filters, values, value, m);
      var filter := filters'[|filters|];
      assert Bound(values', filter.placeholder) == Some(value);
      assert forall i | 0 <= i < |filters| :: filters'[i] == filters[i];
      assert Passes(filters', values', m) == (Passes(filters, values', m) && Satisfies(filter, values', m));
    }
  }

  /** Builds the `WHERE` clause and its values side by side. */
  method BuildFilters(query: MangaQuery) returns (filters: seq<Filter>, values: seq<Value>)
    ensures InStep(filters, values)
    ensures forall m :: Passes(filters, values, m) == Wanted(query, m)
  {
    filters, values := [], [];
    if query.q.Some? {
      var text := Trim(query.q.value);
      if text != "" {
        filters, values := PushFilter(filters, values, TitleColumn, Pattern(SearchPattern(text)));
        forall m ensures Compares(TitleColumn, Pattern(SearchPattern(text)), m) == TextWanted(query, m) {
          SearchFindsTheText(text, m.title);
        }
      }
    }
    assert forall m :: Passes(filters, values, m) == TextWanted(query, m);
    if query.status.Some? {
      filters, values := PushFilter(filters, values, StatusColumn, SmallInt(query.status.value));
    }
    if query.source.Some? {
      filters, values := PushFilter(filters, values, SourceColumn, Uuid(query.source.value));
    }
  }

  lemma {:induction false} SameRowsPass(db: Database, sort: MangaSort, f: MangaRow -> bool, g: MangaRow -> bool, manga: seq<MangaRow>)
    requires forall m :: f(m) == g(m)
    ensures Materialized(db, sort, f, manga) == Materialized(db, sort, g, manga)
  {
    if manga != [] {
      SameRowsPass(db, sort, f, g, manga[1..]);
    }
  }

  method BuildStatement(query: MangaQuery, after: Option<nat>) returns (stmt: Statement)
    ensures forall db :: Execute(stmt, db) == Some(Fetched(query.dir, Summaries(db, query), after))
  {
    var filters, values := BuildFilters(query);
    ghost var values0 := values;
    var keyset := None;
    if after.Some? {
      forall m { FiltersKeepTheirValues(filters, values0, Uuid(after.value), m); }
      values := values + [Uuid(after.value)];
      keyset := Some(|values|);
    }
    ghost var values1 := values;
    forall m { FiltersKeepTheirValues(filters, values1, BigInt(PAGE_SIZE + 1), m); }
    values := values + [BigInt(PAGE_SIZE + 1)];
    stmt := Statement(filters, query.sort, query.dir, keyset, |values|, values);
    forall db ensures Execute(stmt, db) == Some(Fetched(query.dir, Summaries(db, query), after)) {
      SameRowsPass(db, query.sort, m => Passes(stmt.filters, stmt.values, m), m => Wanted(query, m), db.manga);
    }
  }

  method ListMangaSummaries(db: Database, query: MangaQuery, cursor: Option<Repository.Cursor>) returns (r: Result<Page<Summary>>)
    ensures r == match Repository.ParseCursor(cursor)
                 case Ok(after) => Ok(PageAt(query.dir, Summaries(db, query), after))
                 case Err(error) => Err(error)
    ensures r.Err? <==> cursor == Some(Repository.Malformed)
    ensures r.Err? ==> r == Err(Invalid)
  {
    var after := Repository.ParseCursor(cursor);
    if after.Err? {
      return Err(after.error);
    }
    var stmt := BuildStatement(query, after.value);
    var page := PageOf(Execute(stmt, db).value);
    return Ok(page);
  }

  // --- what a whole walk returns -------------------------------------------

  lemma {:induction false} MaterializedRows(db: Database, sort: MangaSort, passes: MangaRow -> bool, manga: seq<MangaRow>)
    ensures forall e | e in Materialized(db, sort, passes, manga) ::
              && e.row.manga in manga && passes(e.row.manga) && e.id == e.row.manga.id && e.key == SortKeyOf(sort, e.row)
              && SourceOf(db.sources, e.row.manga.source).Some?
              && e.row == SummaryOf(db, e.row.manga, SourceOf(db.sources, e.row.manga.source).value)
    ensures forall m | m in manga && passes(m) && SourceOf(db.sources, m.source).Some? ::
              var s := SummaryOf(db, m, SourceOf(db.sources, m.source).value);
              Entry(m.id, SortKeyOf(sort, s), s) in Materialized(db, sort, passes, manga)
  {
    if manga != [] {
      assert manga == [manga[0]] + manga[1..];
      MaterializedRows(db, sort, passes, manga[1..]);
    }
  }

  lemma {:induction false} MaterializedIds(db: Database, sort: MangaSort, passes: MangaRow -> bool, manga: seq<MangaRow>)
    requires forall i, j | 0 <= i < j < |manga| :: manga[i].id != manga[j].id
    ensures Keyset.DistinctIds(Materialized(db, sort, passes, manga))
  {
    if manga != [] {
      MaterializedIds(db, sort, passes, manga[1..]);
      MaterializedRows(db, sort, passes, manga[1..]);
      var rest := Materialized(db, sort, passes, manga[1..]);
      forall e | e in rest ensures e.id != manga[0].id {
        var i :| 0 <= i < |manga| - 1 && manga[1..][i] == e.row.manga;
        assert manga[i + 1] == e.row.manga;
      }
    }
  }

  /** A summary's counts are those of its series' chapters, whichever query it came back for. */
  predicate Accurate(db: Database, s: Summary) {
    var ids := ChapterIds(s.manga.id, db.chapters);
    && s.chapterCount == |ids|
    && s.downloadedCount == |ids * DownloadKeys(db.downloads)|
    && SourceOf(db.sources, s.manga.source) == Some(SourceRow(s.manga.source, s.sourceName))
  }

  lemma {:induction false} SourceOfIs(sources: seq<SourceRow>, id: nat)
    ensures SourceOf(sources, id).Some? ==> SourceOf(sources, id).value.id == id
  {
    if sources != [] {
      SourceOfIs(sources[1..], id);
    }
  }

  /** `a` belongs before `b`: by the column the caller chose, then by id, both in the direction chosen. */
  predicate InColumnOrder(sort: MangaSort, dir: SortDir, a: Summary, b: Summary) {
    match (sort, dir)
    case (Title, Asc) => TextLess(a.manga.title, b.manga.title) || (a.manga.title == b.manga.title && a.manga.id < b.manga.id)
    case (Title, Desc) => TextLess(b.manga.title, a.manga.title) || (a.manga.title == b.manga.title && a.manga.id > b.manga.id)
    case (Added, Asc) => a.manga.createdAt < b.manga.createdAt || (a.manga.createdAt == b.manga.createdAt && a.manga.id < b.manga.id)
    case (Added, Desc) => a.manga.createdAt > b.manga.createdAt || (a.manga.createdAt == b.manga.createdAt && a.manga.id > b.manga.id)
    case (Updated, Asc) => a.manga.updatedAt < b.manga.updatedAt || (a.manga.updatedAt == b.manga.updatedAt && a.manga.id < b.manga.id)
    case (Updated, Desc) => a.manga.updatedAt > b.manga.updatedAt || (a.manga.updatedAt == b.manga.updatedAt && a.manga.id > b.manga.id)
    case (Chapters, Asc) => a.chapterCount < b.chapterCount || (a.chapterCount == b.chapterCount && a.manga.id < b.manga.id)
    case (Chapters, Desc) => a.chapterCount > b.chapterCount || (a.chapterCount == b.chapterCount && a.manga.id > b.manga.id)
  }

  lemma ListedIsColumnOrder(query: MangaQuery, all: seq<Entry<Summary>>)
    requires Listed(query.dir, all)
    requires forall e | e in all :: e.id == e.row.manga.id && e.key == SortKeyOf(query.sort, e.row)
    ensures forall i, j | 0 <= i < j < |all| :: InColumnOrder(query.sort, query.dir, all[i].row, all[j].row)
  {
    forall i, j | 0 <= i < j < |all| ensures InColumnOrder(query.sort, query.dir, all[i].row, all[j].row) {
      assert all[i] in all && all[j] in all && Before(query.dir, all[i], all[j]);
    }
  }

  lemma SummariesAre(db: Database, query: MangaQuery)
    requires DatabaseOk(db)
    ensures Keyset.DistinctIds(Summaries(db, query))
    ensures forall e | e in Summaries(db, query) ::
              e.row.manga in db.manga && Wanted(query, e.row.manga) && e.id == e.row.manga.id && e.key == SortKeyOf(query.sort, e.row)
    ensures forall e | e in Summaries(db, query) :: Accurate(db, e.row)
    ensures forall m | m in db.manga && Wanted(query, m) :: exists e :: e in Summaries(db, query) && e.row.manga == m
  {
    var passes := (m: MangaRow) => Wanted(query, m);
    var summaries := Materialized(db, query.sort, passes, db.manga);
    SameRowsPass(db, query.sort, passes, m => Wanted(query, m), db.manga);
    MaterializedRows(db, query.sort, passes, db.manga);
    MaterializedIds(db, query.sort, passes, db.manga);
    forall e | e in summaries ensures Accurate(db, e.row) {
      CountsAreCardinalities(e.row.manga.id, db.chapters, db.downloads);
      SourceOfIs(db.sources, e.row.manga.source);
    }
    forall m | m in db.manga && Wanted(query, m) ensures exists e :: e in summaries && e.row.manga == m {
      var s := SummaryOf(db, m, SourceOf(db.sources, m.source).value);
      assert Entry(m.id, SortKeyOf(query.sort, s), s) in summaries;
    }
  }

  method FetchPages(db: Database, query: MangaQuery) returns (all: seq<Entry<Summary>>, fetches: nat)
    requires Keyset.DistinctIds(Summaries(db, query))
    ensures all == Sort(query.dir, Summaries(db, query)) && fetches == KeysetWalk.FetchesFor(|all|)
  {
    ghost var sorted := Sort(query.dir, Summaries(db, query));
    all, fetches := [], 0;
    var cursor: Option<Repository.Cursor> := None;
    while true
      invariant Repository.ParseCursor(cursor).Ok?
      invariant KeysetWalk.ReadSoFar(sorted, all, Repository.ParseCursor(cursor).value, fetches)
      decreases |sorted| - |all|
    {
      var r := ListMangaSummaries(db, query, cursor);
      var page := r.value;
      KeysetWalk.NextPage(query.dir, Summaries(db, query), sorted, |all|);
      KeysetWalk.ReadOn(sorted, all, Repository.ParseCursor(cursor).value, fetches, page);
      all, fetches := all + page.items, fetches + 1;
      if page.next.None? {
        return;
      }
      cursor := Some(Repository.Id(page.next.value));
    }
  }

  /**
   Following the cursors of `list_manga_summaries` from the start over an unchanging database, for
   every filter, sort and direction: the wanted series, each exactly once, in order, with the counts
   of its chapters.
   */
  method ReadLibrary(db: Database, query: MangaQuery) returns (all: seq<Entry<Summary>>, fetches: nat)
    requires DatabaseOk(db)
    ensures Listed(query.dir, all) && Keyset.DistinctIds(all)
    ensures forall e | e in all :: e.row.manga in db.manga && Wanted(query, e.row.manga) && Accurate(db, e.row)
    ensures forall e | e in all :: e.id == e.row.manga.id && e.key == SortKeyOf(query.sort, e.row)
    ensures forall i, j | 0 <= i < j < |all| :: InColumnOrder(query.sort, query.dir, all[i].row, all[j].row)
    ensures forall m | m in db.manga && Wanted(query, m) :: exists e :: e in all && e.row.manga == m
    ensures fetches == KeysetWalk.FetchesFor(|all|)
  {
    SummariesAre(db, query);
    SortIsListed(query.dir, Summaries(db, query));
    all, fetches := FetchPages(db, query);
    ListedIdsDiffer(query.dir, Summaries(db, query), all);
    ListedIsColumnOrder(query, all);
  }

  lemma ListedIdsDiffer<V>(dir: SortDir, table: seq<Entry<V>>, all: seq<Entry<V>>)
    requires Keyset.DistinctIds(table) && Listed(dir, all) && forall e | e in all :: e in table
    ensures Keyset.DistinctIds(all)
  {
    forall i, j | 0 <= i < j < |all| ensures all[i].id != all[j].id {
      ListingOrder(dir, all[i], all[j], all[j]);
      assert all[i] in table && all[j] in table;
    }
  }
}

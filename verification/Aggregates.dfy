/**
 The counts of the library and follow lists: aggregates over a series left-joined with its
 chapters and those with their downloads (crates/persistence/src/repository.rs).
 */
module Aggregates {
  import opened Wrappers

  datatype Chapter = Chapter(id: nat, manga: nat)

  datatype Download = Download(chapter: nat, sizeBytes: nat)

  /** One row of the joined relation, as far as the aggregates look: NULLs are `None`. */
  datatype Joined = Joined(chapter: Option<nat>, download: Option<nat>)

  // --- the joins -----------------------------------------------------------

  function Matches(c: Chapter, downloads: seq<Download>): seq<Joined> {
    if downloads == [] then [] else
      (if downloads[0].chapter == c.id then [Joined(Some(c.id), Some(c.id))] else []) + Matches(c, downloads[1..])
  }

  /** The rows a chapter contributes: one per matching download, or one with NULLs. */
  function WithDownloads(c: Chapter, downloads: seq<Download>): seq<Joined> {
    if Matches(c, downloads) == [] then [Joined(Some(c.id), None)] else Matches(c, downloads)
  }

  function InnerRows(manga: nat, chapters: seq<Chapter>, downloads: seq<Download>): seq<Joined> {
    if chapters == [] then [] else
      (if chapters[0].manga == manga then WithDownloads(chapters[0], downloads) else [])
      + InnerRows(manga, chapters[1..], downloads)
  }

  /** The group of one series: `manga LEFT JOIN chapter LEFT JOIN downloaded_chapter`. */
  function Group(manga: nat, chapters: seq<Chapter>, downloads: seq<Download>): seq<Joined> {
    if InnerRows(manga, chapters, downloads) == [] then [Joined(None, None)] else InnerRows(manga, chapters, downloads)
  }

  // --- the aggregates ------------------------------------------------------

  /** `COUNT(DISTINCT c.id)`. */
  function DistinctChapters(rows: seq<Joined>): set<nat> {
    set row | row in rows && row.chapter.Some? :: row.chapter.value
  }

  /** `COUNT(DISTINCT d.chapter_id)`. */
  function DistinctDownloads(rows: seq<Joined>): set<nat> {
    set row | row in rows && row.download.Some? :: row.download.value
  }

  /** `COUNT(c.id)`. */
  function PlainCount(rows: seq<Joined>): nat {
    if rows == [] then 0 else (if rows[0].chapter.Some? then 1 else 0) + PlainCount(rows[1..])
  }

  /** `COUNT(c.id) FILTER (WHERE d.chapter_id IS NULL)`. */
  function MissingCount(rows: seq<Joined>): nat {
    if rows == [] then 0
    else (if rows[0].chapter.Some? && rows[0].download.None? then 1 else 0) + MissingCount(rows[1..])
  }

  // --- what they are meant to be -------------------------------------------

  function ChapterIds(manga: nat, chapters: seq<Chapter>): set<nat> {
    set c | c in chapters && c.manga == manga :: c.id
  }

  function DownloadKeys(downloads: seq<Download>): set<nat> {
    set d | d in downloads :: d.chapter
  }

  predicate DistinctIds(chapters: seq<Chapter>) {
    forall i, j | 0 <= i < j < |chapters| :: chapters[i].id != chapters[j].id
  }

  function Copies(chapter: nat, downloads: seq<Download>): nat {
    if downloads == [] then 0 else (if downloads[0].chapter == chapter then 1 else 0) + Copies(chapter, downloads[1..])
  }

  // --- the joins computed --------------------------------------------------

  lemma {:induction false} MatchesAre(c: Chapter, downloads: seq<Download>)
    ensures forall row | row in Matches(c, downloads) :: row == Joined(Some(c.id), Some(c.id))
    ensures |Matches(c, downloads)| == PlainCount(Matches(c, downloads)) == Copies(c.id, downloads)
    ensures MissingCount(Matches(c, downloads)) == 0
    ensures c.id in DownloadKeys(downloads) <==> Copies(c.id, downloads) > 0
  {
    if downloads != [] {
      assert downloads == [downloads[0]] + downloads[1..];
      MatchesAre(c, downloads[1..]);
      assert DownloadKeys(downloads) == {downloads[0].chapter} + DownloadKeys(downloads[1..]);
      if downloads[0].chapter == c.id {
        assert Matches(c, downloads)[1..] == Matches(c, downloads[1..]);
      } else {
        assert Matches(c, downloads) == Matches(c, downloads[1..]);
      }
    }
  }

  lemma {:induction false} CountsAdd(a: seq<Joined>, b: seq<Joined>)
    ensures PlainCount(a + b) == PlainCount(a) + PlainCount(b)
    ensures MissingCount(a + b) == MissingCount(a) + MissingCount(b)
  {
    if a == [] {
      assert a + b == b;
    } else {
      CountsAdd(a[1..], b);
      assert (a + b)[1..] == a[1..] + b;
    }
  }

  lemma SetsAdd(a: seq<Joined>, b: seq<Joined>)
    ensures DistinctChapters(a + b) == DistinctChapters(a) + DistinctChapters(b)
    ensures DistinctDownloads(a + b) == DistinctDownloads(a) + DistinctDownloads(b)
  {
  }

  /** How many rows repeat a chapter already counted. */
  function Excess(manga: nat, chapters: seq<Chapter>, downloads: seq<Download>): nat {
    if chapters == [] then 0 else
      var copies := Copies(chapters[0].id, downloads);
      (if chapters[0].manga == manga && copies > 1 then copies - 1 else 0) + Excess(manga, chapters[1..], downloads)
  }

  lemma ChapterContributes(c: Chapter, downloads: seq<Download>)
    ensures var rows := WithDownloads(c, downloads);
            && DistinctChapters(rows) == {c.id}
            && DistinctDownloads(rows) == (if c.id in DownloadKeys(downloads) then {c.id} else {})
            && PlainCount(rows) == (if Copies(c.id, downloads) > 1 then Copies(c.id, downloads) else 1)
            && MissingCount(rows) == (if c.id in DownloadKeys(downloads) then 0 else 1)
            && rows != []
  {
    MatchesAre(c, downloads);
    var rows := WithDownloads(c, downloads);
    assert rows[0] in rows;
  }

  lemma ChapterIdsSplit(manga: nat, chapters: seq<Chapter>)
    requires chapters != []
    ensures ChapterIds(manga, chapters)
         == ChapterIds(manga, chapters[1..]) + (if chapters[0].manga == manga then {chapters[0].id} else {})
    ensures DistinctIds(chapters) ==> DistinctIds(chapters[1..]) && chapters[0].id !in ChapterIds(manga, chapters[1..])
  {
  }

  lemma {:induction false} InnerRowsSets(manga: nat, chapters: seq<Chapter>, downloads: seq<Download>)
    ensures var rows, ids := InnerRows(manga, chapters, downloads), ChapterIds(manga, chapters);
            DistinctChapters(rows) == ids && DistinctDownloads(rows) == ids * DownloadKeys(downloads)
  {
    if chapters != [] {
      var c, rest := chapters[0], InnerRows(manga, chapters[1..], downloads);
      InnerRowsSets(manga, chapters[1..], downloads);
      ChapterIdsSplit(manga, chapters);
      ChapterContributes(c, downloads);
      SetsAdd(if c.manga == manga then WithDownloads(c, downloads) else [], rest);
    }
  }

  lemma OneMoreMissing(ids: set<nat>, id: nat, keys: set<nat>)
    requires id !in ids
    ensures |ids + {id}| == |ids| + 1
    ensures |(ids + {id}) - keys| == |ids - keys| + (if id in keys then 0 else 1)
  {
    if id in keys {
      assert (ids + {id}) - keys == ids - keys;
    } else {
      assert (ids + {id}) - keys == (ids - keys) + {id};
    }
  }

  lemma InnerRowsStep(manga: nat, chapters: seq<Chapter>, downloads: seq<Download>)
    requires chapters != []
    ensures var c, rows, rest := chapters[0], InnerRows(manga, chapters, downloads), InnerRows(manga, chapters[1..], downloads);
            if c.manga != manga then rows == rest else
              && PlainCount(rows) == PlainCount(rest) + (if Copies(c.id, downloads) > 1 then Copies(c.id, downloads) else 1)
              && MissingCount(rows) == MissingCount(rest) + (if c.id in DownloadKeys(downloads) then 0 else 1)
  {
    var c, rest := chapters[0], InnerRows(manga, chapters[1..], downloads);
    if c.manga == manga {
      ChapterContributes(c, downloads);
      CountsAdd(WithDownloads(c, downloads), rest);
    } else {
      assert InnerRows(manga, chapters, downloads) == rest;
    }
  }

  lemma {:induction false} PlainCountIs(manga: nat, chapters: seq<Chapter>, downloads: seq<Download>)
    requires DistinctIds(chapters)
    ensures PlainCount(InnerRows(manga, chapters, downloads)) == |ChapterIds(manga, chapters)| + Excess(manga, chapters, downloads)
  {
    if chapters != [] {
      PlainCountIs(manga, chapters[1..], downloads);
      InnerRowsStep(manga, chapters, downloads);
      ChapterIdsSplit(manga, chapters);
      OneMoreMissing(ChapterIds(manga, chapters[1..]), chapters[0].id, {});
    }
  }

  lemma {:induction false} MissingCountIs(manga: nat, chapters: seq<Chapter>, downloads: seq<Download>)
    requires DistinctIds(chapters)
    ensures MissingCount(InnerRows(manga, chapters, downloads)) == |ChapterIds(manga, chapters) - DownloadKeys(downloads)|
  {
    if chapters == [] {
      assert ChapterIds(manga, chapters) == {};
    } else {
      var keys, later := DownloadKeys(downloads), ChapterIds(manga, chapters[1..]);
      MissingCountIs(manga, chapters[1..], downloads);
      InnerRowsStep(manga, chapters, downloads);
      ChapterIdsSplit(manga, chapters);
      OneMoreMissing(later, chapters[0].id, keys);
      assert chapters[0].manga != manga ==> ChapterIds(manga, chapters) == later;
    }
  }

  /**
   For every database state with unique chapter ids: the counts are cardinalities of sets of
   chapters, and what is missing and what is downloaded add up. The plain count agrees with the
   distinct one exactly when no chapter of the series has two download rows, which the primary
   key of that table ensures.
   */
  lemma CountsAreCardinalities(manga: nat, chapters: seq<Chapter>, downloads: seq<Download>)
    requires DistinctIds(chapters)
    ensures var rows, ids := Group(manga, chapters, downloads), ChapterIds(manga, chapters);
            && |DistinctChapters(rows)| == |ids|
            && |DistinctDownloads(rows)| == |ids * DownloadKeys(downloads)|
            && MissingCount(rows) == |ids - DownloadKeys(downloads)|
            && MissingCount(rows) + |DistinctDownloads(rows)| == |DistinctChapters(rows)|
            && (PlainCount(rows) == |DistinctChapters(rows)| <==> forall id | id in ids :: Copies(id, downloads) <= 1)
  {
    PlainCountIs(manga, chapters, downloads);
    MissingCountIs(manga, chapters, downloads);
    InnerRowsSets(manga, chapters, downloads);
    var ids := ChapterIds(manga, chapters);
    assert ids == (ids * DownloadKeys(downloads)) + (ids - DownloadKeys(downloads));
    ExcessVanishes(manga, chapters, downloads);
    if InnerRows(manga, chapters, downloads) == [] {
      assert DistinctChapters(InnerRows(manga, chapters, downloads)) == {};
      assert DistinctChapters(Group(manga, chapters, downloads)) == {} == DistinctDownloads(Group(manga, chapters, downloads));
    }
  }

  lemma {:induction false} ExcessVanishes(manga: nat, chapters: seq<Chapter>, downloads: seq<Download>)
    ensures Excess(manga, chapters, downloads) == 0 <==> forall id | id in ChapterIds(manga, chapters) :: Copies(id, downloads) <= 1
  {
    if chapters != [] {
      assert chapters == [chapters[0]] + chapters[1..];
      ExcessVanishes(manga, chapters[1..], downloads);
      assert ChapterIds(manga, chapters)
          == ChapterIds(manga, chapters[1..]) + (if chapters[0].manga == manga then {chapters[0].id} else {});
    }
  }
}

/**
 Chapter archives: page naming and the order readers see (crates/packaging/src/cbz.rs and
 `write_chapter` of crates/packaging/src/adapter.rs).
 */
module CbzArchive {
  import opened Wrappers
  import opened Text
  import opened Decimal

  datatype PageImage = PageImage(sourceName: string, bytes: seq<Byte>)

  datatype ZipEntry = ZipEntry(name: string, bytes: seq<Byte>, deflated: bool)

  const METADATA := "ComicInfo.xml"

  // --- naming --------------------------------------------------------------

  function AfterLastDot(s: string): string {
    if s == "" || s[|s| - 1] == '.' then "" else AfterLastDot(s[..|s| - 1]) + [s[|s| - 1]]
  }

  function ExtensionFor(sourceName: string, bytes: seq<Byte>): string {
    if [0xFF, 0xD8, 0xFF] <= bytes then "jpg"
    else if [0x89, 0x50, 0x4E, 0x47] <= bytes then "png"
    else if [0x47, 0x49, 0x46, 0x38] <= bytes then "gif"
    else if [0x52, 0x49, 0x46, 0x46] <= bytes && |bytes| >= 12 && bytes[8..12] == [0x57, 0x45, 0x42, 0x50] then "webp"
    else
      var extension := Lower(AfterLastDot(sourceName));
      if extension == "jpg" || extension == "jpeg" then "jpg"
      else if extension == "png" || extension == "gif" || extension == "webp" || extension == "avif" then extension
      else "jpg"
  }

  function PageNumberWidth(count: nat): (width: nat)
    ensures width >= 3 && width >= |Digits(count)|
  {
    if |Digits(count)| > 3 then |Digits(count)| else 3
  }

  /** The name of the page at `index` of `count`. */
  function PageName(index: nat, count: nat, extension: string): string {
    Padded(index + 1, PageNumberWidth(count)) + "." + extension
  }

  /** The bytes at an offset are the text's ASCII codes. */
  predicate Spells(bytes: seq<Byte>, at: nat, text: string) {
    at + |text| <= |bytes| && forall k | 0 <= k < |text| :: bytes[at + k] as int == text[k] as int
  }

  predicate IsJpeg(bytes: seq<Byte>) {
    |bytes| >= 3 && bytes[0] == 255 && bytes[1] == 216 && bytes[2] == 255
  }

  predicate IsPng(bytes: seq<Byte>) {
    Spells(bytes, 1, "PNG") && bytes[0] == 137
  }

  predicate IsGif(bytes: seq<Byte>) {
    Spells(bytes, 0, "GIF8")
  }

  predicate IsWebp(bytes: seq<Byte>) {
    Spells(bytes, 0, "RIFF") && Spells(bytes, 8, "WEBP")
  }

  /** What the bytes say decides, whatever the name claims. */
  lemma BytesDecide(sourceName: string, bytes: seq<Byte>)
    ensures IsJpeg(bytes) ==> ExtensionFor(sourceName, bytes) == "jpg"
    ensures IsPng(bytes) ==> ExtensionFor(sourceName, bytes) == "png"
    ensures IsGif(bytes) ==> ExtensionFor(sourceName, bytes) == "gif"
    ensures IsWebp(bytes) ==> ExtensionFor(sourceName, bytes) == "webp"
  {
    SignaturesAre(bytes);
    assert IsPng(bytes) || IsGif(bytes) || IsWebp(bytes) ==> bytes[0] as int != 255;
  }

  lemma SignaturesAre(bytes: seq<Byte>)
    ensures IsJpeg(bytes) <==> [0xFF, 0xD8, 0xFF] <= bytes
    ensures IsPng(bytes) <==> [0x89, 0x50, 0x4E, 0x47] <= bytes
    ensures IsGif(bytes) <==> [0x47, 0x49, 0x46, 0x38] <= bytes
    ensures IsWebp(bytes) <==>
              [0x52, 0x49, 0x46, 0x46] <= bytes && |bytes| >= 12 && bytes[8..12] == [0x57, 0x45, 0x42, 0x50]
  {
    var png, gif, riff, webp := "PNG", "GIF8", "RIFF", "WEBP";
    assert png[0] as int == 0x50 && png[1] as int == 0x4E && png[2] as int == 0x47;
    assert gif[0] as int == 0x47 && gif[1] as int == 0x49 && gif[2] as int == 0x46 && gif[3] as int == 0x38;
    assert riff[0] as int == 0x52 && riff[1] as int == 0x49 && riff[2] as int == 0x46 && riff[3] as int == 0x46;
    assert webp[0] as int == 0x57 && webp[1] as int == 0x45 && webp[2] as int == 0x42 && webp[3] as int == 0x50;
  }

  lemma FallsBack(sourceName: string, bytes: seq<Byte>)
    requires !IsJpeg(bytes) && !IsPng(bytes) && !IsGif(bytes) && !IsWebp(bytes)
    ensures var lower := Lower(AfterLastDot(sourceName));
            ExtensionFor(sourceName, bytes) ==
            if lower == "png" || lower == "gif" || lower == "webp" || lower == "avif" then lower else "jpg"
  {
    SignaturesAre(bytes);
  }

  /** Otherwise what follows the last dot of the name does, in any case, if readers handle it. */
  lemma NameDecides(stem: string, extension: string, bytes: seq<Byte>)
    requires '.' !in extension && !IsJpeg(bytes) && !IsPng(bytes) && !IsGif(bytes) && !IsWebp(bytes)
    ensures var lower := Lower(extension);
            ExtensionFor(stem + "." + extension, bytes) == ExtensionFor(extension, bytes)
            == if lower == "png" || lower == "gif" || lower == "webp" || lower == "avif" then lower else "jpg"
  {
    AfterLastDotIs(stem + ".", extension);
    AfterLastDotIs("", extension);
    assert "" + extension == extension;
    FallsBack(stem + "." + extension, bytes);
    FallsBack(extension, bytes);
  }

  lemma {:induction false} AfterLastDotIs(before: string, extension: string)
    requires '.' !in extension && (before == "" || before[|before| - 1] == '.')
    ensures AfterLastDot(before + extension) == extension
  {
    if extension == "" {
      assert before + "" == before;
    } else {
      var n := |extension| - 1;
      AfterLastDotIs(before, extension[..n]);
      assert (before + extension)[..|before| + n] == before + extension[..n];
    }
  }

  /** Three digits up to 999 pages, then as many as the count has, and the number is the page's own. */
  lemma PageNameIs(index: nat, count: nat, extension: string)
    requires index < count
    ensures var name, width := PageName(index, count, extension), if count < 1000 then 3 else |Digits(count)|;
            && |name| == width + 1 + |extension| && name[width] == '.' && name[width + 1..] == extension
            && AllDigits(name[..width]) && Value(name[..width]) == index + 1
  {
    var width := PageNumberWidth(count);
    DigitsOfThousands(count);
    LongerNumbers(index + 1, count);
    ValueOfPadded(index + 1, width);
    assert PageName(index, count, extension)[..width] == Padded(index + 1, width);
  }

  lemma DigitsOfThousands(n: nat)
    ensures n < 1000 <==> |Digits(n)| <= 3
  {
    assert |Digits(999)| == 3 && |Digits(1000)| == 4;
    if n < 1000 {
      LongerNumbers(n, 999);
    } else {
      LongerNumbers(1000, n);
    }
  }

  lemma {:induction false} LessAppended(a: string, x: string, b: string, y: string)
    requires |a| == |b| && TextLess(a, b)
    ensures TextLess(a + x, b + y)
  {
    if a[0] == b[0] {
      LessAppended(a[1..], x, b[1..], y);
    }
    assert (a + x)[1..] == a[1..] + x && (b + y)[1..] == b[1..] + y;
  }

  /** Whatever the count and the extensions, lexical order is reading order. */
  lemma NamesAscend(i: nat, j: nat, count: nat, x: string, y: string)
    requires i < j < count
    ensures TextLess(PageName(i, count, x), PageName(j, count, y))
    ensures PageName(i, count, x) != METADATA
  {
    var width := PageNumberWidth(count);
    var a, b := Padded(i + 1, width), Padded(j + 1, width);
    LongerNumbers(i + 1, count);
    LongerNumbers(j + 1, count);
    ValueOfPadded(i + 1, width);
    ValueOfPadded(j + 1, width);
    LexicalIsNumeric(a, b);
    LessAppended(a, "." + x, b, "." + y);
    ConcatAssociates(a, ".", x);
    ConcatAssociates(b, ".", y);
    NotMetadata(i, count, x);
  }

  lemma NotMetadata(index: nat, count: nat, extension: string)
    ensures PageName(index, count, extension) != METADATA
  {
    assert IsDigit(Padded(index + 1, PageNumberWidth(count))[0]);
    assert PageName(index, count, extension)[0] != 'C';
  }

  // --- writing -------------------------------------------------------------

  function PageEntries(pages: seq<PageImage>): (entries: seq<ZipEntry>)
    ensures |entries| == |pages|
    ensures forall i | 0 <= i < |pages| ::
              entries[i] == ZipEntry(PageName(i, |pages|, ExtensionFor(pages[i].sourceName, pages[i].bytes)), pages[i].bytes, false)
  {
    seq(|pages|, i requires 0 <= i < |pages| =>
      ZipEntry(PageName(i, |pages|, ExtensionFor(pages[i].sourceName, pages[i].bytes)), pages[i].bytes, false))
  }

  predicate HasName(entries: seq<ZipEntry>, name: string) {
    exists i | 0 <= i < |entries| :: entries[i].name == name
  }

  class ZipWriter {
    var entries: seq<ZipEntry>

    constructor ()
      ensures entries == []
    {
      entries := [];
    }

    /** Starts a file and writes it; a name already in the archive is refused. */
    method AddFile(name: string, bytes: seq<Byte>, deflated: bool) returns (ok: bool)
      modifies this
      ensures ok <==> forall i | 0 <= i < |old(entries)| :: old(entries)[i].name != name
      ensures entries == if ok then old(entries) + [ZipEntry(name, bytes, deflated)] else old(entries)
    {
      ok := !HasName(entries, name);
      if ok {
        entries := entries + [ZipEntry(name, bytes, deflated)];
      }
    }
  }

  /**
   Metadata first and compressed, then the pages in the given order, stored. No name is refused,
   so an archive without pages is the only thing that cannot be written.
   */
  method WriteCbz(pages: seq<PageImage>, xml: seq<Byte>) returns (r: Result<seq<ZipEntry>>)
    ensures r == if pages == [] then Err(NoPages) else Ok([ZipEntry(METADATA, xml, true)] + PageEntries(pages))
  {
    if pages == [] {
      return Err(NoPages);
    }
    var zip := new ZipWriter();
    var ok := zip.AddFile(METADATA, xml, true);
    if !ok {
      return Err(Storage);
    }
    var width := PageNumberWidth(|pages|);
    for index := 0 to |pages|
      invariant zip.entries == [ZipEntry(METADATA, xml, true)] + PageEntries(pages)[..index]
    {
      var extension := ExtensionFor(pages[index].sourceName, pages[index].bytes);
      var name := Padded(index + 1, width) + "." + extension;
      NextEntry(pages, index, xml);
      ok := zip.AddFile(name, pages[index].bytes, false);
      if !ok {
        return Err(Storage);
      }
    }
    assert PageEntries(pages)[..|pages|] == PageEntries(pages);
    return Ok(zip.entries);
  }

  lemma NewName(pages: seq<PageImage>, index: nat, xml: seq<Byte>)
    requires index < |pages|
    ensures !HasName([ZipEntry(METADATA, xml, true)] + PageEntries(pages)[..index], PageEntries(pages)[index].name)
  {
    var entries := PageEntries(pages);
    var before := [ZipEntry(METADATA, xml, true)] + entries[..index];
    NotMetadata(index, |pages|, ExtensionFor(pages[index].sourceName, pages[index].bytes));
    forall k | 0 <= k < |before| ensures before[k].name != entries[index].name {
      if k > 0 {
        assert before[k] == entries[k - 1];
        NamesDiffer(pages, k - 1, index);
      }
    }
  }

  /** The archive with one more page, whose name is new. */
  lemma NextEntry(pages: seq<PageImage>, index: nat, xml: seq<Byte>)
    requires index < |pages|
    ensures var before := [ZipEntry(METADATA, xml, true)] + PageEntries(pages)[..index];
            var name := PageName(index, |pages|, ExtensionFor(pages[index].sourceName, pages[index].bytes));
            && !HasName(before, name)
            && before + [ZipEntry(name, pages[index].bytes, false)] == [ZipEntry(METADATA, xml, true)] + PageEntries(pages)[..index + 1]
  {
    var entries := PageEntries(pages);
    NewName(pages, index, xml);
    assert entries[..index + 1] == entries[..index] + [entries[index]];
    ConcatAssociates([ZipEntry(METADATA, xml, true)], entries[..index], [entries[index]]);
  }

  lemma NamesDiffer(pages: seq<PageImage>, i: nat, j: nat)
    requires i < j < |pages|
    ensures TextLess(PageEntries(pages)[i].name, PageEntries(pages)[j].name)
    ensures PageEntries(pages)[i].name != PageEntries(pages)[j].name
  {
    NamesAscend(i, j, |pages|, ExtensionFor(pages[i].sourceName, pages[i].bytes), ExtensionFor(pages[j].sourceName, pages[j].bytes));
    TextOrder(PageEntries(pages)[i].name, PageEntries(pages)[j].name, "");
  }

  // --- reading -------------------------------------------------------------

  predicate Ascending(entries: seq<ZipEntry>) {
    forall i, j | 0 <= i < j < |entries| :: TextLess(entries[i].name, entries[j].name)
  }

  function InsertByName(e: ZipEntry, entries: seq<ZipEntry>): seq<ZipEntry> {
    if entries == [] || TextLess(e.name, entries[0].name) then [e] + entries
    else [entries[0]] + InsertByName(e, entries[1..])
  }

  /** What a reader shows: the pages, sorted by file name. */
  function ReadInOrder(listing: seq<ZipEntry>): seq<ZipEntry> {
    if listing == [] then [] else
      var rest := ReadInOrder(listing[1..]);
      if listing[0].name == METADATA then rest else InsertByName(listing[0], rest)
  }

  predicate DistinctNames(entries: seq<ZipEntry>) {
    forall i, j | 0 <= i < j < |entries| :: entries[i].name != entries[j].name
  }

  lemma {:induction false} InsertMembers(e: ZipEntry, entries: seq<ZipEntry>)
    ensures forall x | x in InsertByName(e, entries) :: x == e || x in entries
    ensures e in InsertByName(e, entries) && forall x | x in entries :: x in InsertByName(e, entries)
  {
    if entries != [] {
      assert entries == [entries[0]] + entries[1..];
      InsertMembers(e, entries[1..]);
    }
  }

  lemma FirstIsLeast(entries: seq<ZipEntry>)
    requires entries != [] && Ascending(entries)
    ensures forall x | x in entries[1..] :: TextLess(entries[0].name, x.name)
  {
  }

  lemma {:induction false} InsertAscends(e: ZipEntry, entries: seq<ZipEntry>)
    requires Ascending(entries) && forall x | x in entries :: x.name != e.name
    ensures Ascending(InsertByName(e, entries))
  {
    if entries != [] {
      var first, tail := entries[0], entries[1..];
      FirstIsLeast(entries);
      assert entries == [first] + tail;
      TextOrder(e.name, first.name, "");
      if TextLess(e.name, first.name) {
        forall x | x in tail ensures TextLess(e.name, x.name) {
          TextOrder(e.name, first.name, x.name);
        }
      } else {
        InsertAscends(e, tail);
        InsertMembers(e, tail);
      }
    }
  }

  lemma {:induction false} ReadingAscends(listing: seq<ZipEntry>)
    requires DistinctNames(listing)
    ensures Ascending(ReadInOrder(listing))
    ensures forall x | x in ReadInOrder(listing) :: x in listing && x.name != METADATA
    ensures forall x | x in listing && x.name != METADATA :: x in ReadInOrder(listing)
  {
    if listing != [] {
      assert listing == [listing[0]] + listing[1..];
      ReadingAscends(listing[1..]);
      var rest := ReadInOrder(listing[1..]);
      forall x | x in rest ensures x.name != listing[0].name {
        var i :| 0 <= i < |listing| - 1 && listing[1..][i] == x;
        assert listing[i + 1] == x;
      }
      if listing[0].name != METADATA {
        InsertAscends(listing[0], rest);
        InsertMembers(listing[0], rest);
      }
    }
  }

  lemma {:induction false} AscendingIsUnique(a: seq<ZipEntry>, b: seq<ZipEntry>)
    requires Ascending(a) && Ascending(b)
    requires forall x | x in a :: x in b
    requires forall x | x in b :: x in a
    ensures a == b
  {
    EmptyTogether(a, b);
    if a != [] {
      SameFirst(a, b);
      TailMembers(a, b);
      TailMembers(b, a);
      assert a == [a[0]] + a[1..] && b == [b[0]] + b[1..];
      AscendingIsUnique(a[1..], b[1..]);
    }
  }

  lemma EmptyTogether(a: seq<ZipEntry>, b: seq<ZipEntry>)
    requires forall x | x in a :: x in b
    requires forall x | x in b :: x in a
    ensures a == [] <==> b == []
  {
    if a != [] {
      assert a[0] in b;
    }
    if b != [] {
      assert b[0] in a;
    }
  }

  lemma SameFirst(a: seq<ZipEntry>, b: seq<ZipEntry>)
    requires a != [] && b != [] && Ascending(a) && Ascending(b)
    requires a[0] in b && b[0] in a
    ensures a[0] == b[0]
  {
    TextOrder(a[0].name, b[0].name, "");
  }

  lemma TailMembers(a: seq<ZipEntry>, b: seq<ZipEntry>)
    requires a != [] && b != [] && Ascending(a) && Ascending(b) && a[0] == b[0]
    requires forall x | x in a :: x in b
    ensures forall x | x in a[1..] :: x in b[1..]
  {
    forall x | x in a[1..] ensures x in b[1..] {
      var i :| 0 <= i < |a| - 1 && a[1..][i] == x;
      assert a[i + 1] == x && x in a;
      TextOrder(a[0].name, x.name, "");
      assert b == [b[0]] + b[1..];
    }
  }

  /** In whatever order an archive lists its entries, a reader shows the pages in the order they were written in. */
  lemma ReadersSeeTheWrittenOrder(pages: seq<PageImage>, xml: seq<Byte>, listing: seq<ZipEntry>)
    requires DistinctNames(listing)
    requires forall e | e in listing :: e in [ZipEntry(METADATA, xml, true)] + PageEntries(pages)
    requires forall e | e in [ZipEntry(METADATA, xml, true)] + PageEntries(pages) :: e in listing
    ensures ReadInOrder(listing) == PageEntries(pages)
  {
    var entries := PageEntries(pages);
    ReadingAscends(listing);
    forall i, j | 0 <= i < j < |entries| ensures TextLess(entries[i].name, entries[j].name) {
      NamesDiffer(pages, i, j);
    }
    forall e | e in entries ensures e.name != METADATA {
      var i :| 0 <= i < |entries| && entries[i] == e;
      NotMetadata(i, |pages|, ExtensionFor(pages[i].sourceName, pages[i].bytes));
    }
    AscendingIsUnique(ReadInOrder(listing), entries);
  }

  // --- a chapter's pages as they arrive ------------------------------------

  datatype Fetched = Fetched(index: nat, url: string, bytes: seq<Byte>)

  function InsertByIndex(p: Fetched, pages: seq<Fetched>): seq<Fetched> {
    if pages == [] || p.index <= pages[0].index then [p] + pages else [pages[0]] + InsertByIndex(p, pages[1..])
  }

  /** `sort_by_key`, which is stable. */
  function ByIndex(pages: seq<Fetched>): seq<Fetched> {
    if pages == [] then [] else InsertByIndex(pages[0], ByIndex(pages[1..]))
  }

  function At(index: nat, pages: seq<Fetched>): seq<Fetched> {
    if pages == [] then [] else (if pages[0].index == index then [pages[0]] else []) + At(index, pages[1..])
  }

  predicate InIndexOrder(pages: seq<Fetched>) {
    forall i, j | 0 <= i < j < |pages| :: pages[i].index <= pages[j].index
  }

  lemma {:induction false} InsertAdds(p: Fetched, pages: seq<Fetched>)
    ensures multiset(InsertByIndex(p, pages)) == multiset(pages) + multiset{p}
    ensures forall x | x in InsertByIndex(p, pages) :: x == p || x in pages
  {
    if pages != [] {
      assert pages == [pages[0]] + pages[1..];
      InsertAdds(p, pages[1..]);
    }
  }

  lemma {:induction false} InsertKeepsOrder(p: Fetched, pages: seq<Fetched>)
    requires InIndexOrder(pages)
    ensures InIndexOrder(InsertByIndex(p, pages))
  {
    if pages != [] {
      var tail := pages[1..];
      assert forall x | x in tail :: pages[0].index <= x.index;
      if p.index > pages[0].index {
        InsertKeepsOrder(p, tail);
        InsertAdds(p, tail);
      }
    }
  }

  lemma AtFirst(p: Fetched, pages: seq<Fetched>, index: nat)
    ensures At(index, [p] + pages) == (if p.index == index then [p] else []) + At(index, pages)
  {
    assert ([p] + pages)[1..] == pages;
  }

  lemma {:induction false} InsertIsStable(p: Fetched, pages: seq<Fetched>, index: nat)
    ensures At(index, InsertByIndex(p, pages)) == (if p.index == index then [p] else []) + At(index, pages)
  {
    if pages == [] || p.index <= pages[0].index {
      AtFirst(p, pages, index);
    } else {
      InsertIsStable(p, pages[1..], index);
      AtFirst(pages[0], InsertByIndex(p, pages[1..]), index);
    }
  }

  /** The pages by index: a permutation of the arrivals, equal indexes in arrival order. */
  lemma {:induction false} SortedByIndex(pages: seq<Fetched>, index: nat)
    ensures InIndexOrder(ByIndex(pages)) && multiset(ByIndex(pages)) == multiset(pages)
    ensures At(index, ByIndex(pages)) == At(index, pages)
  {
    if pages != [] {
      assert pages == [pages[0]] + pages[1..];
      SortedByIndex(pages[1..], index);
      InsertKeepsOrder(pages[0], ByIndex(pages[1..]));
      InsertAdds(pages[0], ByIndex(pages[1..]));
      InsertIsStable(pages[0], ByIndex(pages[1..]), index);
    }
  }

  function Images(pages: seq<Fetched>): (images: seq<PageImage>)
    ensures |images| == |pages| && forall i | 0 <= i < |pages| :: images[i] == PageImage(pages[i].url, pages[i].bytes)
  {
    seq(|pages|, i requires 0 <= i < |pages| => PageImage(pages[i].url, pages[i].bytes))
  }

  /**
   Packages a chapter from pages in arrival order. Without pages it is a retryable source error;
   otherwise a reader, whatever order it lists the archive in, shows the pages by index.
   */
  method PackageChapter(pages: seq<Fetched>, xml: seq<Byte>) returns (r: Result<seq<ZipEntry>>)
    ensures pages == [] ==> r == Err(Source(true))
    ensures pages != [] ==> r.Ok?
    ensures r.Ok? ==> forall listing | multiset(listing) == multiset(r.value) ::
              ReadInOrder(listing) == PageEntries(Images(ByIndex(pages)))
  {
    if pages == [] {
      return Err(Source(true));
    }
    var images := Images(ByIndex(pages));
    SortedByIndex(pages, 0);
    assert |multiset(ByIndex(pages))| == |pages|;
    r := WriteCbz(images, xml);
    forall listing | multiset(listing) == multiset(r.value) ensures ReadInOrder(listing) == PageEntries(images) {
      ListingOf(images, xml, listing, r.value);
      ReadersSeeTheWrittenOrder(images, xml, listing);
    }
  }

  lemma ListingOf(pages: seq<PageImage>, xml: seq<Byte>, listing: seq<ZipEntry>, entries: seq<ZipEntry>)
    requires entries == [ZipEntry(METADATA, xml, true)] + PageEntries(pages) && multiset(listing) == multiset(entries)
    ensures DistinctNames(listing)
    ensures forall e | e in listing :: e in entries
    ensures forall e | e in entries :: e in listing
  {
    forall e | e in listing ensures e in entries { assert e in multiset(listing); }
    forall e | e in entries ensures e in listing { assert e in multiset(entries); }
    forall i, j | 0 <= i < j < |entries| ensures entries[i].name != entries[j].name {
      NotMetadata(j - 1, |pages|, ExtensionFor(pages[j - 1].sourceName, pages[j - 1].bytes));
      if i > 0 {
        NamesDiffer(pages, i - 1, j - 1);
      }
    }
    PermutationKeepsDistinct(listing, entries);
  }

  lemma PermutationKeepsDistinct(a: seq<ZipEntry>, b: seq<ZipEntry>)
    requires multiset(a) == multiset(b) && DistinctNames(b)
    ensures DistinctNames(a)
  {
    forall i, j | 0 <= i < j < |a| ensures a[i].name != a[j].name {
      if a[i].name == a[j].name {
        assert a[i] in multiset(b) && a[j] in multiset(b);
        assert a[i] == a[j];
        CountTwice(a, i, j);
        CountOnce(b, a[i]);
      }
    }
  }

  lemma CountTwice(a: seq<ZipEntry>, i: nat, j: nat)
    requires i < j < |a| && a[i] == a[j]
    ensures multiset(a)[a[i]] >= 2
  {
    assert a == a[..i] + [a[i]] + a[i + 1..j] + [a[j]] + a[j + 1..];
  }

  lemma {:induction false} CountOnce(b: seq<ZipEntry>, e: ZipEntry)
    requires DistinctNames(b)
    ensures multiset(b)[e] <= 1
  {
    if b != [] {
      assert b == [b[0]] + b[1..];
      CountOnce(b[1..], e);
      forall i | 0 <= i < |b| - 1 ensures b[1..][i] != b[0] {
        assert b[1..][i] == b[i + 1];
      }
    }
  }
}

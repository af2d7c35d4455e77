/** Reading chapter metadata back as a record: each element decoded on its own terms. */
module ComicInfoRecord {
  import opened Wrappers
  import opened Text
  import opened Decimal
  import opened ComicInfo

  // --- decoders ------------------------------------------------------------

  /** The text of the element of that name, if there is one. */
  function Lookup(fields: seq<Field>, name: string): Option<string> {
    if fields == [] then None else if fields[0].name == name then Some(fields[0].value) else Lookup(fields[1..], name)
  }

  function ReadDirection(text: Option<string>): Option<Direction> {
    if text == Some("YesAndRightToLeft") then Some(RightToLeft)
    else if text == Some("Yes") then Some(LeftToRight)
    else if text == Some("Unknown") then Some(Unknown)
    else None
  }

  function ReadInt(text: Option<string>): Option<int> {
    if text.None? || text.value == "" then None
    else
      var negative := text.value[0] == '-';
      var digits := if negative then text.value[1..] else text.value;
      if digits == "" || !AllDigits(digits) then None
      else
        var n: int := Value(digits);
        Some(if negative then -n else n)
  }

  /** What is between the commas, but for the space after each. */
  function ReadNames(text: Option<string>): seq<string> {
    if text.None? then [] else
      var pieces := Split(text.value, ',');
      [pieces[0]] + Unspaced(pieces[1..])
  }

  function Unspaced(pieces: seq<string>): (names: seq<string>)
    ensures |names| == |pieces|
  {
    seq(|pieces|, i requires 0 <= i < |pieces| => if pieces[i] != "" && pieces[i][0] == ' ' then pieces[i][1..] else pieces[i])
  }

  /** A text as a reader gets it; an empty one is not printed at all. */
  function ReadBackText(text: Option<string>): Option<string> {
    if text.None? || text.value == "" then None else Some(Normalized(Cleaned(text.value)))
  }

  // --- elements by name ----------------------------------------------------

  predicate DistinctNames(fields: seq<Field>) {
    forall i, j | 0 <= i < j < |fields| :: fields[i].name != fields[j].name
  }

  lemma PresentCons(fields: seq<Field>, name: string)
    requires fields != []
    ensures Lookup(Present(fields), name) ==
            if fields[0].value != "" && fields[0].name == name then Some(Normalized(Cleaned(fields[0].value)))
            else Lookup(Present(fields[1..]), name)
  {
    var rest := Present(fields[1..]);
    if fields[0].value == "" {
      assert Present(fields) == rest;
    } else {
      assert Present(fields)[1..] == rest;
    }
  }

  lemma {:induction false} NotThere(fields: seq<Field>, name: string)
    requires forall i | 0 <= i < |fields| :: fields[i].name != name
    ensures Lookup(Present(fields), name) == None
  {
    if fields != [] {
      NotThere(fields[1..], name);
      PresentCons(fields, name);
    }
  }

  lemma {:induction false} LookupPresent(fields: seq<Field>, i: nat)
    requires i < |fields| && DistinctNames(fields)
    ensures Lookup(Present(fields), fields[i].name) == ReadBackText(Some(fields[i].value))
  {
    var rest := fields[1..];
    PresentCons(fields, fields[i].name);
    if i == 0 {
      NotThere(rest, fields[0].name);
    } else {
      assert rest[i - 1] == fields[i] && DistinctNames(rest);
      LookupPresent(rest, i - 1);
    }
  }

  /** The elements in the order of the schema. */
  lemma NamesInOrder(info: ComicInfo)
    ensures |Fields(info)| == 15
    ensures var f := Fields(info);
            && f[0].name == "Title" && f[1].name == "Series" && f[2].name == "Number" && f[3].name == "Volume"
            && f[4].name == "Summary" && f[5].name == "Year" && f[6].name == "Month" && f[7].name == "Day"
            && f[8].name == "Writer" && f[9].name == "Penciller" && f[10].name == "Genre" && f[11].name == "Web"
            && f[12].name == "PageCount" && f[13].name == "LanguageISO" && f[14].name == "Manga"
  {
  }

  /** Their length and first letters tell them apart. */
  function Tag(name: string): (nat, char, char)
    requires |name| >= 2
  {
    (|name|, name[0], name[1])
  }

  lemma Tags()
    ensures Tag("Title") == (5, 'T', 'i') && Tag("Series") == (6, 'S', 'e') && Tag("Number") == (6, 'N', 'u')
    ensures Tag("Volume") == (6, 'V', 'o') && Tag("Summary") == (7, 'S', 'u') && Tag("Year") == (4, 'Y', 'e')
    ensures Tag("Month") == (5, 'M', 'o') && Tag("Day") == (3, 'D', 'a') && Tag("Writer") == (6, 'W', 'r')
    ensures Tag("Penciller") == (9, 'P', 'e') && Tag("Genre") == (5, 'G', 'e') && Tag("Web") == (3, 'W', 'e')
    ensures Tag("PageCount") == (9, 'P', 'a') && Tag("LanguageISO") == (11, 'L', 'a') && Tag("Manga") == (5, 'M', 'a')
  {
  }

  lemma FieldsAreDistinct(info: ComicInfo)
    ensures DistinctNames(Fields(info))
  {
    NamesInOrder(info);
    Tags();
  }

  /** What a reader finds under each name of the schema. */
  function Found(info: ComicInfo, name: string): Option<string> {
    var read := ReadDocument(Document(info));
    if read.Some? then Lookup(read.value, name) else None
  }

  lemma FoundIs(info: ComicInfo, i: nat)
    requires i < |Fields(info)|
    ensures Found(info, Fields(info)[i].name) == ReadBackText(Some(Fields(info)[i].value))
  {
    ReadBack(info);
    FieldsAreDistinct(info);
    LookupPresent(Fields(info), i);
  }

  // --- what the decoders make of it ----------------------------------------

  /** Text without control characters, so without carriage returns: it is read back as it is. */
  predicate IsClean(text: string) {
    forall i | 0 <= i < |text| :: !IsControl(text[i])
  }

  lemma {:induction false} CleanIsKept(text: string)
    requires IsClean(text)
    ensures Normalized(Cleaned(text)) == text
  {
    if text != "" {
      CleanIsKept(text[1..]);
      assert text == [text[0]] + text[1..];
      assert Cleaned(text)[1..] == Cleaned(text[1..]);
    }
  }

  lemma PrintIsRead(n: int)
    ensures Print(n) != "" && ReadBackText(Some(Print(n))) == Some(Print(n)) && ReadInt(Some(Print(n))) == Some(n)
  {
    CleanIsKept(Print(n));
    if n >= 0 {
      ValueOfDigits(n);
    } else {
      assert Print(n)[1..] == Digits(-n);
      ValueOfDigits(-n);
    }
  }

  lemma DirectionIsClean(direction: Direction)
    ensures IsClean(MangaValue(direction)) && MangaValue(direction) != ""
    ensures ReadDirection(Some(MangaValue(direction))) == Some(direction)
  {
  }

  /** The direction comes back, whichever it is. */
  lemma DirectionIsRead(info: ComicInfo)
    ensures ReadDirection(Found(info, "Manga")) == Some(info.direction)
  {
    NamesInOrder(info);
    FoundIs(info, 14);
    DirectionIsClean(info.direction);
    CleanIsKept(MangaValue(info.direction));
  }

  /** Numbers come back as numbers; what was not given, or is no whole volume, has no element. */
  lemma NumbersAreRead(info: ComicInfo)
    ensures ReadInt(Found(info, "PageCount")) == Some(info.pageCount)
    ensures if info.year.Some? then ReadInt(Found(info, "Year")) == Some(info.year.value) else Found(info, "Year") == None
    ensures if info.month.Some? then ReadInt(Found(info, "Month")) == Some(info.month.value) else Found(info, "Month") == None
    ensures if info.day.Some? then ReadInt(Found(info, "Day")) == Some(info.day.value) else Found(info, "Day") == None
    ensures match info.volume
            case Some(Whole(n)) => ReadInt(Found(info, "Volume")) == Some(n)
            case _ => Found(info, "Volume") == None
    ensures match info.number
            case None => Found(info, "Number") == None
            case Some(Whole(n)) => ReadInt(Found(info, "Number")) == Some(n)
            case Some(Fractional(text)) => Found(info, "Number") == ReadBackText(Some(text))
  {
    NamesInOrder(info);
    FoundIs(info, 2);
    FoundIs(info, 3);
    FoundIs(info, 5);
    FoundIs(info, 6);
    FoundIs(info, 7);
    FoundIs(info, 12);
    PrintIsRead(info.pageCount);
    if info.year.Some? { PrintIsRead(info.year.value); }
    if info.month.Some? { PrintIsRead(info.month.value); }
    if info.day.Some? { PrintIsRead(info.day.value); }
    if info.volume.Some? && info.volume.value.Whole? { PrintIsRead(info.volume.value.n); }
    if info.number.Some? && info.number.value.Whole? { PrintIsRead(info.number.value.n); }
  }

  lemma TextsAreRead(info: ComicInfo)
    ensures Found(info, "Title") == ReadBackText(info.title) && Found(info, "Series") == ReadBackText(Some(info.series))
    ensures Found(info, "Summary") == ReadBackText(info.summary) && Found(info, "Web") == ReadBackText(info.web)
    ensures Found(info, "LanguageISO") == ReadBackText(info.language)
  {
    NamesInOrder(info);
    FoundIs(info, 0);
    FoundIs(info, 1);
    FoundIs(info, 4);
    FoundIs(info, 11);
    FoundIs(info, 13);
  }

  // --- lists of names ------------------------------------------------------

  /** Names that a list separated by commas can hold. */
  predicate ArePlain(names: seq<string>) {
    forall i | 0 <= i < |names| :: names[i] != "" && ',' !in names[i] && names[i][0] != ' ' && IsClean(names[i])
  }

  function Spaced(names: seq<string>): (pieces: seq<string>)
    ensures |pieces| == |names| && forall i | 0 <= i < |names| :: pieces[i] == " " + names[i]
  {
    seq(|names|, i requires 0 <= i < |names| => " " + names[i])
  }

  lemma {:induction false} JoinedIsSplit(names: seq<string>)
    requires names != []
    ensures JoinNames(names) == Join([names[0]] + Spaced(names[1..]), ',')
  {
    if |names| == 1 {
      assert Spaced(names[1..]) == [] && [names[0]] + [] == [names[0]];
    } else {
      var rest := names[1..];
      JoinedIsSplit(rest);
      assert Spaced(rest) == [" " + rest[0]] + Spaced(rest[1..]);
      JoinCons(names[0], Spaced(rest), ',');
      SpacedHead(rest[0], Spaced(rest[1..]));
      assert ", " == "," + " ";
      ConcatAssociates(names[0] + ",", " ", JoinNames(rest));
      ConcatAssociates(names[0], ",", " ");
    }
  }

  lemma SpacedHead(name: string, pieces: seq<string>)
    ensures Join([" " + name] + pieces, ',') == " " + Join([name] + pieces, ',')
  {
    if pieces != [] {
      JoinCons(" " + name, pieces, ',');
      JoinCons(name, pieces, ',');
    }
  }

  lemma {:induction false} JoinedIsClean(names: seq<string>)
    requires ArePlain(names)
    ensures IsClean(JoinNames(names)) && (names != [] ==> JoinNames(names) != "")
  {
    if |names| > 1 {
      JoinedIsClean(names[1..]);
    }
  }

  lemma NamesAreReadBack(names: seq<string>)
    requires ArePlain(names)
    ensures ReadNames(ReadBackText(Some(JoinNames(names)))) == names
  {
    JoinedIsClean(names);
    CleanIsKept(JoinNames(names));
    if names != [] {
      var pieces := [names[0]] + Spaced(names[1..]);
      JoinedIsSplit(names);
      SplitJoin(pieces, ',');
      assert pieces[1..] == Spaced(names[1..]);
      assert Unspaced(pieces[1..]) == names[1..];
      assert names == [names[0]] + names[1..];
    }
  }

  /** The people and genres come back one by one. */
  lemma NamesAreRead(info: ComicInfo)
    ensures ArePlain(info.writers) ==> ReadNames(Found(info, "Writer")) == info.writers
    ensures ArePlain(info.pencillers) ==> ReadNames(Found(info, "Penciller")) == info.pencillers
    ensures ArePlain(info.genres) ==> ReadNames(Found(info, "Genre")) == info.genres
  {
    NamesInOrder(info);
    FoundIs(info, 8);
    FoundIs(info, 9);
    FoundIs(info, 10);
    if ArePlain(info.writers) { NamesAreReadBack(info.writers); }
    if ArePlain(info.pencillers) { NamesAreReadBack(info.pencillers); }
    if ArePlain(info.genres) { NamesAreReadBack(info.genres); }
  }
}

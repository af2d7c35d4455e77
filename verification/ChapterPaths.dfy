/** Where a chapter goes: `series_dir` and `chapter_stem` (crates/packaging/src/paths.rs). */
module ChapterPaths {
  import opened Wrappers
  import opened Text
  import opened Decimal
  import opened Paths

  function SeriesDir(title: string, disambiguator: Option<string>): Result<string> {
    var base := Sanitized(title);
    if base.Err? || disambiguator.None? then base
    else
      var slug := Sanitized(disambiguator.value);
      if slug.Err? then slug else Sanitized(base.value + " [" + slug.value + "]")
  }

  /** A volume or chapter number as `pad_number` prints it. */
  predicate IsPadded(text: string) {
    text != "" && IsDigit(text[|text| - 1]) && forall i | 0 <= i < |text| :: IsDigit(text[i]) || text[i] == '.' || text[i] == '-'
  }

  predicate ArePadded(volume: Option<string>, number: Option<string>) {
    (volume.Some? ==> IsPadded(volume.value)) && (number.Some? ==> IsPadded(number.value))
  }

  function Markers(volume: Option<string>, number: Option<string>): string {
    (if volume.Some? then " v" + volume.value else "") + (if number.Some? then " c" + number.value else "")
  }

  function ChapterStem(series: string, volume: Option<string>, number: Option<string>): Result<string> {
    var base := Sanitized(series);
    if base.Err? then base else Sanitized(base.value + Markers(volume, number))
  }

  function FileName(stem: string): string {
    stem + ".cbz"
  }

  // --- markers -------------------------------------------------------------

  /** What a marker string looks like: pieces of digits, dots and dashes, each behind ` v` or ` c`. */
  predicate IsMarkerText(m: string) {
    && |m| >= 3 && m[0] == ' ' && IsDigit(m[|m| - 1])
    && forall i | 0 <= i < |m| ::
         && (m[i] == ' ' || m[i] == 'v' || m[i] == 'c' || m[i] == '.' || m[i] == '-' || IsDigit(m[i]))
         && (m[i] == ' ' ==> i + 1 < |m| && (m[i + 1] == 'v' || m[i + 1] == 'c'))
  }

  lemma MarkersAreMarkerText(volume: Option<string>, number: Option<string>)
    requires ArePadded(volume, number) && (volume.Some? || number.Some?)
    ensures IsMarkerText(Markers(volume, number))
  {
  }

  lemma SpaceAfter(a: string, x: string)
    requires ' ' !in a && (x == "" || x[0] == ' ')
    ensures x == "" ==> ' ' !in a + x
    ensures x != "" ==> IndexOf(a + x, ' ') == Some(|a|)
  {
    if x != "" {
      FirstSeparator(a, ' ', x[1..]);
      assert a + x == a + [' '] + x[1..];
    }
  }

  lemma SameUpToSpace(a: string, x: string, b: string, y: string)
    requires ' ' !in a && ' ' !in b && (x == "" || x[0] == ' ') && (y == "" || y[0] == ' ')
    requires a + x == b + y
    ensures a == b && x == y
  {
    SpaceAfter(a, x);
    SpaceAfter(b, y);
    assert a == (a + x)[..|a|] && x == (a + x)[|a|..];
    assert b == (b + y)[..|b|] && y == (b + y)[|b|..];
  }

  /** Different volumes or numbers are marked differently. */
  lemma MarkersDiffer(v: Option<string>, n: Option<string>, v': Option<string>, n': Option<string>)
    requires ArePadded(v, n) && ArePadded(v', n') && Markers(v, n) == Markers(v', n')
    ensures v == v' && n == n'
  {
    var m, m' := Markers(v, n), Markers(v', n');
    var tail, tail' := if n.Some? then " c" + n.value else "", if n'.Some? then " c" + n'.value else "";
    assert v.Some? ==> m[1] == 'v' && m[2..] == v.value + tail;
    assert v'.Some? ==> m'[1] == 'v' && m'[2..] == v'.value + tail';
    assert v.None? ==> m == tail;
    assert v'.None? ==> m' == tail';
    if v.Some? && v'.Some? {
      SameUpToSpace(v.value, tail, v'.value, tail');
    }
    assert n.Some? ==> tail[2..] == n.value;
    assert n'.Some? ==> tail'[2..] == n'.value;
  }

  // --- stems ---------------------------------------------------------------

  lemma MarkedIsNeat(base: string, m: string)
    requires IsNeat(base) && IsMarkerText(m)
    ensures IsNeat(base + m) && (base + m)[|base + m| - 1] != '-'
  {
  }

  /** With a marker after it, no name is reserved, unless its part before a dot already was. */
  lemma MarkedIsNotReserved(base: string, m: string)
    requires base != "" && IsMarkerText(m) && (IsReserved(Stem(base)) ==> '.' !in base)
    ensures !IsReserved(Stem(base + m))
  {
    var name := base + m;
    assert name[..|base|] == base;
    if '.' in base {
      StemOfPrefix(name, |base|);
    } else if IsReserved(Stem(name)) {
      ReservedIsPlain(Stem(name));
      StemIs(name);
    }
  }

  lemma ReservedHasNoDot(name: string)
    requires IsReserved(name)
    ensures '.' !in name
  {
    ReservedIsPlain(name);
  }

  lemma CutHasNoDot(name: string)
    requires IsNeat(name) && !IsReserved(Stem(name))
    ensures IsReserved(Stem(Cut(name))) ==> '.' !in Cut(name)
  {
    FitIsCut(name);
    if IsReserved(Stem(Cut(name))) && ByteLength(name) > MAX_COMPONENT_BYTES {
      UncoversReserved(name, Cut(name));
      ReservedHasNoDot(Cut(name));
    }
  }

  lemma SeriesHasNoDot(series: string)
    ensures Sanitized(series).Ok? && IsReserved(Stem(Sanitized(series).value)) ==> '.' !in Sanitized(series).value
  {
    TrimmedIsNeat(series);
    SanitizedFits(series);
    if Trimmed(series) != "" {
      GuardedIsNeat(Trimmed(series));
      CutHasNoDot(Guarded(Trimmed(series)));
      FitIsCut(Guarded(Trimmed(series)));
    }
  }

  lemma NeatIsOnlyCut(name: string)
    requires IsNeat(name) && name[|name| - 1] != '-' && !IsReserved(Stem(name))
    ensures Sanitized(name) == Fit(name)
  {
    NeatIsTrimmed(name);
    SanitizedFits(name);
  }

  lemma MarkedIsOnlyCut(base: string, m: string)
    requires IsNeat(base) && IsMarkerText(m) && (IsReserved(Stem(base)) ==> '.' !in base)
    ensures IsNeat(base + m) && Sanitized(base + m) == Fit(base + m)
  {
    MarkedIsNeat(base, m);
    MarkedIsNotReserved(base, m);
    NeatIsOnlyCut(base + m);
  }

  // --- what the limit leaves of the markers --------------------------------

  /** The bytes left for markers behind a series name. */
  function Room(base: string): nat
    requires ByteLength(base) <= MAX_COMPONENT_BYTES
  {
    MAX_COMPONENT_BYTES - ByteLength(base)
  }

  /** Markers cut to the room there is. */
  function Kept(m: string, room: nat): string {
    TrimEnd(UpTo(m, room), IsTail)
  }

  lemma CutMarked(base: string, m: string)
    requires IsNeat(base) && ByteLength(base) <= MAX_COMPONENT_BYTES && IsMarkerText(m)
    ensures Cut(base + m) == base + Kept(m, Room(base))
  {
    TruncatedAscii(base, m);
    TrimEndConcat(base, UpTo(m, Room(base)));
  }

  /** A chapter's name is its series' name and what the limit leaves of its markers. */
  lemma StemIsMarked(series: string, volume: Option<string>, number: Option<string>)
    requires ArePadded(volume, number) && (volume.Some? || number.Some?)
    ensures Sanitized(series).Ok? ==>
              var base := Sanitized(series).value;
              && ByteLength(base) <= MAX_COMPONENT_BYTES
              && ChapterStem(series, volume, number) == Ok(base + Kept(Markers(volume, number), Room(base)))
  {
    SanitizedIsSafe(series);
    SeriesHasNoDot(series);
    MarkersAreMarkerText(volume, number);
    if Sanitized(series).Ok? {
      var base, m := Sanitized(series).value, Markers(volume, number);
      MarkedIsOnlyCut(base, m);
      FitIsCut(base + m);
      CutMarked(base, m);
    }
  }

  /** Sanitizing the name again changes nothing. */
  predicate IsSettled(base: string) {
    base != "" && base[|base| - 1] != '-' && !IsReserved(Stem(base))
  }

  lemma UnmarkedStem(base: string, kept: string)
    requires IsNeat(base) && ByteLength(base) <= MAX_COMPONENT_BYTES
    ensures Sanitized(base) == Ok(base + kept) <==> IsSettled(base) && kept == ""
  {
    NeatAgain(base);
    NotLonger(base);
    assert base + "" == base;
  }

  /** Sanitizing a neat name again never adds to its end. */
  lemma NotLonger(base: string)
    requires IsNeat(base) && ByteLength(base) <= MAX_COMPONENT_BYTES
    ensures Sanitized(base).Ok? && base <= Sanitized(base).value ==> Sanitized(base).value == base
  {
    SanitizedNeat(base);
    if IsReserved(Stem(Trimmed(base))) {
      ReservedHead(Trimmed(base));
    }
  }

  predicate IsUnmarked(volume: Option<string>, number: Option<string>) {
    volume.None? && number.None?
  }

  /** The limit leaves the same of both chapters' markers; without markers the series name must also be settled. */
  predicate CutAlike(base: string, v: Option<string>, n: Option<string>, v': Option<string>, n': Option<string>)
    requires ByteLength(base) <= MAX_COMPONENT_BYTES
  {
    && Kept(Markers(v, n), Room(base)) == Kept(Markers(v', n'), Room(base))
    && (IsUnmarked(v, n) || IsUnmarked(v', n') ==> IsSettled(base))
  }

  lemma NothingToKeep(room: nat)
    ensures Markers(None, None) == "" && Kept("", room) == ""
  {
  }

  lemma StemIsUnmarked(series: string)
    ensures Sanitized(series).Ok? ==> ChapterStem(series, None, None) == Sanitized(Sanitized(series).value)
  {
    if Sanitized(series).Ok? {
      assert Sanitized(series).value + Markers(None, None) == Sanitized(series).value;
    }
  }

  lemma StemsBesideUnmarked(series: string, volume: Option<string>, number: Option<string>)
    requires ArePadded(volume, number) && !IsUnmarked(volume, number)
    ensures Sanitized(series).Ok? ==>
              var base := Sanitized(series).value;
              && ByteLength(base) <= MAX_COMPONENT_BYTES
              && (ChapterStem(series, volume, number) == ChapterStem(series, None, None)
                  <==> Kept(Markers(volume, number), Room(base)) == "" && IsSettled(base))
  {
    SanitizedIsSafe(series);
    StemIsMarked(series, volume, number);
    StemIsUnmarked(series);
    if Sanitized(series).Ok? {
      UnmarkedStem(Sanitized(series).value, Kept(Markers(volume, number), Room(Sanitized(series).value)));
    }
  }

  lemma StemsBothMarked(series: string, v: Option<string>, n: Option<string>, v': Option<string>, n': Option<string>)
    requires ArePadded(v, n) && ArePadded(v', n') && !IsUnmarked(v, n) && !IsUnmarked(v', n')
    ensures Sanitized(series).Ok? ==>
              var base := Sanitized(series).value;
              && ByteLength(base) <= MAX_COMPONENT_BYTES
              && (ChapterStem(series, v, n) == ChapterStem(series, v', n')
                  <==> Kept(Markers(v, n), Room(base)) == Kept(Markers(v', n'), Room(base)))
  {
    StemIsMarked(series, v, n);
    StemIsMarked(series, v', n');
    if Sanitized(series).Ok? {
      var base := Sanitized(series).value;
      SameAfter(base, Kept(Markers(v, n), Room(base)), Kept(Markers(v', n'), Room(base)));
    }
  }

  lemma StemsBesideMarked(series: string, v: Option<string>, n: Option<string>, v': Option<string>, n': Option<string>)
    requires ArePadded(v, n) && ArePadded(v', n') && !IsUnmarked(v, n)
    ensures Sanitized(series).Ok? ==>
              && ByteLength(Sanitized(series).value) <= MAX_COMPONENT_BYTES
              && (ChapterStem(series, v, n) == ChapterStem(series, v', n')
                  <==> CutAlike(Sanitized(series).value, v, n, v', n'))
  {
    SanitizedIsSafe(series);
    if Sanitized(series).Ok? {
      if IsUnmarked(v', n') {
        NothingToKeep(Room(Sanitized(series).value));
        StemsBesideUnmarked(series, v, n);
      } else {
        StemsBothMarked(series, v, n, v', n');
      }
    }
  }

  /**
   Two chapters of one series are stored under one name exactly when the limit leaves the same of
   their markers; they never are when both names fit.
   */
  lemma StemsOfOneSeries(series: string, v: Option<string>, n: Option<string>, v': Option<string>, n': Option<string>)
    requires ArePadded(v, n) && ArePadded(v', n') && (v, n) != (v', n')
    ensures Sanitized(series).Ok? ==>
              var base := Sanitized(series).value;
              && ByteLength(base) <= MAX_COMPONENT_BYTES
              && (ChapterStem(series, v, n) == ChapterStem(series, v', n') <==> CutAlike(base, v, n, v', n'))
              && (|Markers(v, n)| <= Room(base) && |Markers(v', n')| <= Room(base) ==>
                    ChapterStem(series, v, n) != ChapterStem(series, v', n'))
  {
    if IsUnmarked(v, n) {
      StemsBesideMarked(series, v', n', v, n);
    } else {
      StemsBesideMarked(series, v, n, v', n');
    }
    if Sanitized(series).Ok? {
      FittingMarkersDiffer(v, n, v', n', Room(Sanitized(series).value));
    }
  }

  lemma SameAfter(base: string, a: string, b: string)
    ensures base + a == base + b <==> a == b
  {
    assert (base + a)[|base|..] == a && (base + b)[|base|..] == b;
  }

  lemma FittingMarkersDiffer(v: Option<string>, n: Option<string>, v': Option<string>, n': Option<string>, room: nat)
    requires ArePadded(v, n) && ArePadded(v', n') && (v, n) != (v', n')
    ensures |Markers(v, n)| <= room && |Markers(v', n')| <= room ==> Kept(Markers(v, n), room) != Kept(Markers(v', n'), room)
  {
    FittingIsKept(v, n, room);
    FittingIsKept(v', n', room);
    if Markers(v, n) == Markers(v', n') {
      MarkersDiffer(v, n, v', n');
    }
  }

  lemma FittingIsKept(volume: Option<string>, number: Option<string>, room: nat)
    requires ArePadded(volume, number)
    ensures |Markers(volume, number)| <= room ==> Kept(Markers(volume, number), room) == Markers(volume, number)
  {
    if !IsUnmarked(volume, number) {
      MarkersAreMarkerText(volume, number);
      WholeIsKept(Markers(volume, number), room);
    }
  }

  lemma WholeIsKept(m: string, room: nat)
    requires IsMarkerText(m)
    ensures |m| <= room ==> Kept(m, room) == m
  {
  }

  /** With its extension a file name is past the limit exactly when the stem is in the last four bytes of it. */
  lemma ExtensionOverflows(stem: string)
    ensures ByteLength(FileName(stem)) > MAX_COMPONENT_BYTES <==> ByteLength(stem) + 4 > MAX_COMPONENT_BYTES
  {
    AsciiConcat(stem, ".cbz");
  }

  lemma PlainSeries(title: string)
    requires IsPlain(title) && IsAsciiLetter(title[|title| - 1]) && |title| <= MAX_COMPONENT_BYTES
    ensures Sanitized(title) == Ok(title) && ByteLength(title) == |title|
  {
    PlainIsFree(title);
    SanitizedPlain(title);
  }

  lemma StemOfPlain(title: string, volume: Option<string>, number: Option<string>)
    requires IsPlain(title) && IsAsciiLetter(title[|title| - 1]) && |title| <= MAX_COMPONENT_BYTES
    requires ArePadded(volume, number)
    ensures ChapterStem(title, volume, number) == Ok(title + Kept(Markers(volume, number), MAX_COMPONENT_BYTES - |title|))
  {
    PlainSeries(title);
    if IsUnmarked(volume, number) {
      StemIsUnmarked(title);
      NothingToKeep(MAX_COMPONENT_BYTES - |title|);
      assert title + "" == title;
    } else {
      StemIsMarked(title, volume, number);
    }
  }

  lemma KeptOfVolume(volume: string, number: string)
    requires |volume| == 2 && IsPadded(volume)
    ensures Kept(Markers(Some(volume), Some(number)), 5) == " v" + volume
  {
    var m := Markers(Some(volume), Some(number));
    assert m[..4] == " v" + volume && m[4] == ' ';
    TrimEndAt(m[..5], 4);
    assert m[..5][..4] == m[..4];
  }

  lemma VolumeNamesAll(title: string, volume: string, number: string)
    requires |title| == 250 && IsPlain(title) && IsAsciiLetter(title[249])
    requires |volume| == 2 && IsPadded(volume) && IsPadded(number)
    ensures ChapterStem(title, Some(volume), Some(number)) == Ok(title + (" v" + volume))
  {
    KeptOfVolume(volume, number);
    StemOfPlain(title, Some(volume), Some(number));
  }

  lemma TitleNamesAll(title: string, volume: Option<string>, number: Option<string>)
    requires |title| == 255 && IsPlain(title) && IsAsciiLetter(title[254]) && ArePadded(volume, number)
    ensures ChapterStem(title, volume, number) == Ok(title)
  {
    StemOfPlain(title, volume, number);
    NothingKept(Markers(volume, number));
    assert title + "" == title;
  }

  lemma RepeatedIsPlain(title: string, n: nat)
    requires title == Repeated('a', n) && n > 4
    ensures |title| == n && IsPlain(title) && IsAsciiLetter(title[n - 1])
  {
  }

  lemma NumberIsPadded(volume: string, first: string, second: string)
    requires (volume, first, second) == ("01", "001", "002")
    ensures |volume| == 2 && IsPadded(volume) && IsPadded(first) && IsPadded(second) && first != second
  {
    assert second[2] == '2';
  }

  lemma VolumeIsShared(title: string, volume: string, first: string, second: string)
    requires |title| == 250 && IsPlain(title) && IsAsciiLetter(title[249])
    requires |volume| == 2 && IsPadded(volume) && IsPadded(first) && IsPadded(second)
    ensures ChapterStem(title, Some(volume), Some(first)) == Ok(title + (" v" + volume))
    ensures ChapterStem(title, Some(volume), Some(second)) == Ok(title + (" v" + volume))
  {
    VolumeNamesAll(title, volume, first);
    VolumeNamesAll(title, volume, second);
  }

  /** A title of 250 bytes: two chapters of a volume get one name, and so share a file. */
  lemma ChaptersShareAFile(title: string, volume: string, first: string, second: string)
    requires title == Repeated('a', 250) && (volume, first, second) == ("01", "001", "002")
    ensures ChapterStem(title, Some(volume), Some(first)) == Ok(title + (" v" + volume))
    ensures ChapterStem(title, Some(volume), Some(second)) == Ok(title + (" v" + volume))
  {
    RepeatedIsPlain(title, 250);
    NumberIsPadded(volume, first, second);
    VolumeIsShared(title, volume, first, second);
  }

  /** A title of 255 bytes: every chapter gets the title alone, and the extension is past the limit. */
  lemma TitleFillsTheLimit(title: string, volume: Option<string>, number: Option<string>)
    requires title == Repeated('a', 255) && ArePadded(volume, number)
    ensures ChapterStem(title, volume, number) == Ok(title) && ByteLength(FileName(title)) > MAX_COMPONENT_BYTES
  {
    RepeatedIsPlain(title, 255);
    PlainIsFree(title);
    TitleNamesAll(title, volume, number);
    ExtensionOverflows(title);
  }

  lemma NothingKept(m: string)
    ensures Kept(m, 0) == ""
  {
  }

  lemma SanitizedIsVisible(text: string)
    ensures Sanitized(text).Ok? ==>
              var name := Sanitized(text).value;
              && name != "" && name[0] != '.' && ByteLength(name) <= MAX_COMPONENT_BYTES
              && forall i | 0 <= i < |name| :: name[i] != '/' && name[i] != '\\' && !IsControl(name[i])
  {
    SanitizedIsSafe(text);
    if Sanitized(text).Ok? {
      var name := Sanitized(text).value;
      assert IsNeat(name) && forall i | 0 <= i < |name| :: IsClean(name[i]);
    }
  }

  /** The directory of a series is an ordinary, visible component, whatever the source called it. */
  lemma SeriesDirIsSafe(title: string, disambiguator: Option<string>)
    ensures SeriesDir(title, disambiguator).Ok? ==>
              var dir := SeriesDir(title, disambiguator).value;
              && dir != "" && dir[0] != '.' && ByteLength(dir) <= MAX_COMPONENT_BYTES
              && forall i | 0 <= i < |dir| :: dir[i] != '/' && dir[i] != '\\' && !IsControl(dir[i])
  {
    SanitizedIsVisible(title);
    if disambiguator.Some? && Sanitized(title).Ok? && Sanitized(disambiguator.value).Ok? {
      SanitizedIsVisible(Sanitized(title).value + " [" + Sanitized(disambiguator.value).value + "]");
    }
  }
}

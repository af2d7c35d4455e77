/**
 Printing chapter metadata as XML, and reading it back (crates/packaging/src/comicinfo.rs). The
 reader follows XML 1.0: entity references (section 4.6), line ends (section 2.11) and the
 characters a document may hold (section 2.2).
 */
module ComicInfo {
  import opened Wrappers
  import opened Text
  import Decimal

  // --- escaping ------------------------------------------------------------

  /** The control characters that are dropped. */
  predicate IsDropped(c: char) {
    IsControl(c) && c != '\n' && c != '\r' && c != '\t'
  }

  /** All control characters but tab, line feed and carriage return. */
  lemma DroppedAre(c: char)
    ensures var n := c as int;
            IsDropped(c) <==> n <= 0x8 || n == 0xB || n == 0xC || 0xE <= n <= 0x1F || 0x7F <= n <= 0x9F
  {
  }

  function EscapeChar(c: char): string {
    match c
    case '&' => "&amp;"
    case '<' => "&lt;"
    case '>' => "&gt;"
    case '"' => "&quot;"
    case '\'' => "&apos;"
    case _ => if IsDropped(c) then "" else [c]
  }

  function Escaped(text: string): string {
    if text == "" then "" else EscapeChar(text[0]) + Escaped(text[1..])
  }

  method Escape(text: string) returns (out: string)
    ensures out == Escaped(text)
  {
    out := "";
    assert text[0..] == text;
    for i := 0 to |text|
      invariant out + Escaped(text[i..]) == Escaped(text)
    {
      ghost var rest := text[i..];
      assert rest[0] == text[i] && rest[1..] == text[i + 1..];
      ConcatAssociates(out, EscapeChar(text[i]), Escaped(text[i + 1..]));
      out := out + EscapeChar(text[i]);
    }
    assert text[|text|..] == "" && out + "" == out;
  }

  function Cleaned(text: string): string {
    if text == "" then "" else (if IsDropped(text[0]) then "" else [text[0]]) + Cleaned(text[1..])
  }

  // --- reading text --------------------------------------------------------

  /** Line ends as an XML processor passes them on. */
  function Normalized(s: string): string {
    if s == "" then ""
    else if s[0] == '\r' then "\n" + Normalized(if |s| > 1 && s[1] == '\n' then s[2..] else s[1..])
    else [s[0]] + Normalized(s[1..])
  }

  function Prepend(c: char, rest: Option<string>): Option<string> {
    if rest.Some? then Some([c] + rest.value) else None
  }

  /** Resolves the predefined entities; anything else that looks like markup is an error. */
  function Unescaped(s: string): Option<string> {
    if s == "" then Some("")
    else if "&amp;" <= s then Prepend('&', Unescaped(s[5..]))
    else if "&lt;" <= s then Prepend('<', Unescaped(s[4..]))
    else if "&gt;" <= s then Prepend('>', Unescaped(s[4..]))
    else if "&quot;" <= s then Prepend('"', Unescaped(s[6..]))
    else if "&apos;" <= s then Prepend('\'', Unescaped(s[6..]))
    else if s[0] == '&' || s[0] == '<' || s[0] == '>' || s[0] == '"' || s[0] == '\'' then None
    else Prepend(s[0], Unescaped(s[1..]))
  }

  function ReadText(s: string): Option<string> {
    Unescaped(Normalized(s))
  }

  lemma {:induction false} EscapedIsOfCleaned(text: string)
    ensures Escaped(text) == Escaped(Cleaned(text))
    ensures forall i | 0 <= i < |Cleaned(text)| :: !IsDropped(Cleaned(text)[i])
  {
    if text != "" {
      EscapedIsOfCleaned(text[1..]);
      if IsDropped(text[0]) {
        assert Cleaned(text) == Cleaned(text[1..]) && Escaped(text) == Escaped(text[1..]);
      } else {
        assert Cleaned(text) == [text[0]] + Cleaned(text[1..]) && Cleaned(text)[1..] == Cleaned(text[1..]);
      }
    }
  }

  lemma UnescapeChar(c: char, rest: string)
    requires !IsDropped(c)
    ensures Unescaped(EscapeChar(c) + rest) == Prepend(c, Unescaped(rest))
  {
    var e := EscapeChar(c);
    var s := e + rest;
    assert s[|e|..] == rest && e <= s && forall i | 0 <= i < |e| :: s[i] == e[i];
    var amp, lt, gt, quot := "&amp;", "&lt;", "&gt;", "&quot;";
    match c
    case '&' =>
    case '<' => assert amp[1] != s[1];
    case '>' => assert amp[1] != s[1] && lt[1] != s[1];
    case '"' => assert amp[1] != s[1] && lt[1] != s[1] && gt[1] != s[1];
    case '\'' => assert amp[2] != s[2] && lt[1] != s[1] && gt[1] != s[1] && quot[1] != s[1];
    case _ => assert amp[0] != s[0] && lt[0] != s[0] && gt[0] != s[0] && quot[0] != s[0] && s[1..] == rest;
  }

  lemma {:induction false} UnescapeEscaped(text: string)
    requires forall i | 0 <= i < |text| :: !IsDropped(text[i])
    ensures Unescaped(Escaped(text)) == Some(text)
  {
    if text != "" {
      UnescapeEscaped(text[1..]);
      UnescapeChar(text[0], Escaped(text[1..]));
      assert [text[0]] + text[1..] == text;
    }
  }

  lemma {:induction false} NormalizedConcat(a: string, b: string)
    requires '\r' !in a
    ensures Normalized(a + b) == a + Normalized(b)
  {
    if a == "" {
      assert a + b == b;
    } else {
      NormalizedConcat(a[1..], b);
      assert (a + b)[1..] == a[1..] + b;
      assert a == [a[0]] + a[1..];
    }
  }

  lemma EscapedEnds(c: char)
    ensures c == '\n' <==> "\n" <= EscapeChar(c)
    ensures c != '\r' ==> '\r' !in EscapeChar(c)
  {
    var e := EscapeChar(c);
    assert c == '\n' ==> e == [c];
    assert c != '\n' && e != "" ==> e[0] != '\n';
  }

  /** A line feed that follows a carriage return is part of the same line end. */
  function AfterReturn(next: string): string {
    if next != "" && next[0] == '\n' then next[1..] else next
  }

  lemma NormalizedReturn(next: string)
    ensures Normalized("\r" + next) == "\n" + Normalized(AfterReturn(next))
  {
    var s := "\r" + next;
    assert s[1..] == next && (|s| > 1 ==> s[2..] == next[1..]);
  }

  lemma EscapedNext(next: string)
    requires forall i | 0 <= i < |next| :: !IsDropped(next[i])
    ensures var e := Escaped(next);
            if next != "" && next[0] == '\n' then e != "" && e[0] == '\n' && e[1..] == Escaped(next[1..])
            else e == "" || e[0] != '\n'
  {
    if next != "" {
      EscapedEnds(next[0]);
      EscapedStarts(next);
    }
  }

  lemma ReturnHead(next: string)
    requires forall i | 0 <= i < |next| :: !IsDropped(next[i])
    ensures Normalized("\r" + Escaped(next))
         == "\n" + Normalized(Escaped(AfterReturn(next)))
  {
    NormalizedReturn(Escaped(next));
    EscapedNext(next);
  }

  lemma EscapedPlain(c: char, rest: string)
    requires c != '\r' && !IsDropped(c)
    ensures Normalized(Escaped([c] + rest)) == EscapeChar(c) + Normalized(Escaped(rest))
    ensures Escaped(Normalized([c] + rest)) == EscapeChar(c) + Escaped(Normalized(rest))
  {
    EscapedEnds(c);
    NormalizedConcat(EscapeChar(c), Escaped(rest));
    assert ([c] + rest)[1..] == rest;
    assert Normalized([c] + rest) == [c] + Normalized(rest);
    assert ([c] + Normalized(rest))[1..] == Normalized(rest);
  }

  lemma EscapeReturn(next: string)
    ensures Escaped("\r" + next) == "\r" + Escaped(next)
  {
    assert ("\r" + next)[1..] == next;
  }

  lemma NormalizedEscapedReturn(next: string)
    requires forall i | 0 <= i < |next| :: !IsDropped(next[i])
    requires Normalized(Escaped(AfterReturn(next))) == Escaped(Normalized(AfterReturn(next)))
    ensures Normalized(Escaped("\r" + next)) == Escaped(Normalized("\r" + next))
  {
    EscapeReturn(next);
    ReturnHead(next);
    NormalizedReturn(next);
    EscapedNewline(Normalized(AfterReturn(next)));
  }

  /** Line ends survive escaping, so normalizing them commutes with it. */
  lemma {:induction false} NormalizedEscaped(text: string)
    requires forall i | 0 <= i < |text| :: !IsDropped(text[i])
    ensures Normalized(Escaped(text)) == Escaped(Normalized(text))
    decreases |text|
  {
    if text != "" {
      var next := text[1..];
      assert text == [text[0]] + next;
      if text[0] == '\r' {
        NormalizedEscaped(AfterReturn(next));
        NormalizedEscapedReturn(next);
        assert text == "\r" + next;
      } else {
        NormalizedEscaped(next);
        EscapedPlain(text[0], next);
      }
    }
  }

  lemma EscapedNewline(rest: string)
    ensures Escaped("\n" + rest) == "\n" + Escaped(rest)
  {
    assert ("\n" + rest)[1..] == rest;
  }

  lemma EscapedStarts(text: string)
    requires text != "" && !IsDropped(text[0])
    ensures Escaped(text) != "" && (Escaped(text)[0] == '\n' <==> text[0] == '\n')
  {
  }

  /** What a reader gets for a printed text: the text without what was dropped, its line ends normalized. */
  lemma ReadEscaped(text: string)
    ensures ReadText(Escaped(text)) == Some(Normalized(Cleaned(text)))
    ensures Normalized(Cleaned(text)) == Cleaned(text) <==> '\r' !in text
  {
    EscapedIsOfCleaned(text);
    NormalizedEscaped(Cleaned(text));
    NormalizedKeeps(Cleaned(text));
    UnescapeEscaped(Normalized(Cleaned(text)));
    NormalizedIsText(Cleaned(text));
    CleanedKeepsReturns(text);
  }

  /** The shortest such text: a carriage return is read back as a line feed. */
  lemma ReturnIsReadAsFeed(text: string)
    requires text == "\r"
    ensures ReadText(Escaped(text)) == Some("\n") && Cleaned(text) == text
  {
    assert text[1..] == "" && Cleaned(text) == text && "\r" + "" == text;
    NormalizedReturn("");
    assert Normalized(text) == "\n" + "" == "\n";
    ReadEscaped(text);
  }

  lemma {:induction false} NormalizedKeeps(text: string)
    requires forall i | 0 <= i < |text| :: !IsDropped(text[i])
    ensures forall i | 0 <= i < |Normalized(text)| :: !IsDropped(Normalized(text)[i])
    decreases |text|
  {
    if text != "" {
      if text[0] == '\r' && |text| > 1 && text[1] == '\n' {
        NormalizedKeeps(text[2..]);
      } else {
        NormalizedKeeps(text[1..]);
      }
    }
  }

  lemma {:induction false} NormalizedIsText(text: string)
    ensures '\r' !in Normalized(text)
    ensures '\r' !in text ==> Normalized(text) == text
    decreases |text|
  {
    if text != "" {
      if text[0] == '\r' && |text| > 1 && text[1] == '\n' {
        NormalizedIsText(text[2..]);
      } else {
        NormalizedIsText(text[1..]);
        assert text == [text[0]] + text[1..];
      }
    }
  }

  lemma {:induction false} CleanedKeepsReturns(text: string)
    ensures '\r' in Cleaned(text) <==> '\r' in text
  {
    if text != "" {
      CleanedKeepsReturns(text[1..]);
      assert text == [text[0]] + text[1..];
    }
  }

  /** `Char` of XML 1.0; a Dafny character is never a surrogate. */
  predicate IsXmlChar(c: char) {
    var n := c as int;
    n == 0x9 || n == 0xA || n == 0xD || 0x20 <= n <= 0xFFFD || 0x1_0000 <= n
  }

  predicate AllXml(s: string) {
    forall c | c in s :: IsXmlChar(c)
  }

  predicate NoMarkup(s: string) {
    '<' !in s && '>' !in s && '"' !in s && '\'' !in s
  }

  predicate HasNonCharacter(s: string) {
    exists c | c in s :: c as int == 0xFFFE || c as int == 0xFFFF
  }

  lemma ConcatIsText(a: string, b: string)
    ensures AllXml(a + b) <==> AllXml(a) && AllXml(b)
    ensures NoMarkup(a + b) <==> NoMarkup(a) && NoMarkup(b)
    ensures HasNonCharacter(a + b) <==> HasNonCharacter(a) || HasNonCharacter(b)
  {
    if AllXml(a + b) {
      forall c | c in a ensures IsXmlChar(c) { assert c in a + b; }
      forall c | c in b ensures IsXmlChar(c) { assert c in a + b; }
    }
    if c :| c in a && (c as int == 0xFFFE || c as int == 0xFFFF) {
      assert c in a + b;
    }
    if c :| c in b && (c as int == 0xFFFE || c as int == 0xFFFF) {
      assert c in a + b;
    }
  }

  lemma CharIsText(c: char)
    ensures NoMarkup(EscapeChar(c))
    ensures AllXml(EscapeChar(c)) <==> !HasNonCharacter([c])
  {
    assert c in [c];
    if c != '&' && c != '<' && c != '>' && c != '"' && c != '\'' && !IsDropped(c) {
      assert c in EscapeChar(c);
    }
  }

  /** Escaped text holds no raw markup, and only characters a document may hold unless one of two non-characters was in it. */
  lemma {:induction false} EscapedIsText(text: string)
    ensures NoMarkup(Escaped(text))
    ensures AllXml(Escaped(text)) <==> !HasNonCharacter(text)
  {
    if text != "" {
      EscapedIsText(text[1..]);
      CharIsText(text[0]);
      ConcatIsText(EscapeChar(text[0]), Escaped(text[1..]));
      ConcatIsText([text[0]], text[1..]);
      assert text == [text[0]] + text[1..];
    }
  }

  /** U+FFFE goes out as it is, although no document may hold it. */
  lemma NonCharacterIsPrinted(text: string)
    requires |text| == 1 && text[0] as int == 0xFFFE
    ensures Escaped(text) == text && !AllXml(Escaped(text))
  {
    assert text[1..] == "" && text[0] in text;
  }

  // --- the document --------------------------------------------------------

  /** A number: whole when its fraction is below the float epsilon, else as the source prints it. */
  datatype Number = Whole(n: int) | Fractional(text: string)

  function FormatNumber(n: Number): string {
    match n
    case Whole(n) => Decimal.Print(n)
    case Fractional(text) => text
  }

  datatype Direction = RightToLeft | LeftToRight | Unknown

  function MangaValue(direction: Direction): string {
    match direction
    case RightToLeft => "YesAndRightToLeft"
    case LeftToRight => "Yes"
    case Unknown => "Unknown"
  }

  datatype ComicInfo = ComicInfo(
    series: string, title: Option<string>, number: Option<Number>, volume: Option<Number>, summary: Option<string>,
    writers: seq<string>, pencillers: seq<string>, genres: seq<string>, language: Option<string>, pageCount: nat,
    web: Option<string>, year: Option<int>, month: Option<nat>, day: Option<nat>, direction: Direction)

  function OrEmpty(s: Option<string>): string {
    if s.Some? then s.value else ""
  }

  function JoinNames(names: seq<string>): string {
    if names == [] then "" else if |names| == 1 then names[0] else names[0] + ", " + JoinNames(names[1..])
  }

  function NumberText(n: Option<Number>): string {
    if n.Some? then FormatNumber(n.value) else ""
  }

  function IntText(n: Option<int>): string {
    if n.Some? then Decimal.Print(n.value) else ""
  }

  /** A volume is written only when it is whole. */
  function VolumeText(volume: Option<Number>): string {
    if volume.Some? && volume.value.Whole? then Decimal.Print(volume.value.n) else ""
  }

  datatype Field = Field(name: string, value: string)

  const TITLE := "Title"
  const SERIES := "Series"
  const NUMBER := "Number"
  const VOLUME := "Volume"
  const SUMMARY := "Summary"
  const YEAR := "Year"
  const MONTH := "Month"
  const DAY := "Day"
  const WRITER := "Writer"
  const PENCILLER := "Penciller"
  const GENRE := "Genre"
  const WEB := "Web"
  const PAGE_COUNT := "PageCount"
  const LANGUAGE_ISO := "LanguageISO"
  const MANGA := "Manga"

  /** The fields in the order of the schema; an empty value means the field is absent. */
  function Fields(info: ComicInfo): seq<Field> {
    [
      Field(TITLE, OrEmpty(info.title)),
      Field(SERIES, info.series),
      Field(NUMBER, NumberText(info.number)),
      Field(VOLUME, VolumeText(info.volume)),
      Field(SUMMARY, OrEmpty(info.summary)),
      Field(YEAR, IntText(info.year)),
      Field(MONTH, IntText(info.month)),
      Field(DAY, IntText(info.day)),
      Field(WRITER, JoinNames(info.writers)),
      Field(PENCILLER, JoinNames(info.pencillers)),
      Field(GENRE, JoinNames(info.genres)),
      Field(WEB, OrEmpty(info.web)),
      Field(PAGE_COUNT, Decimal.Print(info.pageCount)),
      Field(LANGUAGE_ISO, OrEmpty(info.language)),
      Field(MANGA, MangaValue(info.direction))
    ]
  }

  function Opening(name: string): string {
    "<" + name + ">"
  }

  function Closing(name: string): string {
    "</" + name + ">"
  }

  function ElementText(f: Field): string {
    if f.value == "" then "" else "  " + (Opening(f.name) + (Escaped(f.value) + (Closing(f.name) + "\n")))
  }

  /** The elements of some fields, one after the other. */
  function Body(fields: seq<Field>): string {
    if fields == [] then "" else Body(fields[..|fields| - 1]) + ElementText(fields[|fields| - 1])
  }

  method Element(out: string, name: string, value: string) returns (r: string)
    ensures r == out + ElementText(Field(name, value))
  {
    r := out;
    if value == "" {
      assert out + "" == out;
      return;
    }
    var escaped := Escape(value);
    r := r + ("  " + (Opening(name) + (escaped + (Closing(name) + "\n"))));
  }

  const DECLARATION := "<?xml version=\"1.0\" encoding=\"utf-8\"?"
  const SCHEMA := "http://www.w3.org/2001/XMLSchema"
  const ROOT := "<ComicInfo xmlns:xsi=\"" + (SCHEMA + ("-instance\" xmlns:xsd=\"" + (SCHEMA + "\"")))
  const FOOTER := "</ComicInfo>\n"

  const HEADER := (DECLARATION + ">") + (("\n" + ROOT) + ">")

  function Document(info: ComicInfo): string {
    HEADER + ("\n" + (Body(Fields(info)) + FOOTER))
  }

  lemma OneMore(head: string, fields: seq<Field>, k: nat)
    requires k < |fields|
    ensures head + Body(fields[..k]) + ElementText(fields[k]) == head + Body(fields[..k + 1])
  {
    assert fields[..k + 1][..k] == fields[..k];
    ConcatAssociates(head, Body(fields[..k]), ElementText(fields[k]));
  }

  lemma NothingAdded(out: string)
    ensures out + "" == out
  {
  }

  method WriteFields(head: string, info: ComicInfo) returns (out: string)
    ensures out == head
      + ElementText(Field(TITLE, OrEmpty(info.title)))
      + ElementText(Field(SERIES, info.series))
      + ElementText(Field(NUMBER, NumberText(info.number)))
      + ElementText(Field(VOLUME, VolumeText(info.volume)))
      + ElementText(Field(SUMMARY, OrEmpty(info.summary)))
      + ElementText(Field(YEAR, IntText(info.year)))
      + ElementText(Field(MONTH, IntText(info.month)))
      + ElementText(Field(DAY, IntText(info.day)))
      + ElementText(Field(WRITER, JoinNames(info.writers)))
      + ElementText(Field(PENCILLER, JoinNames(info.pencillers)))
      + ElementText(Field(GENRE, JoinNames(info.genres)))
      + ElementText(Field(WEB, OrEmpty(info.web)))
      + ElementText(Field(PAGE_COUNT, Decimal.Print(info.pageCount)))
      + ElementText(Field(LANGUAGE_ISO, OrEmpty(info.language)))
      + ElementText(Field(MANGA, MangaValue(info.direction)))
  {
    out := head;
    out := Element(out, TITLE, OrEmpty(info.title));
    out := Element(out, SERIES, info.series);
    NothingAdded(out);
    if info.number.Some? {
      out := Element(out, NUMBER, FormatNumber(info.number.value));
    }
    NothingAdded(out);
    if info.volume.Some? && info.volume.value.Whole? {
      out := Element(out, VOLUME, FormatNumber(info.volume.value));
    }
    out := Element(out, SUMMARY, OrEmpty(info.summary));
    NothingAdded(out);
    if info.year.Some? {
      out := Element(out, YEAR, Decimal.Print(info.year.value));
    }
    NothingAdded(out);
    if info.month.Some? {
      out := Element(out, MONTH, Decimal.Print(info.month.value));
    }
    NothingAdded(out);
    if info.day.Some? {
      out := Element(out, DAY, Decimal.Print(info.day.value));
    }
    out := Element(out, WRITER, JoinNames(info.writers));
    out := Element(out, PENCILLER, JoinNames(info.pencillers));
    out := Element(out, GENRE, JoinNames(info.genres));
    out := Element(out, WEB, OrEmpty(info.web));
    out := Element(out, PAGE_COUNT, Decimal.Print(info.pageCount));
    out := Element(out, LANGUAGE_ISO, OrEmpty(info.language));
    out := Element(out, MANGA, MangaValue(info.direction));
  }

  lemma Appended(head: string, f: seq<Field>)
    requires |f| == 15
    ensures head + ElementText(f[0]) + ElementText(f[1]) + ElementText(f[2]) + ElementText(f[3]) + ElementText(f[4])
            + ElementText(f[5]) + ElementText(f[6]) + ElementText(f[7]) + ElementText(f[8]) + ElementText(f[9])
            + ElementText(f[10]) + ElementText(f[11]) + ElementText(f[12]) + ElementText(f[13]) + ElementText(f[14])
         == head + Body(f)
  {
    assert f[..0] == [] && head + Body(f[..0]) == head && f[..15] == f;
    forall k | 0 <= k < 15 ensures head + Body(f[..k]) + ElementText(f[k]) == head + Body(f[..k + 1]) {
      OneMore(head, f, k);
    }
  }

  method WriteBody(head: string, info: ComicInfo) returns (out: string)
    ensures out == head + Body(Fields(info))
  {
    out := WriteFields(head, info);
    Appended(head, Fields(info));
  }

  method ToXml(info: ComicInfo) returns (out: string)
    ensures out == Document(info)
  {
    out := WriteBody(HEADER + "\n", info);
    out := out + FOOTER;
    ghost var body := Body(Fields(info));
    ConcatAssociates(HEADER + "\n", body, FOOTER);
    ConcatAssociates(HEADER, "\n", body + FOOTER);
  }

  // --- a reader ------------------------------------------------------------

  function SkipSpace(s: string): (r: string)
    ensures |r| <= |s|
  {
    if s != "" && (s[0] == ' ' || s[0] == '\n' || s[0] == '\r' || s[0] == '\t') then SkipSpace(s[1..]) else s
  }

  /** `<name>`, and what follows it. */
  function ReadOpening(s: string): (r: Option<(string, string)>)
    ensures r.Some? ==> |r.value.1| < |s|
  {
    if s == "" || s[0] != '<' then None
    else
      match IndexOf(s, '>')
      case None => None
      case Some(end) => Some((s[1..end], s[end + 1..]))
  }

  /** `text</name>`, and what follows it. */
  function ReadContent(name: string, s: string): (r: Option<(Field, string)>)
    ensures r.Some? ==> |r.value.1| <= |s|
  {
    match IndexOf(s, '<')
    case None => None
    case Some(lt) =>
      var value := ReadText(s[..lt]);
      if value.Some? && "</" + name + ">" <= s[lt..]
      then Some((Field(name, value.value), s[lt + |"</" + name + ">"|..]))
      else None
  }

  function ReadElement(s: string): (r: Option<(Field, string)>)
    ensures r.Some? ==> |r.value.1| < |s|
  {
    match ReadOpening(s)
    case None => None
    case Some((name, content)) => ReadContent(name, content)
  }

  function ReadBody(s: string): Option<seq<Field>>
    decreases |s|
  {
    var rest := SkipSpace(s);
    if "</ComicInfo>" <= rest then Some([])
    else
      match ReadElement(rest)
      case None => None
      case Some((field, after)) =>
        match ReadBody(after)
        case None => None
        case Some(fields) => Some([field] + fields)
  }

  /** Past one tag. */
  function SkipTag(s: string): Option<string> {
    match IndexOf(s, '>')
    case None => None
    case Some(at) => Some(s[at + 1..])
  }

  function ReadDocument(s: string): Option<seq<Field>> {
    var afterDeclaration := SkipTag(s);
    if afterDeclaration.None? then None
    else
      var afterRoot := SkipTag(afterDeclaration.value);
      if afterRoot.None? then None else ReadBody(afterRoot.value)
  }

  // --- reading what was printed --------------------------------------------

  /** What a reader is to find: the fields with a value, in order, as read. */
  function Present(fields: seq<Field>): seq<Field> {
    if fields == [] then [] else
      (if fields[0].value == "" then [] else [Field(fields[0].name, Normalized(Cleaned(fields[0].value)))]) + Present(fields[1..])
  }

  lemma {:induction false} BodyFromFront(fields: seq<Field>)
    requires fields != []
    ensures Body(fields) == ElementText(fields[0]) + Body(fields[1..])
  {
    var n := |fields| - 1;
    if n == 0 {
      assert fields[..0] == [] == fields[1..] && Body(fields) == "" + ElementText(fields[0]);
      assert ElementText(fields[0]) + "" == ElementText(fields[0]);
    } else {
      BodyFromFront(fields[..n]);
      assert fields[..n][1..] == fields[1..][..n - 1] && fields[..n][0] == fields[0] && fields[1..][n - 1] == fields[n];
      ConcatAssociates(ElementText(fields[0]), Body(fields[1..][..n - 1]), ElementText(fields[n]));
    }
  }

  predicate IsName(s: string) {
    s != "" && forall i | 0 <= i < |s| :: IsAsciiLetter(s[i])
  }

  lemma ReadOneOpening(name: string, content: string)
    requires IsName(name)
    ensures ReadOpening(Opening(name) + content) == Some((name, content))
  {
    var tag := "<" + name;
    assert '>' !in tag && Opening(name) == tag + ['>'];
    FirstSeparator(tag, '>', content);
    var s := tag + ['>'] + content;
    assert s[1..|tag|] == name && s[0] == '<';
  }

  lemma ReadOneContent(name: string, text: string, value: string, after: string)
    requires '<' !in text && ReadText(text) == Some(value)
    ensures ReadContent(name, text + (Closing(name) + after)) == Some((Field(name, value), after))
  {
    var rest := Closing(name) + after;
    ClosingStarts(name, after);
    ConcatAssociates(text, ['<'], rest[1..]);
    FirstSeparator(text, '<', rest[1..]);
    AfterText(text, Closing(name), after);
  }

  lemma ReadOneElement(name: string, text: string, value: string, after: string)
    requires IsName(name) && '<' !in text && ReadText(text) == Some(value)
    ensures ReadElement(Opening(name) + (text + (Closing(name) + after))) == Some((Field(name, value), after))
  {
    ReadOneOpening(name, text + (Closing(name) + after));
    ReadOneContent(name, text, value, after);
  }

  lemma ClosingStarts(name: string, after: string)
    ensures Closing(name) + after == ['<'] + (Closing(name) + after)[1..]
  {
  }

  lemma AfterText(text: string, closing: string, after: string)
    ensures var content := text + (closing + after);
            && content[|text|..] == closing + after && closing <= closing + after
            && content[|text| + |closing|..] == after && content[..|text|] == text
  {
  }

  lemma {:induction false} ReadPrinted(fields: seq<Field>)
    requires forall i | 0 <= i < |fields| :: IsName(fields[i].name)
    ensures ReadBody(Body(fields) + FOOTER) == Some(Present(fields))
    ensures ReadBody("\n" + (Body(fields) + FOOTER)) == Some(Present(fields))
  {
    var s := Body(fields) + FOOTER;
    assert ("\n" + s)[1..] == s && SkipSpace("\n" + s) == SkipSpace(s);
    if fields == [] {
      assert s == FOOTER;
    } else {
      ReadPrinted(fields[1..]);
      var f, rest := fields[0], Body(fields[1..]) + FOOTER;
      BodyFromFront(fields);
      ConcatAssociates(ElementText(f), Body(fields[1..]), FOOTER);
      if f.value == "" {
        assert s == rest && Present(fields) == Present(fields[1..]);
      } else {
        ReadEscaped(f.value);
        EscapedIsText(f.value);
        ReadNamed(f.name, Escaped(f.value), Normalized(Cleaned(f.value)), rest);
      }
    }
  }

  lemma ReadNamed(name: string, text: string, value: string, rest: string)
    requires IsName(name) && '<' !in text && ReadText(text) == Some(value) && ReadBody("\n" + rest).Some?
    ensures ReadBody("  " + (Opening(name) + (text + (Closing(name) + "\n"))) + rest)
         == Some([Field(name, value)] + ReadBody("\n" + rest).value)
  {
    var after := "\n" + rest;
    var element := Opening(name) + (text + (Closing(name) + after));
    ReadOneElement(name, text, value, after);
    Regrouped(Opening(name), text, Closing(name), rest);
    NotTheEnd(name, text + (Closing(name) + after));
    SkipsIndent(element);
    ReadBodyStep("  " + element, element, Field(name, value), after);
  }

  lemma NotTheEnd(name: string, content: string)
    requires IsName(name)
    ensures var element := Opening(name) + content;
            element != "" && element[0] == '<' && !("</ComicInfo>" <= element)
  {
    assert (Opening(name) + content)[1] == name[0] && "</ComicInfo>"[1] == '/';
  }

  lemma ReadBodyStep(s: string, element: string, field: Field, after: string)
    requires SkipSpace(s) == element && !("</ComicInfo>" <= element)
    requires ReadElement(element) == Some((field, after)) && ReadBody(after).Some?
    ensures ReadBody(s) == Some([field] + ReadBody(after).value)
  {
  }

  lemma Regrouped(opening: string, text: string, closing: string, rest: string)
    ensures "  " + (opening + (text + (closing + "\n"))) + rest == "  " + (opening + (text + (closing + ("\n" + rest))))
  {
    ConcatAssociates("  ", opening + (text + (closing + "\n")), rest);
    ConcatAssociates(opening, text + (closing + "\n"), rest);
    ConcatAssociates(text, closing + "\n", rest);
    ConcatAssociates(closing, "\n", rest);
  }

  lemma SkipsIndent(element: string)
    requires element != "" && element[0] == '<'
    ensures SkipSpace("  " + element) == element
  {
    assert ("  " + element)[1..] == " " + element && (" " + element)[1..] == element;
    assert SkipSpace(" " + element) == SkipSpace(element) == element;
  }

  lemma StoryNames()
    ensures IsName(TITLE) && IsName(SERIES) && IsName(NUMBER) && IsName(VOLUME) && IsName(SUMMARY) && IsName(YEAR)
    ensures IsName(MONTH) && IsName(DAY)
  {
  }

  lemma EditionNames()
    ensures IsName(WRITER) && IsName(PENCILLER) && IsName(GENRE) && IsName(WEB) && IsName(PAGE_COUNT)
    ensures IsName(LANGUAGE_ISO) && IsName(MANGA)
  {
  }

  lemma NamesAreNames(info: ComicInfo, i: nat)
    requires i < |Fields(info)|
    ensures IsName(Fields(info)[i].name)
  {
    StoryNames();
    EditionNames();
  }

  /**
   Reading the printed document gives exactly the fields that have a value, in schema order, each
   as its value without the forbidden control characters and with line ends as XML has them.
   */
  lemma ReadBack(info: ComicInfo)
    ensures ReadDocument(Document(info)) == Some(Present(Fields(info)))
  {
    forall i | 0 <= i < |Fields(info)| ensures IsName(Fields(info)[i].name) {
      NamesAreNames(info, i);
    }
    ReadPrinted(Fields(info));
    SkipsHeader("\n" + (Body(Fields(info)) + FOOTER));
  }

  /** The declaration and the root, then the elements each on a line of its own, then the end of the root. */
  lemma DocumentIsLines(info: ComicInfo)
    ensures var text := Document(info);
            && HEADER <= text && text[|HEADER|] == '\n'
            && text[|HEADER| + 1..] == Body(Fields(info)) + "</ComicInfo>\n"
  {
    var rest := "\n" + (Body(Fields(info)) + FOOTER);
    assert rest[0] == '\n' && rest[1..] == Body(Fields(info)) + FOOTER;
    assert (HEADER + rest)[|HEADER|..] == rest;
  }

  lemma RootIsOneTag()
    ensures '>' !in "\n" + ROOT
  {
    assert '>' !in SCHEMA;
    assert '>' !in "<ComicInfo xmlns:xsi=\"";
    assert '>' !in "-instance\" xmlns:xsd=\"";
  }

  lemma SkipsHeader(body: string)
    ensures SkipTag(HEADER + body) == Some(("\n" + ROOT) + ['>'] + body)
    ensures SkipTag(("\n" + ROOT) + ['>'] + body) == Some(body)
  {
    FirstSeparator(DECLARATION, '>', ("\n" + ROOT) + ['>'] + body);
    ConcatAssociates(DECLARATION + ">", ("\n" + ROOT) + ">", body);
    RootIsOneTag();
    FirstSeparator("\n" + ROOT, '>', body);
  }
}

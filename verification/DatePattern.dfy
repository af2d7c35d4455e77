/**
 Compiling date field patterns (section 8, Date Format Patterns, of UTS #35 Part 4) to chrono
 format strings: `pattern_to_chrono` and the `has_time` test of
 crates/aidoku-runtime/src/imports/date.rs.
 */
module DatePattern {
  import opened Wrappers
  import opened Text

  // --- what a pattern means ------------------------------------------------

  /** A numeric field is `Bare` when it is written without padding. */
  datatype Field =
    | Year | ShortYear | MonthName | MonthAbbreviation | Month | MonthBare | Day | DayBare
    | Hour | HourBare | Hour12 | Hour12Bare | Minute | MinuteBare | Second | SecondBare
    | Weekday | WeekdayAbbreviation | HalfDay | Offset

  datatype Item = Field(field: Field) | Literal(c: char)

  /** The field a run of `width` equal letters names, for the fields implemented. */
  function FieldOf(letter: char, width: nat): Option<Field> {
    match letter
    case 'y' => if width == 2 then Some(ShortYear) else if 1 <= width <= 4 then Some(Year) else None
    case 'M' =>
      if width == 4 then Some(MonthName) else if width == 3 then Some(MonthAbbreviation)
      else if width == 2 then Some(Month) else if width == 1 then Some(MonthBare) else None
    case 'd' => if width == 2 then Some(Day) else if width == 1 then Some(DayBare) else None
    case 'H' => if width == 2 then Some(Hour) else if width == 1 then Some(HourBare) else None
    case 'h' => if width == 2 then Some(Hour12) else if width == 1 then Some(Hour12Bare) else None
    case 'm' => if width == 2 then Some(Minute) else if width == 1 then Some(MinuteBare) else None
    case 's' => if width == 2 then Some(Second) else if width == 1 then Some(SecondBare) else None
    case 'E' => if width == 4 then Some(Weekday) else if 1 <= width <= 3 then Some(WeekdayAbbreviation) else None
    case 'a' => if width == 1 then Some(HalfDay) else None
    case 'Z' => if width == 4 || width == 1 then Some(Offset) else None
    case _ => None
  }

  /** The letters of the implemented fields. */
  predicate Known(c: char) {
    FieldOf(c, 1).Some?
  }

  /** How many times the first character is repeated at the start. */
  function Run(s: string): (n: nat)
    ensures n <= |s| && (s != "" ==> n >= 1) && forall i | 0 <= i < n :: s[i] == s[0]
    ensures n < |s| ==> s[n] != s[0]
  {
    if s == "" then 0 else if |s| > 1 && s[1] == s[0] then 1 + Run(s[1..]) else 1
  }

  /** The widest implemented field of at most `n` letters, or 0. */
  function Widest(letter: char, n: nat): (w: nat)
    ensures w <= n && (w > 0 ==> FieldOf(letter, w).Some?)
    ensures forall v | w < v <= n :: FieldOf(letter, v).None?
  {
    if n == 0 || FieldOf(letter, n).Some? then n else Widest(letter, n - 1)
  }

  function Literals(s: string): (items: seq<Item>)
    ensures |items| == |s| && forall i | 0 <= i < |s| :: items[i] == Literal(s[i])
  {
    seq(|s|, i requires 0 <= i < |s| => Literal(s[i]))
  }

  function Then(items: seq<Item>, rest: Option<seq<Item>>): Option<seq<Item>> {
    if rest.Some? then Some(items + rest.value) else None
  }

  /** The fields and literals of a pattern. */
  function Items(pattern: string): Option<seq<Item>> {
    if pattern == "" then Some([])
    else if "''" <= pattern then Then([Literal('\'')], Items(pattern[2..]))
    else if pattern[0] == '\'' then
      match IndexOf(pattern[1..], '\'')
      case None => None
      case Some(end) => Then(Literals(pattern[1..end + 1]), Items(pattern[end + 2..]))
    else if IsAsciiLetter(pattern[0]) then
      var width := Widest(pattern[0], Run(pattern));
      if width == 0 then None
      else Then([Item.Field(FieldOf(pattern[0], width).value)], Items(pattern[width..]))
    else Then([Literal(pattern[0])], Items(pattern[1..]))
  }

  // --- when there is no translation ----------------------------------------

  function Quotes(s: string): nat {
    if s == "" then 0 else Quotes(s[..|s| - 1]) + (if s[|s| - 1] == '\'' then 1 else 0)
  }

  /** A letter outside quotes that no implemented field uses. */
  predicate UnknownAt(pattern: string, i: nat)
    requires i < |pattern|
  {
    Quotes(pattern[..i]) % 2 == 0 && IsAsciiLetter(pattern[i]) && !Known(pattern[i])
  }

  predicate HasUnknown(pattern: string) {
    exists i | 0 <= i < |pattern| :: UnknownAt(pattern, i)
  }

  /** A quote is left open, or a letter outside quotes is unknown. */
  predicate Malformed(pattern: string) {
    Quotes(pattern) % 2 == 1 || HasUnknown(pattern)
  }

  lemma {:induction false} QuotesConcat(a: string, b: string)
    ensures Quotes(a + b) == Quotes(a) + Quotes(b)
  {
    if b == "" {
      assert a + b == a;
    } else {
      QuotesConcat(a, b[..|b| - 1]);
      assert (a + b)[..|a + b| - 1] == a + b[..|b| - 1];
    }
  }

  lemma {:induction false} QuoteFree(s: string)
    requires forall i | 0 <= i < |s| :: s[i] != '\''
    ensures Quotes(s) == 0
  {
    if s != "" {
      QuoteFree(s[..|s| - 1]);
    }
  }

  /** Dropping a prefix with an even number of quotes and no unknown letter outside them changes nothing. */
  lemma DropPrefix(pattern: string, n: nat)
    requires n <= |pattern| && Quotes(pattern[..n]) % 2 == 0
    requires forall i | 0 <= i < n :: !UnknownAt(pattern, i)
    ensures Malformed(pattern) <==> Malformed(pattern[n..])
  {
    UnknownInRest(pattern, n);
    EvenPrefix(pattern, n);
  }

  lemma EvenPrefix(pattern: string, n: nat)
    requires n <= |pattern| && Quotes(pattern[..n]) % 2 == 0
    ensures Quotes(pattern) % 2 == Quotes(pattern[n..]) % 2
  {
    var q, r := Quotes(pattern[..n]), Quotes(pattern[n..]);
    QuotesConcat(pattern[..n], pattern[n..]);
    assert pattern[..n] + pattern[n..] == pattern;
    assert q == 2 * (q / 2);
  }

  lemma UnknownInRest(pattern: string, n: nat)
    requires n <= |pattern| && Quotes(pattern[..n]) % 2 == 0
    requires forall i | 0 <= i < n :: !UnknownAt(pattern, i)
    ensures HasUnknown(pattern) <==> HasUnknown(pattern[n..])
  {
    if i :| 0 <= i < |pattern| && UnknownAt(pattern, i) {
      UnknownShifts(pattern, n, i - n);
    }
    if i :| 0 <= i < |pattern[n..]| && UnknownAt(pattern[n..], i) {
      UnknownShifts(pattern, n, i);
    }
  }

  lemma UnknownShifts(pattern: string, n: nat, i: nat)
    requires n + i < |pattern| && Quotes(pattern[..n]) % 2 == 0
    ensures UnknownAt(pattern[n..], i) == UnknownAt(pattern, n + i)
  {
    assert pattern[..n + i] == pattern[..n] + pattern[n..][..i];
    QuotesConcat(pattern[..n], pattern[n..][..i]);
  }

  lemma InsideQuotes(pattern: string, i: nat)
    requires 1 <= i <= |pattern| && pattern[0] == '\'' && forall k | 1 <= k < i :: pattern[k] != '\''
    ensures Quotes(pattern[..i]) == 1
  {
    var open, after := pattern[..1], pattern[1..i];
    assert open[..0] == "" && pattern[..i] == open + after;
    QuoteFree(after);
    QuotesConcat(open, after);
  }

  /** A quoted run, up to its closing quote, is one piece. */
  lemma QuotedRun(pattern: string, end: nat)
    requires pattern != "" && pattern[0] == '\'' && IndexOf(pattern[1..], '\'') == Some(end)
    ensures Quotes(pattern[..end + 2]) == 2 && forall i | 0 <= i < end + 2 :: !UnknownAt(pattern, i)
  {
    forall k | 1 <= k < end + 1 ensures pattern[k] != '\'' {
      assert pattern[1..][k - 1] == pattern[k];
    }
    assert pattern[..end + 2][..end + 1] == pattern[..end + 1];
    InsideQuotes(pattern, end + 1);
    forall i | 1 <= i < end + 2 ensures !UnknownAt(pattern, i) {
      InsideQuotes(pattern, i);
    }
  }

  lemma QuoteStep(pattern: string)
    requires pattern != "" && pattern[0] == '\''
    ensures match IndexOf(pattern[1..], '\'')
            case None => Items(pattern).None? && Malformed(pattern)
            case Some(end) =>
              && (Items(pattern).None? <==> Items(pattern[end + 2..]).None?)
              && (Malformed(pattern) <==> Malformed(pattern[end + 2..]))
  {
    assert "''" <= pattern <==> IndexOf(pattern[1..], '\'') == Some(0);
    match IndexOf(pattern[1..], '\'')
    case None =>
      InsideQuotes(pattern, |pattern|);
      assert pattern[..|pattern|] == pattern;
    case Some(end) =>
      QuotedRun(pattern, end);
      DropPrefix(pattern, end + 2);
  }

  lemma KnownLetters(letter: char, n: nat)
    requires n >= 1
    ensures Widest(letter, n) > 0 <==> Known(letter)
  {
  }

  lemma LetterStep(pattern: string)
    requires pattern != "" && IsAsciiLetter(pattern[0])
    ensures var width := Widest(pattern[0], Run(pattern));
            if width == 0 then Items(pattern).None? && Malformed(pattern) else
              && (Items(pattern).None? <==> Items(pattern[width..]).None?)
              && (Malformed(pattern) <==> Malformed(pattern[width..]))
  {
    var width := Widest(pattern[0], Run(pattern));
    KnownLetters(pattern[0], Run(pattern));
    if width == 0 {
      assert pattern[..0] == "" && UnknownAt(pattern, 0);
    } else {
      LetterRun(pattern, width);
      DropPrefix(pattern, width);
    }
  }

  /** A pattern has no items exactly when it is malformed. */
  lemma {:induction false} AbsentExactlyWhen(pattern: string)
    ensures Items(pattern).None? <==> Malformed(pattern)
  {
    if pattern == "" {
    } else if pattern[0] == '\'' {
      QuoteStep(pattern);
      if IndexOf(pattern[1..], '\'').Some? {
        AbsentExactlyWhen(pattern[IndexOf(pattern[1..], '\'').value + 2..]);
      }
    } else if IsAsciiLetter(pattern[0]) {
      LetterStep(pattern);
      var width := Widest(pattern[0], Run(pattern));
      if width > 0 {
        AbsentExactlyWhen(pattern[width..]);
      }
    } else {
      assert pattern[..1][..0] == "";
      DropPrefix(pattern, 1);
      AbsentExactlyWhen(pattern[1..]);
    }
  }

  lemma LetterRun(pattern: string, n: nat)
    requires n <= Run(pattern) && pattern != "" && Known(pattern[0])
    ensures Quotes(pattern[..n]) == 0 && forall i | 0 <= i < n :: !UnknownAt(pattern, i)
  {
    QuoteFree(pattern[..n]);
  }

  // --- chrono format strings -----------------------------------------------

  /** The chrono specifier of a field. */
  function Specifier(f: Field): string {
    match f
    case Year => "%Y"
    case ShortYear => "%y"
    case MonthName => "%B"
    case MonthAbbreviation => "%b"
    case Month => "%m"
    case MonthBare => "%-m"
    case Day => "%d"
    case DayBare => "%-d"
    case Hour => "%H"
    case HourBare => "%-H"
    case Hour12 => "%I"
    case Hour12Bare => "%-I"
    case Minute => "%M"
    case MinuteBare => "%-M"
    case Second => "%S"
    case SecondBare => "%-S"
    case Weekday => "%A"
    case WeekdayAbbreviation => "%a"
    case HalfDay => "%p"
    case Offset => "%z"
  }

  /** How chrono reads the character after `%`, and after `%-`. */
  function Directive(c: char): Option<Item> {
    match c
    case 'Y' => Some(Item.Field(Year))
    case 'y' => Some(Item.Field(ShortYear))
    case 'B' => Some(Item.Field(MonthName))
    case 'b' => Some(Item.Field(MonthAbbreviation))
    case 'm' => Some(Item.Field(Month))
    case 'd' => Some(Item.Field(Day))
    case 'H' => Some(Item.Field(Hour))
    case 'I' => Some(Item.Field(Hour12))
    case 'M' => Some(Item.Field(Minute))
    case 'S' => Some(Item.Field(Second))
    case 'A' => Some(Item.Field(Weekday))
    case 'a' => Some(Item.Field(WeekdayAbbreviation))
    case 'p' => Some(Item.Field(HalfDay))
    case 'z' => Some(Item.Field(Offset))
    case '%' => Some(Literal('%'))
    case _ => None
  }

  function BareDirective(c: char): Option<Item> {
    match c
    case 'm' => Some(Item.Field(MonthBare))
    case 'd' => Some(Item.Field(DayBare))
    case 'H' => Some(Item.Field(HourBare))
    case 'I' => Some(Item.Field(Hour12Bare))
    case 'M' => Some(Item.Field(MinuteBare))
    case 'S' => Some(Item.Field(SecondBare))
    case _ => None
  }

  function Decode(format: string): Option<seq<Item>> {
    if format == "" then Some([])
    else if format[0] != '%' then Then([Literal(format[0])], Decode(format[1..]))
    else if |format| == 1 then None
    else if format[1] != '-' then
      var item := Directive(format[1]);
      if item.None? then None else Then([item.value], Decode(format[2..]))
    else if |format| == 2 then None
    else
      var item := BareDirective(format[2]);
      if item.None? then None else Then([item.value], Decode(format[3..]))
  }

  function RenderItem(item: Item): string {
    match item
    case Field(f) => Specifier(f)
    case Literal(c) => if c == '%' then "%%" else [c]
  }

  function Render(items: seq<Item>): string {
    if items == [] then "" else RenderItem(items[0]) + Render(items[1..])
  }

  lemma DecodeItem(item: Item, rest: string)
    ensures Decode(RenderItem(item) + rest) == Then([item], Decode(rest))
  {
    var text := RenderItem(item);
    var format := text + rest;
    assert format[|text|..] == rest;
    if item.Field? {
      assert text[0] == '%' && |text| >= 2;
      if text[1] == '-' {
        assert |text| == 3 && BareDirective(text[2]) == Some(item);
      } else {
        assert |text| == 2 && Directive(text[1]) == Some(item);
      }
    }
  }

  /** Rendered formats are read back as the items they came from. */
  lemma {:induction false} DecodeRender(items: seq<Item>)
    ensures Decode(Render(items)) == Some(items)
  {
    if items != [] {
      DecodeRender(items[1..]);
      DecodeItem(items[0], Render(items[1..]));
      assert [items[0]] + items[1..] == items;
    }
  }

  lemma {:induction false} RenderConcat(a: seq<Item>, b: seq<Item>)
    ensures Render(a + b) == Render(a) + Render(b)
  {
    if a == [] {
      assert a + b == b;
    } else {
      RenderConcat(a[1..], b);
      assert (a + b)[1..] == a[1..] + b;
      ConcatAssociates(RenderItem(a[0]), Render(a[1..]), Render(b));
    }
  }

  // --- the compiler --------------------------------------------------------

  datatype Symbol = Symbol(text: string, specifier: string)

  const SYMBOLS := [
    Symbol("yyyy", "%Y"), Symbol("yyy", "%Y"), Symbol("yy", "%y"), Symbol("y", "%Y"),
    Symbol("MMMM", "%B"), Symbol("MMM", "%b"), Symbol("MM", "%m"), Symbol("M", "%-m"),
    Symbol("dd", "%d"), Symbol("d", "%-d"),
    Symbol("HH", "%H"), Symbol("H", "%-H"),
    Symbol("hh", "%I"), Symbol("h", "%-I"),
    Symbol("mm", "%M"), Symbol("m", "%-M"),
    Symbol("ss", "%S"), Symbol("s", "%-S"),
    Symbol("EEEE", "%A"), Symbol("EEE", "%a"), Symbol("EE", "%a"), Symbol("E", "%a"),
    Symbol("a", "%p"),
    Symbol("ZZZZ", "%z"), Symbol("Z", "%z")
  ]

  /** Where the table holds the field of `width` letters: wider fields of a letter come first. */
  function Row(letter: char, width: nat): int {
    match letter
    case 'y' => 4 - width
    case 'M' => 8 - width
    case 'd' => 10 - width
    case 'H' => 12 - width
    case 'h' => 14 - width
    case 'm' => 16 - width
    case 's' => 18 - width
    case 'E' => 22 - width
    case 'a' => 23 - width
    case _ => if width == 4 then 23 else 24
  }

  predicate IsRun(s: string, c: char) {
    s != "" && forall i | 0 <= i < |s| :: s[i] == c
  }

  /** A row of the table names an implemented field, stands where its width puts it, and gives its specifier. */
  predicate RowIsField(i: nat, row: Symbol) {
    && row.text != "" && IsRun(row.text, row.text[0]) && IsAsciiLetter(row.text[0])
    && FieldOf(row.text[0], |row.text|).Some?
    && row.specifier == Specifier(FieldOf(row.text[0], |row.text|).value)
    && Row(row.text[0], |row.text|) == i
  }

  lemma DateRows()
    ensures RowIsField(0, Symbol("yyyy", "%Y")) && RowIsField(1, Symbol("yyy", "%Y")) && RowIsField(2, Symbol("yy", "%y"))
    ensures RowIsField(3, Symbol("y", "%Y")) && RowIsField(4, Symbol("MMMM", "%B")) && RowIsField(5, Symbol("MMM", "%b"))
    ensures RowIsField(6, Symbol("MM", "%m")) && RowIsField(7, Symbol("M", "%-m"))
    ensures RowIsField(8, Symbol("dd", "%d")) && RowIsField(9, Symbol("d", "%-d"))
  {
  }

  lemma TimeRows()
    ensures RowIsField(10, Symbol("HH", "%H")) && RowIsField(11, Symbol("H", "%-H")) && RowIsField(12, Symbol("hh", "%I"))
    ensures RowIsField(13, Symbol("h", "%-I")) && RowIsField(14, Symbol("mm", "%M")) && RowIsField(15, Symbol("m", "%-M"))
    ensures RowIsField(16, Symbol("ss", "%S")) && RowIsField(17, Symbol("s", "%-S"))
  {
  }

  lemma OtherRows()
    ensures RowIsField(18, Symbol("EEEE", "%A")) && RowIsField(19, Symbol("EEE", "%a")) && RowIsField(20, Symbol("EE", "%a"))
    ensures RowIsField(21, Symbol("E", "%a")) && RowIsField(22, Symbol("a", "%p"))
    ensures RowIsField(23, Symbol("ZZZZ", "%z")) && RowIsField(24, Symbol("Z", "%z"))
  {
  }

  lemma RowsAreFields(i: nat)
    requires i < |SYMBOLS|
    ensures RowIsField(i, SYMBOLS[i])
  {
    DateRows();
    TimeRows();
    OtherRows();
  }

  lemma RowsDiffer(letter: char, width: nat, letter': char, width': nat)
    requires FieldOf(letter, width).Some? && FieldOf(letter', width').Some?
    requires Row(letter, width) == Row(letter', width')
    ensures letter == letter' && width == width'
  {
  }

  lemma RowHolds(letter: char, width: nat)
    requires FieldOf(letter, width).Some?
    ensures 0 <= Row(letter, width) < |SYMBOLS|
    ensures var row := SYMBOLS[Row(letter, width)];
            IsRun(row.text, letter) && |row.text| == width && row.specifier == Specifier(FieldOf(letter, width).value)
  {
    var i := Row(letter, width);
    RowsAreFields(i);
    RowsDiffer(letter, width, SYMBOLS[i].text[0], |SYMBOLS[i].text|);
  }

  /** The first row of the table that a pattern starts with is its widest field. */
  lemma FirstMatchIsWidest(rest: string, i: nat)
    requires rest != "" && i < |SYMBOLS| && SYMBOLS[i].text <= rest
    requires forall j | 0 <= j < i :: !(SYMBOLS[j].text <= rest)
    ensures var width := Widest(rest[0], Run(rest));
            && IsAsciiLetter(rest[0]) && width > 0 && |SYMBOLS[i].text| == width
            && SYMBOLS[i].specifier == Specifier(FieldOf(rest[0], width).value)
  {
    RowsAreFields(i);
    var letter, text := rest[0], SYMBOLS[i].text;
    var width := Widest(letter, Run(rest));
    RunCovers(rest, |text|);
    assert |text| <= width;
    RowHolds(letter, width);
    RunMatches(rest, width, SYMBOLS[Row(letter, width)].text);
    assert Row(letter, width) >= i;
    WiderComesFirst(letter, |text|, width);
  }

  lemma WiderComesFirst(letter: char, narrow: nat, wide: nat)
    requires FieldOf(letter, narrow).Some? && FieldOf(letter, wide).Some? && narrow <= wide
    ensures Row(letter, wide) <= Row(letter, narrow) && (Row(letter, wide) == Row(letter, narrow) ==> narrow == wide)
  {
  }

  lemma {:induction false} RunCovers(s: string, n: nat)
    requires 1 <= n <= |s| && forall i | 0 <= i < n :: s[i] == s[0]
    ensures n <= Run(s)
  {
  }

  lemma RunMatches(rest: string, n: nat, text: string)
    requires 1 <= n <= Run(rest) && IsRun(text, rest[0]) && |text| == n
    ensures text <= rest
  {
  }

  lemma NoMatchIsUnknown(rest: string)
    requires rest != "" && forall j | 0 <= j < |SYMBOLS| :: !(SYMBOLS[j].text <= rest)
    ensures Widest(rest[0], Run(rest)) == 0
  {
    var width := Widest(rest[0], Run(rest));
    if width > 0 {
      RowHolds(rest[0], width);
      RunMatches(rest, width, SYMBOLS[Row(rest[0], width)].text);
    }
  }

  method PushLiteral(out: string, s: string) returns (r: string)
    ensures r == out + Render(Literals(s))
  {
    r := out;
    assert Render([]) == "";
    for i := 0 to |s|
      invariant r == out + Render(Literals(s[..i]))
    {
      ghost var item := Literal(s[i]);
      RenderConcat(Literals(s[..i]), [item]);
      assert Literals(s[..i + 1]) == Literals(s[..i]) + [item];
      assert Render([item]) == RenderItem(item) + Render([]);
      if s[i] == '%' {
        r := r + "%%";
      } else {
        r := r + [s[i]];
      }
    }
    assert s[..|s|] == s;
  }

  function Translation(pattern: string): Option<string> {
    var items := Items(pattern);
    if items.Some? then Some(Render(items.value)) else None
  }

  /** One step of the compiler: the items it has written so far, and those of the rest. */
  lemma Written(done: seq<Item>, items: seq<Item>, rest: Option<seq<Item>>, all: Option<seq<Item>>)
    requires all == Then(done, Then(items, rest))
    ensures all == Then(done + items, rest)
    ensures Render(done + items) == Render(done) + Render(items)
  {
    RenderConcat(done, items);
    if rest.Some? {
      ConcatAssociates(done, items, rest.value);
    }
  }

  lemma RenderOne(item: Item)
    ensures Render([item]) == RenderItem(item)
  {
  }

  /** The format is that of the pattern's items, and there is none when the pattern has none. */
  method PatternToChrono(pattern: string) returns (format: Option<string>)
    ensures format == Translation(pattern)
  {
    var out, rest := "", pattern;
    ghost var done: seq<Item> := [];
    assert Items(pattern).Some? ==> done + Items(pattern).value == Items(pattern).value;
    label outer:
    while rest != ""
      invariant out == Render(done) && Items(pattern) == Then(done, Items(rest))
      decreases |rest|
    {
      if rest[0] == '\'' {
        var after := rest[1..];
        if after != "" && after[0] == '\'' {
          assert "''" <= rest && rest[2..] == after[1..];
          Written(done, [Literal('\'')], Items(rest[2..]), Items(pattern));
          RenderOne(Literal('\''));
          out := out + "'";
          done := done + [Literal('\'')];
          rest := after[1..];
          continue;
        }
        assert !("''" <= rest);
        var end := IndexOf(after, '\'');
        if end.None? {
          return None;
        }
        assert rest[1..end.value + 1] == after[..end.value] && rest[end.value + 2..] == after[end.value + 1..];
        Written(done, Literals(after[..end.value]), Items(after[end.value + 1..]), Items(pattern));
        out := PushLiteral(out, after[..end.value]);
        done := done + Literals(after[..end.value]);
        rest := after[end.value + 1..];
        continue;
      }
      for i := 0 to |SYMBOLS|
        invariant forall j | 0 <= j < i :: !(SYMBOLS[j].text <= rest)
      {
        if SYMBOLS[i].text <= rest {
          FirstMatchIsWidest(rest, i);
          ghost var width := |SYMBOLS[i].text|;
          ghost var item := Item.Field(FieldOf(rest[0], width).value);
          Written(done, [item], Items(rest[width..]), Items(pattern));
          RenderOne(item);
          out := out + SYMBOLS[i].specifier;
          done := done + [item];
          rest := rest[|SYMBOLS[i].text|..];
          continue outer;
        }
      }
      NoMatchIsUnknown(rest);
      if IsAsciiLetter(rest[0]) {
        return None;
      }
      Written(done, [Literal(rest[0])], Items(rest[1..]), Items(pattern));
      assert Literals([rest[0]]) == [Literal(rest[0])];
      out := PushLiteral(out, [rest[0]]);
      done := done + [Literal(rest[0])];
      rest := rest[1..];
    }
    assert done + [] == done;
    return Some(out);
  }

  /** What the compiled format means to chrono is what the pattern means, whenever there is one. */
  lemma CompilingPreservesMeaning(pattern: string)
    ensures Translation(pattern).None? <==> Malformed(pattern)
    ensures Translation(pattern).Some? ==> Decode(Translation(pattern).value) == Items(pattern)
  {
    AbsentExactlyWhen(pattern);
    if Items(pattern).Some? {
      DecodeRender(Items(pattern).value);
    }
  }

  // --- whether a format has a time -----------------------------------------

  predicate HasTime(format: string) {
    || Contains(format, "%H") || Contains(format, "%-H") || Contains(format, "%I")
    || Contains(format, "%-I") || Contains(format, "%M") || Contains(format, "%-M")
  }

  predicate IsTimeField(f: Field) {
    f.Hour? || f.HourBare? || f.Hour12? || f.Hour12Bare? || f.Minute? || f.MinuteBare?
  }

  predicate IsTimeLetter(c: char) {
    c == 'H' || c == 'I' || c == 'M'
  }

  predicate LiteralTimeLetter(item: Item) {
    item.Literal? && IsTimeLetter(item.c)
  }

  /** A literal percent sign before text that, with it, looks like a specifier. */
  predicate Disguised(items: seq<Item>) {
    && |items| > 1 && items[0] == Literal('%')
    && (LiteralTimeLetter(items[1]) || (|items| > 2 && items[1] == Literal('-') && LiteralTimeLetter(items[2])))
  }

  predicate LooksTimed(items: seq<Item>) {
    items != [] && ((items[0].Field? && IsTimeField(items[0].field)) || Disguised(items) || LooksTimed(items[1..]))
  }

  predicate TimedHere(s: string) {
    && |s| > 1 && s[0] == '%'
    && (IsTimeLetter(s[1]) || (|s| > 2 && s[1] == '-' && IsTimeLetter(s[2])))
  }

  predicate Timed(s: string) {
    s != "" && (TimedHere(s) || Timed(s[1..]))
  }

  lemma {:induction false} TimedIsAt(s: string)
    ensures Timed(s) <==> exists i | 0 <= i <= |s| :: TimedHere(s[i..])
  {
    if s != "" {
      TimedIsAt(s[1..]);
      assert s[0..] == s;
      if Timed(s[1..]) {
        var i :| 0 <= i <= |s[1..]| && TimedHere(s[1..][i..]);
        assert s[i + 1..] == s[1..][i..];
      }
      if i :| 0 < i <= |s| && TimedHere(s[i..]) {
        assert s[1..][i - 1..] == s[i..];
      }
    }
  }

  lemma PrefixIs(s: string)
    ensures TimedHere(s) <==> "%H" <= s || "%-H" <= s || "%I" <= s || "%-I" <= s || "%M" <= s || "%-M" <= s
  {
  }

  lemma HasTimeIsTimed(format: string)
    ensures HasTime(format) <==> Timed(format)
  {
    TimedIsAt(format);
    forall i | 0 <= i <= |format|
      ensures TimedHere(format[i..]) <==>
        (var s := format[i..]; "%H" <= s || "%-H" <= s || "%I" <= s || "%-I" <= s || "%M" <= s || "%-M" <= s)
    {
      PrefixIs(format[i..]);
    }
  }

  /** How a rendered format starts tells how its items start. */
  lemma RenderStarts(items: seq<Item>)
    requires items != []
    ensures var format := Render(items);
            && format != ""
            && (items[0].Literal? && items[0].c != '%' ==> format[0] == items[0].c && format[1..] == Render(items[1..]))
            && (items[0].Field? || items[0].c == '%' ==> format[0] == '%')
  {
    var text := RenderItem(items[0]);
    assert Render(items) == text + Render(items[1..]);
    if items[0].Field? {
      SpecifierHead(items[0].field);
    }
    HeadOf(text, Render(items[1..]));
  }

  lemma SpecifierHead(f: Field)
    ensures Specifier(f) != "" && Specifier(f)[0] == '%'
  {
  }

  lemma HeadOf(text: string, rest: string)
    requires text != ""
    ensures text + rest != "" && (text + rest)[0] == text[0] && (|text| == 1 ==> (text + rest)[1..] == rest)
  {
  }

  lemma SpecifierIsTimed(f: Field, rest: string)
    ensures Timed(Specifier(f) + rest) <==> IsTimeField(f) || Timed(rest)
  {
    var text := Specifier(f);
    var s := text + rest;
    assert s[1..] == text[1..] + rest && s[1..][1..] == s[2..];
    assert Timed(s) == (TimedHere(s) || Timed(s[2..]));
    if |text| == 2 {
      assert s[2..] == rest;
    } else {
      assert |text| == 3 && s[2..] == [text[2]] + rest && s[2..][1..] == rest;
    }
  }

  lemma PercentIsTimed(items: seq<Item>)
    requires items != [] && items[0] == Literal('%')
    ensures Timed(Render(items)) <==> Disguised(items) || Timed(Render(items[1..]))
  {
    var rest := Render(items[1..]);
    var s := Render(items);
    assert s == "%%" + rest && s[1..] == "%" + rest && s[1..][1..] == rest;
    if |items| > 1 {
      RenderStarts(items[1..]);
      if |items| > 2 {
        RenderStarts(items[2..]);
        assert items[1..][1..] == items[2..];
      } else {
        assert items[1..][1..] == [];
      }
    }
  }

  lemma {:induction false} RenderIsTimed(items: seq<Item>)
    ensures Timed(Render(items)) <==> LooksTimed(items)
  {
    if items != [] {
      RenderIsTimed(items[1..]);
      match items[0]
      case Field(f) => SpecifierIsTimed(f, Render(items[1..]));
      case Literal(c) =>
        if c == '%' {
          PercentIsTimed(items);
        } else {
          RenderStarts(items);
        }
    }
  }

  /**
   The `has_time` test holds exactly when the pattern has an hour or minute field, or a literal
   percent sign right before literal text that completes a specifier; without a literal percent
   sign it holds exactly when there is such a field.
   */
  lemma HasTimeExactlyWhen(pattern: string)
    requires Translation(pattern).Some?
    ensures var items := Items(pattern).value;
            && (HasTime(Translation(pattern).value) <==> LooksTimed(items))
            && (Literal('%') !in items ==>
                  (HasTime(Translation(pattern).value) <==> exists item :: item in items && item.Field? && IsTimeField(item.field)))
  {
    var items := Items(pattern).value;
    HasTimeIsTimed(Render(items));
    RenderIsTimed(items);
    if Literal('%') !in items {
      PlainItemsLookTimed(items);
    }
  }

  lemma {:induction false} PlainItemsLookTimed(items: seq<Item>)
    requires Literal('%') !in items
    ensures LooksTimed(items) <==> exists item :: item in items && item.Field? && IsTimeField(item.field)
  {
    if items != [] {
      assert items == [items[0]] + items[1..];
      PlainItemsLookTimed(items[1..]);
    }
  }

  /** A pattern without any time field that the test nevertheless takes for one with a time. */
  lemma PercentBeforeQuotedHour()
    ensures Items("%'H'") == Some([Literal('%'), Literal('H')])
    ensures HasTime(Translation("%'H'").value)
  {
    var inner, quoted := "'H'", "H'";
    assert "%'H'"[1..] == inner && inner[1..] == quoted && inner[3..] == "";
    assert quoted[1..] == "'" && IndexOf("'", '\'') == Some(0) && IndexOf(quoted, '\'') == Some(1);
    assert inner[1..2] == "H" && Literals("H") == [Literal('H')];
    assert !("''" <= inner) && IndexOf(inner[1..], '\'') == Some(1) && inner[1 + 2..] == "";
    assert inner != "" && inner[0] == '\'';
    assert Items(inner) == Then(Literals(inner[1..1 + 1]), Items(inner[1 + 2..]));
    assert Literals("H") + [] == [Literal('H')] && [Literal('%')] + [Literal('H')] == [Literal('%'), Literal('H')];
    assert Items(inner) == Some([Literal('H')]);
    var items := [Literal('%'), Literal('H')];
    assert items[1..] == [Literal('H')];
    HasTimeIsTimed(Render(items));
    RenderIsTimed(items);
  }
}

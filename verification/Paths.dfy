/**
 Turning text a source controls into file names (crates/packaging/src/paths.rs). Unicode
 normalization is taken as the identity.
 */
module Paths {
  import opened Wrappers
  import opened Text

  const MAX_COMPONENT_BYTES: nat := 255

  // --- bytes ---------------------------------------------------------------

  function Utf8Length(c: char): nat {
    var n := c as int;
    if n < 0x80 then 1 else if n < 0x800 then 2 else if n < 0x1_0000 then 3 else 4
  }

  /** One byte holds seven bits of a code point, two bytes eleven, three bytes sixteen. */
  lemma Utf8LengthIs(c: char)
    ensures Utf8Length(c) == 1 <==> c as int <= 127
    ensures Utf8Length(c) == 2 <==> 128 <= c as int <= 2047
    ensures Utf8Length(c) == 3 <==> 2048 <= c as int <= 65535
    ensures Utf8Length(c) == 4 <==> 65536 <= c as int
  {
  }

  function ByteLength(s: string): nat {
    if s == "" then 0 else ByteLength(s[..|s| - 1]) + Utf8Length(s[|s| - 1])
  }

  predicate IsCharBoundary(s: string, at: nat) {
    exists k | 0 <= k <= |s| :: ByteLength(s[..k]) == at
  }

  lemma {:induction false} PrefixLengths(s: string, i: nat, j: nat)
    requires i <= j <= |s|
    ensures ByteLength(s[..i]) + (j - i) <= ByteLength(s[..j]) <= ByteLength(s[..i]) + 4 * (j - i)
  {
    if i < j {
      PrefixLengths(s, i, j - 1);
      assert s[..j][..j - 1] == s[..j - 1];
    }
  }

  /** The longest prefix of at most `max` bytes. */
  predicate IsTruncation(r: string, s: string, max: nat) {
    r <= s && ByteLength(r) <= max && (|r| < |s| ==> ByteLength(s[..|r| + 1]) > max)
  }

  function Truncated(s: string, max: nat): (r: string)
    ensures IsTruncation(r, s, max)
  {
    if ByteLength(s) <= max then
      assert s[..|s|] == s;
      s
    else
      assert s[..|s|] == s;
      var r := Truncated(s[..|s| - 1], max);
      assert |r| < |s| - 1 ==> s[..|s| - 1][..|r| + 1] == s[..|r| + 1];
      r
  }

  /** Steps back from the limit to a character boundary. */
  method TruncateBytes(s: string, max: nat) returns (r: string)
    ensures r == Truncated(s, max)
  {
    var end := if max < ByteLength(s) then max else ByteLength(s);
    assert s[..0] == "" && s[..|s|] == s;
    forall k | 0 <= k <= |s| ensures ByteLength(s[..k]) <= ByteLength(s) { PrefixLengths(s, k, |s|); }
    while end > 0 && !IsCharBoundary(s, end)
      invariant end <= max && end <= ByteLength(s)
      invariant forall k | 0 <= k <= |s| && ByteLength(s[..k]) <= max :: ByteLength(s[..k]) <= end
    {
      end := end - 1;
    }
    assert ByteLength(s[..0]) == 0;
    var k :| 0 <= k <= |s| && ByteLength(s[..k]) == end;
    r := s[..k];
    TruncationIs(s, max, k);
  }

  lemma TruncationIs(s: string, max: nat, k: nat)
    requires k <= |s| && ByteLength(s[..k]) <= max
    requires forall j | 0 <= j <= |s| && ByteLength(s[..j]) <= max :: ByteLength(s[..j]) <= ByteLength(s[..k])
    ensures Truncated(s, max) == s[..k]
  {
    var r := Truncated(s, max);
    assert r == s[..|r|];
    if |r| > k {
      PrefixLengths(s, k, |r|);
    } else if |r| < k {
      PrefixLengths(s, |r| + 1, k);
    }
  }

  // --- cleaning ------------------------------------------------------------

  predicate IsSeparator(c: char) {
    c == '/' || c == '\\'
  }

  predicate IsUnsafe(c: char) {
    IsSeparator(c) || c == ':' || c == '*' || c == '?' || c == '"' || c == '<' || c == '>' || c == '|'
  }

  predicate IsBidirectional(c: char) {
    var n := c as int;
    0x202A <= n <= 0x202E || 0x2066 <= n <= 0x2069 || n == 0x200E || n == 0x200F
  }

  function CleanChar(c: char): string {
    if IsUnsafe(c) then "-" else if IsControl(c) || IsBidirectional(c) then "" else [c]
  }

  /** The characters that become a dash, those that go, and those that stay. */
  lemma CharBecomes(c: char)
    ensures var n := c as int;
            CleanChar(c) ==
            if c in "/\\:*?\"<>|" then "-"
            else if n <= 31 || 127 <= n <= 159 || 8206 <= n <= 8207 || 8234 <= n <= 8238 || 8294 <= n <= 8297 then ""
            else [c]
  {
    var unsafe := "/\\:*?\"<>|";
    assert unsafe == ['/', '\\', ':', '*', '?', '"', '<', '>', '|'];
  }

  function Clean(s: string): string {
    if s == "" then "" else Clean(s[..|s| - 1]) + CleanChar(s[|s| - 1])
  }

  /** What may stand in a file name. */
  predicate IsClean(c: char) {
    !IsUnsafe(c) && !IsControl(c) && !IsBidirectional(c)
  }

  function WordEnd(s: string): (n: nat)
    ensures n <= |s| && (forall i | 0 <= i < n :: !IsWhitespace(s[i])) && (n < |s| ==> IsWhitespace(s[n]))
  {
    if s == "" || IsWhitespace(s[0]) then 0 else 1 + WordEnd(s[1..])
  }

  /** `split_whitespace`. */
  function Words(s: string): (words: seq<string>)
    decreases |s|
  {
    if s == "" then []
    else if IsWhitespace(s[0]) then Words(s[1..])
    else [s[..WordEnd(s)]] + Words(s[WordEnd(s)..])
  }

  function Collapsed(s: string): string {
    Join(Words(s), ' ')
  }

  predicate IsEdge(c: char) {
    c == '.' || c == '-' || IsWhitespace(c)
  }

  predicate IsTail(c: char) {
    c == '.' || IsWhitespace(c)
  }

  function TrimBoth(s: string, drop: char -> bool): string {
    TrimEnd(TrimStart(s, drop), drop)
  }

  /** What is left of a name before it is checked against the reserved ones. */
  function Trimmed(input: string): string {
    TrimBoth(Collapsed(Clean(input)), IsEdge)
  }

  function Stem(name: string): string {
    Split(name, '.')[0]
  }

  /** CON, PRN, AUX, NUL, COM1 to COM9 and LPT1 to LPT9, in any case. */
  predicate IsReserved(stem: string) {
    var lower := Lower(stem);
    || lower == "con" || lower == "prn" || lower == "aux" || lower == "nul"
    || (|lower| == 4 && (lower[..3] == "com" || lower[..3] == "lpt") && '1' <= lower[3] <= '9')
  }

  predicate IsPort(lower: string, base: string) {
    || lower == base + "1" || lower == base + "2" || lower == base + "3" || lower == base + "4" || lower == base + "5"
    || lower == base + "6" || lower == base + "7" || lower == base + "8" || lower == base + "9"
  }

  lemma PortsAre(lower: string, base: string)
    requires |base| == 3
    ensures IsPort(lower, base) <==> |lower| == 4 && lower[..3] == base && '1' <= lower[3] <= '9'
  {
    if |lower| == 4 && lower[..3] == base {
      assert lower == base + [lower[3]];
      assert '1' <= lower[3] <= '9' ==> lower[3] in "123456789";
    }
  }

  /** The reserved names are the four devices and the eighteen ports, in any case. */
  lemma ReservedAreDevices(stem: string)
    ensures IsReserved(stem) <==>
              || Lower(stem) == "con" || Lower(stem) == "prn" || Lower(stem) == "aux" || Lower(stem) == "nul"
              || IsPort(Lower(stem), "com") || IsPort(Lower(stem), "lpt")
  {
    PortsAre(Lower(stem), "com");
    PortsAre(Lower(stem), "lpt");
  }

  /** The name with its guard, before truncation. */
  function Guarded(trimmed: string): string {
    if IsReserved(Stem(trimmed)) then "_" + trimmed else trimmed
  }

  /** Cuts a name to the limit of the file system. */
  function Fit(name: string): Result<string> {
    if ByteLength(name) <= MAX_COMPONENT_BYTES then Ok(name)
    else
      var cut := TrimBoth(Truncated(name, MAX_COMPONENT_BYTES), IsTail);
      if cut == "" then Err(EmptyName) else Ok(cut)
  }

  function Sanitized(input: string): Result<string> {
    var trimmed := Trimmed(input);
    if trimmed == "" || trimmed == "." || trimmed == ".." then Err(EmptyName) else Fit(Guarded(trimmed))
  }

  method SanitizeComponent(input: string) returns (r: Result<string>)
    ensures r == Sanitized(input)
  {
    var out := "";
    for i := 0 to |input|
      invariant out == Clean(input[..i])
    {
      assert input[..i + 1][..i] == input[..i];
      if IsUnsafe(input[i]) {
        out := out + "-";
      } else if !IsControl(input[i]) && !IsBidirectional(input[i]) {
        out := out + [input[i]];
      }
    }
    assert input[..|input|] == input;
    var collapsed := Join(Words(out), ' ');
    var trimmed := TrimBoth(collapsed, IsEdge);
    if trimmed == "" || trimmed == "." || trimmed == ".." {
      return Err(EmptyName);
    }
    var result := if IsReserved(Split(trimmed, '.')[0]) then "_" + trimmed else trimmed;
    if ByteLength(result) > MAX_COMPONENT_BYTES {
      result := TruncateBytes(result, MAX_COMPONENT_BYTES);
      result := TrimBoth(result, IsTail);
      if result == "" {
        return Err(EmptyName);
      }
    }
    return Ok(result);
  }

  // --- what cleaning and collapsing leave ----------------------------------

  lemma {:induction false} CleanIsClean(s: string)
    ensures forall i | 0 <= i < |Clean(s)| :: IsClean(Clean(s)[i])
    ensures (forall c | c in Clean(s) :: IsEdge(c)) <==> forall c | c in s :: CleanChar(c) == "" || IsEdge(CleanChar(c)[0])
  {
    if s != "" {
      CleanIsClean(s[..|s| - 1]);
      assert s == s[..|s| - 1] + [s[|s| - 1]];
    }
  }

  lemma {:induction false} CleanKeeps(s: string)
    requires forall i | 0 <= i < |s| :: IsClean(s[i])
    ensures Clean(s) == s
  {
    if s != "" {
      CleanKeeps(s[..|s| - 1]);
      assert s == s[..|s| - 1] + [s[|s| - 1]];
    }
  }

  /** White space is single spaces between other characters. */
  predicate Tidy(s: string) {
    forall i | 0 <= i < |s| && IsWhitespace(s[i]) :: s[i] == ' ' && 0 < i < |s| - 1 && !IsWhitespace(s[i + 1])
  }

  lemma TidyPiece(s: string, a: nat, b: nat)
    requires Tidy(s) && a <= b <= |s|
    requires a < b ==> !IsWhitespace(s[a]) && !IsWhitespace(s[b - 1])
    ensures Tidy(s[a..b])
  {
  }

  lemma TidyConcat(a: string, b: string)
    requires Tidy(a) && Tidy(b) && a != "" && b != ""
    ensures Tidy(a + " " + b)
  {
  }

  lemma {:induction false} CollapsedIsTidy(s: string)
    ensures Tidy(Collapsed(s)) && (Words(s) != [] ==> Collapsed(s) != "")
    ensures forall c | c in Collapsed(s) :: c == ' ' || c in s
    ensures forall c | c in s && !IsWhitespace(c) :: c in Collapsed(s)
    decreases |s|
  {
    if s == "" {
    } else if IsWhitespace(s[0]) {
      assert s == [s[0]] + s[1..];
      CollapsedIsTidy(s[1..]);
    } else {
      var word, rest := s[..WordEnd(s)], s[WordEnd(s)..];
      assert s == word + rest && Tidy(word);
      CollapsedIsTidy(rest);
      if Words(rest) == [] {
        assert Words(s) == [word];
      } else {
        JoinCons(word, Words(rest), ' ');
        TidyConcat(word, Collapsed(rest));
      }
    }
  }

  lemma WordsAfterSpace(word: string, rest: string)
    requires word != "" && forall i | 0 <= i < |word| :: !IsWhitespace(word[i])
    ensures Words(word + " " + rest) == [word] + Words(rest)
  {
    var s := word + " " + rest;
    assert s[|word|] == ' ' && forall i | 0 <= i < |word| :: s[i] == word[i];
    assert WordEnd(s) == |word| && s[..|word|] == word && s[|word|..] == " " + rest;
    assert (" " + rest)[1..] == rest;
  }

  lemma {:induction false} TidyIsCollapsed(s: string)
    requires Tidy(s)
    ensures Collapsed(s) == s && (s != "" ==> Words(s) != [])
    decreases |s|
  {
    if s != "" {
      var n := WordEnd(s);
      var word := s[..n];
      if n == |s| {
        assert s == word && s[n..] == "" && Words(s) == [word];
      } else {
        var rest := s[n + 1..];
        assert s[n..] == " " + rest && s == word + " " + rest;
        TidyPiece(s, n + 1, |s|);
        assert s[n + 1..|s|] == rest;
        TidyIsCollapsed(rest);
        WordsAfterSpace(word, rest);
        JoinCons(word, Words(rest), ' ');
      }
    }
  }

  // --- what a sanitized name is like ---------------------------------------

  lemma TrimBothIs(s: string, drop: char -> bool) returns (a: nat)
    ensures var r := TrimBoth(s, drop);
            a + |r| <= |s| && r == s[a..a + |r|] && (r != "" ==> !drop(r[0]) && !drop(r[|r| - 1]))
  {
    var t := TrimStart(s, drop);
    a := |s| - |t|;
    assert TrimEnd(t, drop) == t[..|TrimEnd(t, drop)|];
  }

  lemma NothingAtStart(s: string, drop: char -> bool)
    requires s != "" && !drop(s[0])
    ensures TrimBoth(s, drop) == TrimEnd(s, drop) && TrimEnd(s, drop) <= s && TrimEnd(s, drop) != ""
    ensures !drop(s[|s| - 1]) ==> TrimEnd(s, drop) == s
  {
  }

  lemma NothingLeft(s: string, drop: char -> bool)
    ensures TrimBoth(s, drop) == "" <==> forall c | c in s :: drop(c)
  {
  }

  /** A name that is ready to be used, but for its length and the reserved ones. */
  predicate IsNeat(s: string) {
    && s != "" && Tidy(s) && AllClean(s)
    && !IsEdge(s[0]) && !IsTail(s[|s| - 1])
  }

  /** The characters of which nothing is left when there is nothing else. */
  predicate Vanishes(c: char) {
    CleanChar(c) == "" || IsEdge(CleanChar(c)[0])
  }

  predicate AllClean(s: string) {
    forall i | 0 <= i < |s| :: IsClean(s[i])
  }

  lemma TrimmedPart(s: string)
    requires Tidy(s) && AllClean(s) && TrimBoth(s, IsEdge) != ""
    ensures IsNeat(TrimBoth(s, IsEdge)) && TrimBoth(s, IsEdge)[|TrimBoth(s, IsEdge)| - 1] != '-'
  {
    var a := TrimBothIs(s, IsEdge);
    NeatPiece(s, a, TrimBoth(s, IsEdge));
  }

  lemma NeatPiece(s: string, a: nat, r: string)
    requires Tidy(s) && AllClean(s) && a + |r| <= |s| && r == s[a..a + |r|]
    requires r != "" && !IsEdge(r[0]) && !IsEdge(r[|r| - 1])
    ensures IsNeat(r) && r[|r| - 1] != '-'
  {
  }

  lemma CollapsedIsClean(input: string)
    ensures Tidy(Collapsed(Clean(input))) && AllClean(Collapsed(Clean(input)))
    ensures (forall c | c in Collapsed(Clean(input)) :: IsEdge(c)) <==> forall c | c in input :: Vanishes(c)
  {
    var clean, collapsed := Clean(input), Collapsed(Clean(input));
    CleanIsClean(input);
    CollapsedIsTidy(clean);
    EdgesOnly(clean, collapsed);
    forall i | 0 <= i < |collapsed| ensures IsClean(collapsed[i]) {
      assert collapsed[i] in collapsed;
      if collapsed[i] != ' ' {
        var k :| 0 <= k < |clean| && clean[k] == collapsed[i];
      }
    }
  }

  lemma TrimmedIsNeat(input: string)
    ensures Trimmed(input) == "" <==> forall c | c in input :: Vanishes(c)
    ensures Trimmed(input) != "" ==> IsNeat(Trimmed(input)) && Trimmed(input)[|Trimmed(input)| - 1] != '-'
  {
    CollapsedIsClean(input);
    NothingLeft(Collapsed(Clean(input)), IsEdge);
    if Trimmed(input) != "" {
      TrimmedPart(Collapsed(Clean(input)));
    }
  }

  lemma EdgesOnly(clean: string, collapsed: string)
    requires forall c | c in collapsed :: c == ' ' || c in clean
    requires forall c | c in clean && !IsWhitespace(c) :: c in collapsed
    ensures (forall c | c in collapsed :: IsEdge(c)) <==> forall c | c in clean :: IsEdge(c)
  {
  }

  /** Reserved names are short and plain. */
  lemma ReservedIsPlain(s: string)
    requires IsReserved(s)
    ensures 3 <= |s| <= 4 && forall k | 0 <= k < |s| :: IsAsciiLetter(s[k]) || '1' <= s[k] <= '9'
  {
  }

  lemma StemIs(name: string)
    ensures '.' !in name ==> Stem(name) == name
    ensures '.' !in Stem(name) && Stem(name) <= name
    ensures Stem(name) != name ==> |Stem(name)| < |name| && name[|Stem(name)|] == '.'
  {
  }

  lemma StemOfPrefix(name: string, k: nat)
    requires k <= |name| && '.' in name[..k]
    ensures Stem(name[..k]) == Stem(name)
  {
  }

  lemma UnderscoreIsNeat(name: string)
    requires IsNeat(name)
    ensures IsNeat("_" + name)
  {
  }

  lemma UnderscoreIsFree(name: string)
    ensures !IsReserved(Stem("_" + name))
  {
  }

  lemma GuardedIsNeat(trimmed: string)
    requires IsNeat(trimmed)
    ensures IsNeat(Guarded(trimmed)) && !IsReserved(Stem(Guarded(trimmed)))
  {
    UnderscoreIsNeat(trimmed);
    UnderscoreIsFree(trimmed);
  }

  lemma TruncatedKeepsFirst(name: string)
    requires name != ""
    ensures Truncated(name, MAX_COMPONENT_BYTES) != "" && Truncated(name, MAX_COMPONENT_BYTES)[0] == name[0]
  {
  }

  lemma PrefixIsShorter(r: string, s: string)
    requires r <= s
    ensures ByteLength(r) <= ByteLength(s)
  {
  }

  lemma PrefixIsNeat(name: string, r: string)
    requires IsNeat(name) && r != "" && r <= name && !IsTail(r[|r| - 1])
    ensures IsNeat(r)
  {
  }

  /** A name cut to the limit. */
  function Cut(name: string): string {
    TrimEnd(Truncated(name, MAX_COMPONENT_BYTES), IsTail)
  }

  lemma CutIsPrefix(name: string)
    requires name != "" && !IsTail(name[0])
    ensures Cut(name) != "" && Cut(name) <= name && Cut(name)[0] == name[0]
    ensures TrimBoth(Truncated(name, MAX_COMPONENT_BYTES), IsTail) == Cut(name)
    ensures ByteLength(Cut(name)) <= MAX_COMPONENT_BYTES && !IsTail(Cut(name)[|Cut(name)| - 1])
  {
    TruncatedKeepsFirst(name);
    NothingAtStart(Truncated(name, MAX_COMPONENT_BYTES), IsTail);
    PrefixIsShorter(Cut(name), Truncated(name, MAX_COMPONENT_BYTES));
  }

  /** Fitting a neat name is cutting it, which keeps it neat. */
  lemma FitIsCut(name: string)
    requires IsNeat(name)
    ensures Fit(name) == Ok(Cut(name)) && (ByteLength(name) <= MAX_COMPONENT_BYTES ==> Cut(name) == name)
    ensures IsNeat(Cut(name)) && ByteLength(Cut(name)) <= MAX_COMPONENT_BYTES
    ensures Cut(name) <= name && Cut(name)[0] == name[0]
  {
    CutIsPrefix(name);
    PrefixIsNeat(name, Cut(name));
  }

  /**
   A name is refused exactly when every character of it would vanish. Every other name is non-empty,
   fits the file system, holds no separator or other unsafe character, and begins with none of
   dot, dash and space, so it is one ordinary path component and never hidden.
   */
  lemma SanitizedIsSafe(input: string)
    ensures Sanitized(input).Err? <==> forall c | c in input :: Vanishes(c)
    ensures Sanitized(input).Ok? ==> IsNeat(Sanitized(input).value) && ByteLength(Sanitized(input).value) <= MAX_COMPONENT_BYTES
  {
    TrimmedIsNeat(input);
    SanitizedFits(input);
    if Trimmed(input) != "" {
      GuardedIsNeat(Trimmed(input));
      FitIsCut(Guarded(Trimmed(input)));
    }
  }

  lemma SanitizedFits(input: string)
    ensures Sanitized(input) == if Trimmed(input) == "" then Err(EmptyName) else Fit(Guarded(Trimmed(input)))
  {
  }

  // --- sanitizing again ----------------------------------------------------

  lemma NeatIsTrimmed(name: string)
    requires IsNeat(name)
    ensures Trimmed(name) == TrimEnd(name, IsEdge)
    ensures name[|name| - 1] != '-' ==> Trimmed(name) == name
    ensures name[|name| - 1] == '-' ==> |Trimmed(name)| < |name|
    ensures Trimmed(name) != "" && Trimmed(name) <= name
  {
    CleanKeeps(name);
    TidyIsCollapsed(name);
    NothingAtStart(name, IsEdge);
  }

  lemma FitGuarded(name: string)
    requires IsNeat(name) && ByteLength(name) <= MAX_COMPONENT_BYTES
    ensures Fit(Guarded(name)).Ok?
    ensures if IsReserved(Stem(name)) then "_" <= Fit(Guarded(name)).value else Fit(Guarded(name)).value == name
  {
    GuardedIsNeat(name);
    FitIsCut(Guarded(name));
  }

  /** Sanitizing a neat name that fits either keeps it, drops dashes at its end, or puts the guard in front. */
  lemma SanitizedNeat(name: string)
    requires IsNeat(name) && ByteLength(name) <= MAX_COMPONENT_BYTES
    ensures var again := Trimmed(name);
            && again != "" && again <= name && (again == name <==> name[|name| - 1] != '-')
            && Sanitized(name).Ok?
            && (if IsReserved(Stem(again)) then "_" <= Sanitized(name).value else Sanitized(name).value == again)
  {
    NeatIsTrimmed(name);
    SanitizedFits(name);
    TrimmedIsNeat(name);
    PrefixIsShorter(Trimmed(name), name);
    FitGuarded(Trimmed(name));
  }

  lemma ReservedHead(name: string)
    requires name != "" && IsReserved(Stem(name))
    ensures name[0] != '_'
  {
  }

  lemma NeatAgain(name: string)
    requires IsNeat(name) && ByteLength(name) <= MAX_COMPONENT_BYTES
    ensures Sanitized(name) == Ok(name) <==> name[|name| - 1] != '-' && !IsReserved(Stem(name))
  {
    SanitizedNeat(name);
    if IsReserved(Stem(Trimmed(name))) {
      ReservedHead(Trimmed(name));
    }
  }

  /** A reserved name, then a space, then only dots and spaces. */
  predicate EndsReserved(short: string) {
    exists k | 0 < k < |short| ::
      IsReserved(short[..k]) && short[k] == ' ' && forall i | k <= i < |short| :: IsTail(short[i])
  }

  /** What is left at the limit is a reserved name and what the cut then drops. */
  predicate HidesReserved(name: string) {
    ByteLength(name) > MAX_COMPONENT_BYTES && EndsReserved(Truncated(name, MAX_COMPONENT_BYTES))
  }

  /** What is left at the limit ends in a dash, but for the dots and spaces the cut then drops. */
  predicate HidesDash(name: string) {
    ByteLength(name) > MAX_COMPONENT_BYTES && Cut(name) != "" && Cut(name)[|Cut(name)| - 1] == '-'
  }

  /** Sanitizing a sanitized name changes it exactly when the name was cut at a dash or behind a reserved name. */
  lemma SanitizingAgain(input: string)
    ensures Sanitized(input).Ok? ==>
              var name, r := Guarded(Trimmed(input)), Sanitized(input).value;
              Sanitized(r) == Ok(r) <==> !HidesDash(name) && !HidesReserved(name)
  {
    SanitizedFits(input);
    TrimmedIsNeat(input);
    if Trimmed(input) != "" {
      var name := Guarded(Trimmed(input));
      GuardedIsNeat(Trimmed(input));
      FitIsCut(name);
      NeatAgain(Cut(name));
      CutReserved(name);
    }
  }

  lemma TrimEndAt(s: string, k: nat)
    requires 0 < k <= |s| && !IsTail(s[k - 1]) && forall i | k <= i < |s| :: IsTail(s[i])
    ensures TrimEnd(s, IsTail) == s[..k]
  {
  }

  lemma LongEnough(name: string)
    requires ByteLength(name) > MAX_COMPONENT_BYTES
    ensures 4 < |Truncated(name, MAX_COMPONENT_BYTES)| < |name|
  {
    var short := Truncated(name, MAX_COMPONENT_BYTES);
    assert name[..|name|] == name && name[..0] == "";
    if |short| < |name| {
      PrefixLengths(name, 0, |short| + 1);
    }
  }

  /** A name reserved on Windows gets through exactly when cutting it off at the limit uncovers one. */
  lemma ReservedExactlyWhen(input: string)
    ensures Sanitized(input).Ok? ==>
              (IsReserved(Stem(Sanitized(input).value)) <==> HidesReserved(Guarded(Trimmed(input))))
  {
    TrimmedIsNeat(input);
    SanitizedFits(input);
    if Trimmed(input) != "" {
      GuardedIsNeat(Trimmed(input));
      FitIsCut(Guarded(Trimmed(input)));
      CutReserved(Guarded(Trimmed(input)));
    }
  }

  lemma CutReserved(name: string)
    requires IsNeat(name) && !IsReserved(Stem(name))
    ensures IsReserved(Stem(Cut(name))) <==> HidesReserved(name)
  {
    FitIsCut(name);
    if ByteLength(name) > MAX_COMPONENT_BYTES {
      ShortReserved(name, Truncated(name, MAX_COMPONENT_BYTES));
    }
  }

  lemma ShortReserved(name: string, short: string)
    requires IsNeat(name) && !IsReserved(Stem(name)) && ByteLength(name) > MAX_COMPONENT_BYTES
    requires short == Truncated(name, MAX_COMPONENT_BYTES) && TrimEnd(short, IsTail) != ""
    ensures IsReserved(Stem(TrimEnd(short, IsTail))) <==> EndsReserved(short)
  {
    var r := TrimEnd(short, IsTail);
    if IsReserved(Stem(r)) {
      UncoversReserved(name, r);
      assert r == short[..|r|];
    }
    if EndsReserved(short) {
      var k :| 0 < k < |short| && IsReserved(short[..k]) && short[k] == ' ' && forall i | k <= i < |short| :: IsTail(short[i]);
      CutToReserved(short, k);
    }
  }

  lemma CutToReserved(short: string, k: nat)
    requires 0 < k < |short| && IsReserved(short[..k]) && forall i | k <= i < |short| :: IsTail(short[i])
    ensures IsReserved(Stem(TrimEnd(short, IsTail)))
  {
    ReservedIsPlain(short[..k]);
    assert short[..k][k - 1] == short[k - 1];
    TrimEndAt(short, k);
    StemIs(short[..k]);
  }

  lemma DotEndsStem(name: string, k: nat)
    requires k < |name| && '.' !in name[..k]
    ensures name[k] == '.' ==> Stem(name) == name[..k]
  {
  }

  lemma UncoversReserved(name: string, r: string)
    requires IsNeat(name) && !IsReserved(Stem(name)) && IsReserved(Stem(r))
    requires ByteLength(name) > MAX_COMPONENT_BYTES
    requires r == TrimEnd(Truncated(name, MAX_COMPONENT_BYTES), IsTail) && r != ""
    ensures IsReserved(r) && |r| < |Truncated(name, MAX_COMPONENT_BYTES)| && name[|r|] == ' '
  {
    assert r == name[..|r|];
    if '.' in r {
      StemOfPrefix(name, |r|);
    }
    StemIs(r);
    ReservedIsPlain(r);
    LongEnough(name);
    var short := Truncated(name, MAX_COMPONENT_BYTES);
    assert IsTail(short[|r|]) && short[|r|] == name[|r|];
    DotEndsStem(name, |r|);
  }

  /** One such name: the guard sees another name before its first dot, and the cut then drops all that followed. */
  lemma ReservedAfterCutting(dots: string)
    requires |dots| == 300 && forall i | 0 <= i < 300 :: dots[i] == '.'
    ensures Sanitized("CON " + dots + "x").Ok? && IsReserved(Stem(Sanitized("CON " + dots + "x").value))
  {
    var input := "CON " + dots + "x";
    assert forall i | 4 <= i < 304 :: input[i] == '.';
    assert input[..4] == "CON " && input[4] == '.' && input[304] == 'x';
    CutsDown(input);
  }

  predicate DotsAfterReserved(input: string) {
    |input| == 305 && input[..4] == "CON " && input[304] == 'x' && forall i | 4 <= i < 304 :: input[i] == '.'
  }

  lemma DotsAreNeat(input: string)
    requires DotsAfterReserved(input)
    ensures IsNeat(input) && input[304] != '-' && !IsReserved(Stem(input))
  {
  }

  lemma DotsHideReserved(input: string)
    requires DotsAfterReserved(input)
    ensures HidesReserved(input)
  {
    PrefixLengths(input, 0, |input|);
    assert input[..0] == "" && input[..|input|] == input;
    LongEnough(input);
    var short := Truncated(input, MAX_COMPONENT_BYTES);
    assert short == input[..|short|];
    assert short[..3] == input[..4][..3] == "CON" && Lower("CON") == "con" && short[3] == input[..4][3];
    assert forall i | 3 <= i < |short| :: IsTail(short[i]);
  }

  lemma CutsDown(input: string)
    requires DotsAfterReserved(input)
    ensures Sanitized(input).Ok? && IsReserved(Stem(Sanitized(input).value))
  {
    DotsAreNeat(input);
    NeatIsTrimmed(input);
    DotsHideReserved(input);
    ReservedExactlyWhen(input);
  }

  // --- names of plain characters -------------------------------------------

  function Repeated(c: char, n: nat): string {
    seq(n, _ => c)
  }

  predicate IsAscii(s: string) {
    forall i | 0 <= i < |s| :: s[i] as int < 0x80
  }

  lemma {:induction false} AsciiConcat(base: string, m: string)
    requires IsAscii(m)
    ensures ByteLength(base + m) == ByteLength(base) + |m|
  {
    if m == "" {
      assert base + m == base;
    } else {
      AsciiConcat(base, m[..|m| - 1]);
      assert (base + m)[..|base + m| - 1] == base + m[..|m| - 1];
    }
  }

  /** As much of the addition stays as there is room for. */
  lemma TruncatedAscii(base: string, m: string)
    requires IsAscii(m) && ByteLength(base) <= MAX_COMPONENT_BYTES
    ensures Truncated(base + m, MAX_COMPONENT_BYTES) == base + UpTo(m, MAX_COMPONENT_BYTES - ByteLength(base))
  {
    var name, room := base + m, MAX_COMPONENT_BYTES - ByteLength(base);
    AsciiConcat(base, m);
    if |m| > room {
      AsciiConcat(base, m[..room]);
      assert name[..|base| + room] == base + m[..room];
      TruncationIs(name, MAX_COMPONENT_BYTES, |base| + room);
    }
  }

  function UpTo(s: string, n: nat): string {
    if |s| <= n then s else s[..n]
  }

  lemma TrimEndConcat(base: string, m: string)
    requires base != "" && !IsTail(base[|base| - 1])
    ensures TrimEnd(base + m, IsTail) == base + TrimEnd(m, IsTail)
  {
    var k := |base| + |TrimEnd(m, IsTail)|;
    assert (base + m)[..k] == base + TrimEnd(m, IsTail);
    TrimEndAt(base + m, k);
  }

  /** A name of letters and dashes, too long to be reserved. */
  predicate IsPlain(name: string) {
    |name| > 4 && IsAsciiLetter(name[0]) && forall i | 0 <= i < |name| :: IsAsciiLetter(name[i]) || name[i] == '-'
  }

  lemma PlainIsNeat(name: string)
    requires IsPlain(name)
    ensures IsNeat(name) && '.' !in name
  {
  }

  lemma PlainIsFree(name: string)
    requires IsPlain(name)
    ensures !IsReserved(Stem(name)) && ByteLength(name) == |name|
  {
    StemIs(name);
    AsciiConcat("", name);
    assert "" + name == name;
  }

  lemma TrimmedPlain(name: string)
    requires IsPlain(name) && IsAsciiLetter(name[|name| - 1])
    ensures Trimmed(name) == Guarded(name) == name
  {
    PlainIsNeat(name);
    PlainIsFree(name);
    NeatIsTrimmed(name);
  }

  lemma PlainCut(name: string)
    requires IsPlain(name)
    ensures Cut(name) == UpTo(name, MAX_COMPONENT_BYTES)
  {
    var kept := UpTo(name, MAX_COMPONENT_BYTES);
    AsciiTruncated(name);
    assert kept[|kept| - 1] == name[|kept| - 1] && !IsTail(kept[|kept| - 1]);
  }

  lemma AsciiTruncated(name: string)
    requires IsAscii(name)
    ensures Truncated(name, MAX_COMPONENT_BYTES) == UpTo(name, MAX_COMPONENT_BYTES)
  {
    TruncatedAscii("", name);
    assert "" + name == name && "" + UpTo(name, MAX_COMPONENT_BYTES) == UpTo(name, MAX_COMPONENT_BYTES);
  }

  lemma SanitizedPlain(name: string)
    requires IsPlain(name) && IsAsciiLetter(name[|name| - 1])
    ensures Sanitized(name) == Ok(UpTo(name, MAX_COMPONENT_BYTES))
  {
    TrimmedPlain(name);
    SanitizedFits(name);
    FitPlain(name);
  }

  lemma FitPlain(name: string)
    requires IsPlain(name)
    ensures Fit(name) == Ok(UpTo(name, MAX_COMPONENT_BYTES))
  {
    PlainIsNeat(name);
    FitIsCut(name);
    PlainCut(name);
  }

  lemma DashIsTrimmed(name: string)
    requires |name| == 255 && IsPlain(name) && name[254] == '-' && IsAsciiLetter(name[253])
    ensures Sanitized(name) == Ok(name[..254])
  {
    PlainIsNeat(name);
    NeatIsTrimmed(name);
    EdgeIsTrimmed(name);
    SanitizedFits(name);
    PlainIsFree(name[..254]);
    FitPlain(name[..254]);
  }

  lemma EdgeIsTrimmed(name: string)
    requires |name| == 255 && name[254] == '-' && IsAsciiLetter(name[253])
    ensures TrimEnd(name, IsEdge) == name[..254]
  {
    var n := |TrimEnd(name, IsEdge)|;
    assert IsEdge(name[254]) && !IsEdge(name[253]);
    assert n == 254;
  }

  /** A name sanitized to one that sanitizing again changes: the dash is the last character within the limit. */
  lemma DashAfterCutting()
    ensures var letters := Repeated('a', 254);
            && Sanitized(letters + "-b") == Ok(letters + "-")
            && Sanitized(letters + "-") == Ok(letters)
  {
    var letters := Repeated('a', 254);
    assert (letters + "-b")[..255] == letters + "-" && (letters + "-")[..254] == letters;
    SanitizedPlain(letters + "-b");
    DashIsTrimmed(letters + "-");
  }
}

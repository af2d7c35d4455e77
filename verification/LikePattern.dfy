/** Searching titles: `escape_like` and the pattern it builds (crates/persistence/src/repository.rs). */
module LikePattern {
  import opened Text

  /** `LIKE` with the default escape character. A pattern ending in a bare escape is an error there; here it matches nothing. */
  predicate Like(pattern: string, text: string)
    decreases |pattern| + |text|
  {
    if pattern == "" then text == ""
    else if pattern[0] == '%' then Like(pattern[1..], text) || (text != "" && Like(pattern, text[1..]))
    else if text == "" then false
    else if pattern[0] == '_' then Like(pattern[1..], text[1..])
    else if pattern[0] == '\\' then |pattern| > 1 && pattern[1] == text[0] && Like(pattern[2..], text[1..])
    else pattern[0] == text[0] && Like(pattern[1..], text[1..])
  }

  /** `ILIKE`. */
  predicate ILike(pattern: string, text: string) {
    Like(Lower(pattern), Lower(text))
  }

  function EscapeLike(input: string): string {
    Replace(Replace(Replace(input, '\\', "\\\\"), '%', "\\%"), '_', "\\_")
  }

  function SearchPattern(text: string): string {
    "%" + EscapeLike(text) + "%"
  }

  predicate IsSpecial(c: char) {
    c == '\\' || c == '%' || c == '_'
  }

  /** Each special character behind one escape. */
  function Quoted(s: string): string {
    if s == "" then "" else (if IsSpecial(s[0]) then ['\\', s[0]] else [s[0]]) + Quoted(s[1..])
  }

  /** The three replacements do not disturb each other: the escapes of one are not escaped by the next. */
  lemma {:induction false} EscapesOnce(s: string)
    ensures EscapeLike(s) == Quoted(s)
  {
    if s != "" {
      var head, rest := [s[0]], s[1..];
      assert s == head + rest;
      ReplaceConcat(head, rest, '\\', "\\\\");
      var head1, rest1 := Replace(head, '\\', "\\\\"), Replace(rest, '\\', "\\\\");
      ReplaceConcat(head1, rest1, '%', "\\%");
      var head2, rest2 := Replace(head1, '%', "\\%"), Replace(rest1, '%', "\\%");
      ReplaceConcat(head2, rest2, '_', "\\_");
      HeadEscaped(s[0]);
      EscapesOnce(rest);
    }
  }

  lemma HeadEscaped(c: char)
    ensures EscapeLike([c]) == if IsSpecial(c) then ['\\', c] else [c]
  {
    ReplaceOne(c, '\\', "\\\\");
    if c == '\\' {
      ReplaceTwo('\\', '\\', '%', "\\%");
      ReplaceTwo('\\', '\\', '_', "\\_");
    } else {
      ReplaceOne(c, '%', "\\%");
      if c == '%' {
        ReplaceTwo('\\', '%', '_', "\\_");
      } else {
        ReplaceOne(c, '_', "\\_");
      }
    }
  }

  lemma ReplaceOne(c: char, out: char, with: string)
    ensures Replace([c], out, with) == if c == out then with else [c]
  {
  }

  lemma ReplaceTwo(a: char, b: char, out: char, with: string)
    requires a != out && b != out
    ensures Replace([a, b], out, with) == [a, b]
  {
    assert [a, b][1..] == [b];
    ReplaceOne(b, out, with);
  }

  lemma {:induction false} LowerQuoted(s: string)
    ensures Lower(Quoted(s)) == Quoted(Lower(s))
  {
    if s != "" {
      var head := if IsSpecial(s[0]) then ['\\', s[0]] else [s[0]];
      LowerQuoted(s[1..]);
      LowerConcat(head, Quoted(s[1..]));
      assert Lower(s)[1..] == Lower(s[1..]);
      LowerHead(s[0]);
    }
  }

  lemma LowerHead(c: char)
    ensures IsSpecial(LowerChar(c)) == IsSpecial(c)
    ensures Lower(if IsSpecial(c) then ['\\', c] else [c])
         == if IsSpecial(c) then ['\\', LowerChar(c)] else [LowerChar(c)]
  {
  }

  lemma {:induction false} AnythingMatches(text: string)
    ensures Like("%", text)
  {
    assert "%"[1..] == "";
    if text != "" {
      AnythingMatches(text[1..]);
    }
  }

  lemma {:induction false} QuotedMatchesItself(s: string, text: string)
    ensures Like(Quoted(s) + "%", text) <==> s <= text
  {
    var pattern := Quoted(s) + "%";
    if s == "" {
      assert pattern == "%";
      AnythingMatches(text);
    } else {
      var rest := Quoted(s[1..]) + "%";
      assert pattern == (if IsSpecial(s[0]) then ['\\', s[0]] else [s[0]]) + rest;
      assert pattern[if IsSpecial(s[0]) then 2 else 1..] == rest;
      if text != "" {
        QuotedMatchesItself(s[1..], text[1..]);
        assert s <= text <==> s[0] == text[0] && s[1..] <= text[1..] by {
          assert s == [s[0]] + s[1..] && text == [text[0]] + text[1..];
        }
      }
    }
  }

  lemma {:induction false} SkipsAny(s: string, text: string)
    ensures Like("%" + (Quoted(s) + "%"), text) <==> Contains(text, s)
  {
    var rest := Quoted(s) + "%";
    var pattern := "%" + rest;
    assert pattern[1..] == rest;
    QuotedMatchesItself(s, text);
    assert text[0..] == text;
    if text != "" {
      SkipsAny(s, text[1..]);
      if Contains(text[1..], s) {
        var i :| 0 <= i <= |text[1..]| && s <= text[1..][i..];
        assert text[i + 1..] == text[1..][i..];
      }
      if Contains(text, s) && !(s <= text) {
        var i :| 0 <= i <= |text| && s <= text[i..];
        assert text[1..][i - 1..] == text[i..];
      }
    }
  }

  /** Searching for any text, wildcards and escapes included, finds exactly the titles that contain it, whatever the case. */
  lemma SearchFindsTheText(text: string, title: string)
    ensures ILike(SearchPattern(text), title) <==> Contains(Lower(title), Lower(text))
  {
    EscapesOnce(text);
    LowerQuoted(text);
    SkipsAny(Lower(text), Lower(title));
    assert Lower(SearchPattern(text)) == "%" + (Quoted(Lower(text)) + "%");
  }
}

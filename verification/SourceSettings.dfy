/** The defaults a source package declares (crates/aidoku-runtime/src/settings.rs). */
module SourceSettings {
  import opened Wrappers
  import opened JsonValue

  /** A value in the type the setting declares. */
  datatype SettingValue = Switch(on: bool) | Text(text: string) | Choices(choices: seq<string>)

  datatype Seed = Seed(key: string, value: SettingValue)

  function TextAt(entry: Json, key: string): Option<string> {
    var v := Get(entry, key);
    if v.Some? && v.value.Str? then Some(v.value.text) else None
  }

  function Strings(items: seq<Json>): Option<seq<string>> {
    if items == [] then Some([])
    else if !items[0].Str? then None
    else
      var rest := Strings(items[1..]);
      if rest.None? then None else Some([items[0].text] + rest.value)
  }

  /** A default in its declared type; a control of another kind, or a default of another shape, has none. */
  function ValueFor(declared: string, default: Json): Option<SettingValue> {
    if declared == "switch" then
      if default.Bool? then Some(Switch(default.b)) else None
    else if declared == "text" || declared == "select" || declared == "segment" then
      if default.Str? then Some(Text(default.text)) else None
    else if declared == "multi-select" && default.Arr? then
      var choices := Strings(default.items);
      if choices.Some? then Some(Choices(choices.value)) else None
    else None
  }

  function SeedOf(entry: Json): Option<Seed> {
    var key, declared, default := TextAt(entry, "key"), TextAt(entry, "type"), Get(entry, "default");
    if key.None? || declared.None? || default.None? then None
    else
      var value := ValueFor(declared.value, default.value);
      if value.None? then None else Some(Seed(key.value, value.value))
  }

  predicate IsGroup(entry: Json) {
    TextAt(entry, "type") == Some("group")
  }

  /** The settings an entry stands for: those a group holds, else itself. Groups do not nest. */
  function Settings(entry: Json): seq<Json> {
    if !IsGroup(entry) then [entry]
    else
      var items := Get(entry, "items");
      if items.Some? && items.value.Arr? then items.value.items else []
  }

  function AllSettings(entries: seq<Json>): seq<Json> {
    if entries == [] then [] else AllSettings(entries[..|entries| - 1]) + Settings(entries[|entries| - 1])
  }

  function Seeds(settings: seq<Json>): seq<Seed> {
    if settings == [] then [] else
      var seed := SeedOf(settings[|settings| - 1]);
      Seeds(settings[..|settings| - 1]) + (if seed.Some? then [seed.value] else [])
  }

  function DeclaredDefaults(declaration: Json): seq<Seed> {
    if declaration.Arr? then Seeds(AllSettings(declaration.items)) else []
  }

  lemma {:induction false} SeedsConcat(a: seq<Json>, b: seq<Json>)
    ensures Seeds(a + b) == Seeds(a) + Seeds(b)
  {
    if b == [] {
      assert a + b == a;
    } else {
      SeedsConcat(a, b[..|b| - 1]);
      assert (a + b)[..|a + b| - 1] == a + b[..|b| - 1];
    }
  }

  lemma OneSeed(entry: Json)
    ensures Seeds([entry]) == if SeedOf(entry).Some? then [SeedOf(entry).value] else []
  {
  }

  /** The seeds of the items of a group, appended one by one. */
  method CollectItems(out: seq<Seed>, items: seq<Json>) returns (r: seq<Seed>)
    ensures r == out + Seeds(items)
  {
    r := out;
    for k := 0 to |items|
      invariant r == out + Seeds(items[..k])
    {
      SeedsConcat(items[..k], [items[k]]);
      OneSeed(items[k]);
      assert items[..k + 1] == items[..k] + [items[k]];
      var seed := SeedOf(items[k]);
      if seed.Some? {
        r := r + [seed.value];
      }
    }
    assert items[..|items|] == items;
  }

  lemma OneEntry(entries: seq<Json>, i: nat)
    requires i < |entries|
    ensures Seeds(AllSettings(entries[..i + 1])) == Seeds(AllSettings(entries[..i])) + Seeds(Settings(entries[i]))
  {
    assert entries[..i + 1][..i] == entries[..i];
    SeedsConcat(AllSettings(entries[..i]), Settings(entries[i]));
  }

  method CollectDefaults(declaration: Json) returns (out: seq<Seed>)
    ensures out == DeclaredDefaults(declaration)
  {
    out := [];
    if !declaration.Arr? {
      return;
    }
    var entries := declaration.items;
    for i := 0 to |entries|
      invariant out == Seeds(AllSettings(entries[..i]))
    {
      OneEntry(entries, i);
      if IsGroup(entries[i]) {
        var items := Get(entries[i], "items");
        if items.Some? && items.value.Arr? {
          out := CollectItems(out, items.value.items);
        }
        continue;
      }
      OneSeed(entries[i]);
      var seed := SeedOf(entries[i]);
      if seed.Some? {
        out := out + [seed.value];
      }
    }
    assert entries[..|entries|] == entries;
  }

  /** An array of strings, as strings. */
  predicate AreStrings(items: seq<Json>, texts: seq<string>) {
    |items| == |texts| && forall i | 0 <= i < |items| :: items[i] == Str(texts[i])
  }

  lemma {:induction false} StringsAre(items: seq<Json>, texts: seq<string>)
    ensures Strings(items) == Some(texts) <==> AreStrings(items, texts)
  {
    if items != [] {
      if texts != [] {
        StringsAre(items[1..], texts[1..]);
        assert texts == [texts[0]] + texts[1..];
      }
      if items[0].Str? && Strings(items[1..]).Some? {
        var rest := Strings(items[1..]).value;
        assert ([items[0].text] + rest)[1..] == rest && ([items[0].text] + rest)[0] == items[0].text;
      }
    }
  }

  /** Which settings seed what: a key, a type the host renders, and a default that is a value of that type. */
  lemma SeedOfIs(entry: Json, seed: Seed)
    ensures SeedOf(entry) == Some(seed) <==>
              && Get(entry, "key") == Some(Str(seed.key))
              && match seed.value
                 case Switch(on) => Get(entry, "type") == Some(Str("switch")) && Get(entry, "default") == Some(Bool(on))
                 case Text(text) =>
                   && (Get(entry, "type") == Some(Str("text")) || Get(entry, "type") == Some(Str("select"))
                       || Get(entry, "type") == Some(Str("segment")))
                   && Get(entry, "default") == Some(Str(text))
                 case Choices(choices) =>
                   && Get(entry, "type") == Some(Str("multi-select"))
                   && Get(entry, "default").Some? && Get(entry, "default").value.Arr?
                   && AreStrings(Get(entry, "default").value.items, choices)
  {
    var declared, default := TextAt(entry, "type"), Get(entry, "default");
    if declared.Some? && default.Some? {
      ValueForIs(declared.value, default.value, seed.value);
    }
  }

  lemma ValueForIs(declared: string, default: Json, value: SettingValue)
    ensures ValueFor(declared, default) == Some(value) <==>
              match value
              case Switch(on) => declared == "switch" && default == Bool(on)
              case Text(text) => (declared == "text" || declared == "select" || declared == "segment") && default == Str(text)
              case Choices(choices) => declared == "multi-select" && default.Arr? && AreStrings(default.items, choices)
  {
    if default.Arr? && value.Choices? {
      StringsAre(default.items, value.choices);
    }
  }

  /** A group, told by its type, stands for the settings in its list of items; anything else for itself. */
  lemma SettingsAre(entry: Json)
    ensures Settings(entry) == if Get(entry, "type") != Some(Str("group")) then [entry]
                               else match Get(entry, "items")
                                    case Some(Arr(items)) => items
                                    case _ => []
  {
  }

  /** The seeds are those of the settings that have a key, a rendered type and a default of that type, in order. */
  lemma {:induction false} SeedsAre(settings: seq<Json>, seed: Seed)
    ensures seed in Seeds(settings) <==> exists i | 0 <= i < |settings| :: SeedOf(settings[i]) == Some(seed)
  {
    if settings != [] {
      var n := |settings| - 1;
      SeedsAre(settings[..n], seed);
      if i :| 0 <= i < n && SeedOf(settings[..n][i]) == Some(seed) {
        assert settings[i] == settings[..n][i];
      }
      if i :| 0 <= i < n && SeedOf(settings[i]) == Some(seed) {
        assert settings[..n][i] == settings[i];
      }
    }
  }
}

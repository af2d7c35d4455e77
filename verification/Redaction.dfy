/**
 Masking secrets in log lines: JSON values, URLs and whole lines (crates/api/src/telemetry.rs).
 */
module Redaction {
  import opened JsonValue
  import opened Wrappers
  import opened Text

  const MASK := "***"

  const SENSITIVE := [
    "authorization", "cookie", "set-cookie", "token", "secret", "password", "api-key", "api_key"
  ]

  predicate IsSensitive(field: string) {
    exists i | 0 <= i < |SENSITIVE| :: Contains(Lower(field), SENSITIVE[i])
  }

  /** The name stands somewhere in the key, in any case. */
  predicate Names(key: string, name: string) {
    exists i | 0 <= i <= |key| :: NamesAt(key, name, i)
  }

  predicate NamesAt(key: string, name: string, i: nat)
    requires i <= |key|
  {
    i + |name| <= |key| && forall k | 0 <= k < |name| :: LowerChar(key[i + k]) == name[k]
  }

  predicate NamesSecret(key: string) {
    || Names(key, "authorization") || Names(key, "cookie") || Names(key, "set-cookie") || Names(key, "token")
    || Names(key, "secret") || Names(key, "password") || Names(key, "api-key") || Names(key, "api_key")
  }

  /** A key is sensitive exactly when one of eight names stands anywhere in it, whatever the case. */
  lemma SensitiveExactlyWhen(key: string)
    ensures IsSensitive(key) <==> NamesSecret(key)
    ensures forall other | Lower(other) == Lower(key) :: IsSensitive(other) == IsSensitive(key)
  {
    forall k | 0 <= k < |SENSITIVE| ensures Contains(Lower(key), SENSITIVE[k]) <==> Names(key, SENSITIVE[k]) {
      ContainsIsNames(key, SENSITIVE[k]);
    }
    var names := SENSITIVE;
    assert names[0] == "authorization" && names[1] == "cookie" && names[2] == "set-cookie" && names[3] == "token";
    assert names[4] == "secret" && names[5] == "password" && names[6] == "api-key" && names[7] == "api_key";
  }

  lemma ContainsIsNames(key: string, name: string)
    ensures Contains(Lower(key), name) <==> Names(key, name)
  {
    forall i | 0 <= i <= |key| ensures name <= Lower(key)[i..] <==> NamesAt(key, name, i) {
      if name <= Lower(key)[i..] {
        assert forall k | 0 <= k < |name| :: Lower(key)[i..][k] == name[k];
      }
    }
  }

  // --- values --------------------------------------------------------------

  function Redacted(v: Json): Json {
    match v
    case Arr(items) => Arr(seq(|items|, i requires 0 <= i < |items| => Redacted(items[i])))
    case Obj(members) => Obj(seq(|members|, i requires 0 <= i < |members| => RedactedMember(members[i])))
    case _ => v
  }

  function RedactedMember(m: Member): Member {
    Member(m.key, if IsSensitive(m.key) then Str(MASK) else Redacted(m.value))
  }

  /** Visits the tree as the source does, one child after the other. */
  method RedactValue(v: Json) returns (r: Json)
    ensures r == Redacted(v)
    decreases v
  {
    match v
    case Obj(members) =>
      var done := members;
      for i := 0 to |members|
        invariant |done| == |members|
        invariant forall k | 0 <= k < i :: done[k] == RedactedMember(members[k])
        invariant forall k | i <= k < |members| :: done[k] == members[k]
      {
        if IsSensitive(members[i].key) {
          done := done[i := Member(members[i].key, Str(MASK))];
        } else {
          var child := RedactValue(members[i].value);
          done := done[i := Member(members[i].key, child)];
        }
      }
      assert done == seq(|members|, i requires 0 <= i < |members| => RedactedMember(members[i]));
      return Obj(done);
    case Arr(items) =>
      var done := items;
      for i := 0 to |items|
        invariant |done| == |items|
        invariant forall k | 0 <= k < i :: done[k] == Redacted(items[k])
        invariant forall k | i <= k < |items| :: done[k] == items[k]
      {
        var child := RedactValue(items[i]);
        done := done[i := child];
      }
      assert done == seq(|items|, i requires 0 <= i < |items| => Redacted(items[i]));
      return Arr(done);
    case _ =>
      return v;
  }

  /** The trees differ only in what stands under sensitive keys. */
  predicate Alike(a: Json, b: Json) {
    match (a, b)
    case (Arr(items), Arr(others)) =>
      |items| == |others| && forall i | 0 <= i < |items| :: Alike(items[i], others[i])
    case (Obj(members), Obj(others)) =>
      |members| == |others| && forall i | 0 <= i < |members| :: AlikeMember(members[i], others[i])
    case _ => a == b
  }

  predicate AlikeMember(m: Member, n: Member) {
    m.key == n.key && (IsSensitive(m.key) || Alike(m.value, n.value))
  }

  /** Nothing but the mask stands under a sensitive key. */
  predicate Masked(v: Json) {
    match v
    case Arr(items) => forall i | 0 <= i < |items| :: Masked(items[i])
    case Obj(members) => forall i | 0 <= i < |members| :: MaskedMember(members[i])
    case _ => true
  }

  predicate MaskedMember(m: Member) {
    if IsSensitive(m.key) then m.value == Str(MASK) else Masked(m.value)
  }

  lemma {:induction false} RedactedIsMasked(v: Json)
    ensures Masked(Redacted(v)) && Alike(Redacted(v), v)
  {
    match v
    case Arr(items) =>
      forall i | 0 <= i < |items| ensures Masked(Redacted(items[i])) && Alike(Redacted(items[i]), items[i]) {
        RedactedIsMasked(items[i]);
      }
    case Obj(members) =>
      forall i | 0 <= i < |members|
        ensures MaskedMember(RedactedMember(members[i])) && AlikeMember(RedactedMember(members[i]), members[i])
      {
        if !IsSensitive(members[i].key) {
          RedactedIsMasked(members[i].value);
        }
      }
    case _ =>
  }

  /** Two trees redact to the same output exactly when they differ only under sensitive keys. */
  lemma {:induction false} NonInterference(a: Json, b: Json)
    ensures Redacted(a) == Redacted(b) <==> Alike(a, b)
  {
    match (a, b)
    case (Arr(items), Arr(others)) =>
      if |items| == |others| {
        ArrayNonInterference(items, others);
      } else {
        assert |Redacted(a).items| != |Redacted(b).items|;
      }
    case (Obj(members), Obj(others)) =>
      if |members| == |others| {
        ObjectNonInterference(members, others);
      } else {
        assert |Redacted(a).members| != |Redacted(b).members|;
      }
    case _ =>
  }

  lemma {:induction false} ArrayNonInterference(items: seq<Json>, others: seq<Json>)
    requires |items| == |others|
    ensures Redacted(Arr(items)) == Redacted(Arr(others)) <==> forall i | 0 <= i < |items| :: Alike(items[i], others[i])
    decreases items
  {
    forall i | 0 <= i < |items| ensures Redacted(items[i]) == Redacted(others[i]) <==> Alike(items[i], others[i]) {
      NonInterference(items[i], others[i]);
    }
    var done, done' := Redacted(Arr(items)).items, Redacted(Arr(others)).items;
    assert forall i | 0 <= i < |items| :: done[i] == Redacted(items[i]) && done'[i] == Redacted(others[i]);
    assert done == done' <==> forall i | 0 <= i < |items| :: done[i] == done'[i];
  }

  lemma {:induction false} ObjectNonInterference(members: seq<Member>, others: seq<Member>)
    requires |members| == |others|
    ensures Redacted(Obj(members)) == Redacted(Obj(others))
       <==> forall i | 0 <= i < |members| :: AlikeMember(members[i], others[i])
    decreases members
  {
    forall i | 0 <= i < |members|
      ensures RedactedMember(members[i]) == RedactedMember(others[i]) <==> AlikeMember(members[i], others[i])
    {
      NonInterference(members[i].value, others[i].value);
    }
    var done, done' := Redacted(Obj(members)).members, Redacted(Obj(others)).members;
    assert forall i | 0 <= i < |members| ::
        done[i] == RedactedMember(members[i]) && done'[i] == RedactedMember(others[i]);
    assert done == done' <==> forall i | 0 <= i < |members| :: done[i] == done'[i];
  }

  lemma {:induction false} MaskedIsFixed(v: Json)
    requires Masked(v)
    ensures Redacted(v) == v
  {
    match v
    case Arr(items) =>
      forall i | 0 <= i < |items| ensures Redacted(items[i]) == items[i] {
        MaskedIsFixed(items[i]);
      }
      assert Redacted(v).items == items;
    case Obj(members) =>
      forall i | 0 <= i < |members| ensures RedactedMember(members[i]) == members[i] {
        assert MaskedMember(members[i]);
        if !IsSensitive(members[i].key) {
          MaskedIsFixed(members[i].value);
        }
      }
      assert Redacted(v).members == members;
    case _ =>
  }

  /**
   The redaction of a tree is the one tree that has the mask under every sensitive key and is
   otherwise, in its keys and all its other leaves, the tree itself. So redacting again changes nothing.
   */
  lemma RedactionIsUnique(v: Json, r: Json)
    ensures r == Redacted(v) <==> Masked(r) && Alike(r, v)
    ensures Redacted(Redacted(v)) == Redacted(v)
  {
    RedactedIsMasked(v);
    NonInterference(r, v);
    MaskedIsFixed(Redacted(v));
    if Masked(r) {
      MaskedIsFixed(r);
    }
  }

  /** What becomes of an object: under a key that names a secret the mask stands, and every other value is redacted itself. */
  lemma SecretsAreMasked(members: seq<Member>, i: nat)
    requires i < |members|
    ensures var key, r := members[i].key, Redacted(Obj(members));
            && r.Obj? && |r.members| == |members| && r.members[i].key == key
            && (if NamesSecret(key) then r.members[i].value == Str("***")
                else r.members[i].value == Redacted(members[i].value))
  {
    SensitiveExactlyWhen(members[i].key);
  }

  /** Leaves stay, and the items of an array are redacted one by one. */
  lemma OthersStay(v: Json)
    ensures !v.Obj? && !v.Arr? ==> Redacted(v) == v
    ensures v.Arr? ==> Redacted(v).Arr? && |Redacted(v).items| == |v.items|
                       && forall i | 0 <= i < |v.items| :: Redacted(v).items[i] == Redacted(v.items[i])
  {
  }

  // --- lines ---------------------------------------------------------------

  /** UTF-8 and the JSON text format, as the functions the line goes through. */
  datatype Codec = Codec(
    decode: seq<Byte> -> Option<string>, parse: string -> Option<Json>, write: Json -> Option<string>,
    encode: string -> seq<Byte>)

  const DROPPED := "{\"redaction\":\"line could not be parsed and was dropped\"}"

  /** What of a line may show in its redaction. */
  datatype Visible = Dropped | Blank | Shown(v: Json)

  function VisibleOf(codec: Codec, line: seq<Byte>): Visible {
    var text := codec.decode(line);
    if text.None? then Dropped
    else if Trim(text.value) == "" then Blank
    else
      match codec.parse(text.value)
      case None => Dropped
      case Some(v) => Shown(v)
  }

  function Printed(codec: Codec, v: Visible): string {
    match v
    case Dropped => DROPPED
    case Blank => ""
    case Shown(v) => (var printed := codec.write(Redacted(v)); if printed.Some? then printed.value else DROPPED)
  }

  function RedactLine(codec: Codec, line: seq<Byte>): seq<Byte> {
    codec.encode(Printed(codec, VisibleOf(codec, line)))
  }

  predicate IsBlank(text: string) {
    forall i | 0 <= i < |text| :: IsWhitespace(text[i])
  }

  lemma VisibleIs(codec: Codec, line: seq<Byte>)
    ensures VisibleOf(codec, line) ==
            match codec.decode(line)
            case None => Dropped
            case Some(text) =>
              if IsBlank(text) then Blank else if codec.parse(text).None? then Dropped else Shown(codec.parse(text).value)
  {
    if codec.decode(line).Some? {
      TrimmedBlank(codec.decode(line).value);
    }
  }

  /** A blank line stays blank, one that cannot be read is replaced, and one that can is printed redacted. */
  lemma RedactLineIs(codec: Codec, line: seq<Byte>)
    ensures match codec.decode(line)
            case None => RedactLine(codec, line) == codec.encode(DROPPED)
            case Some(text) =>
              if IsBlank(text) then RedactLine(codec, line) == codec.encode("")
              else RedactLine(codec, line) == codec.encode(ReprintedOr(codec, codec.parse(text), DROPPED))
  {
    VisibleIs(codec, line);
  }

  /** The redacted value as it is printed, if there is one and it can be. */
  function ReprintedOr(codec: Codec, v: Option<Json>, otherwise: string): string {
    if v.None? || codec.write(Redacted(v.value)).None? then otherwise else codec.write(Redacted(v.value)).value
  }

  lemma TrimmedBlank(text: string)
    ensures Trim(text) == "" <==> IsBlank(text)
  {
  }

  predicate AlikeLines(codec: Codec, a: seq<Byte>, b: seq<Byte>) {
    match (VisibleOf(codec, a), VisibleOf(codec, b))
    case (Shown(v), Shown(w)) => Alike(v, w)
    case (v, w) => v == w
  }

  /** Lines that differ only under sensitive keys, or that cannot be parsed at all, cannot be told apart in the output. */
  lemma LinesDoNotInterfere(codec: Codec, a: seq<Byte>, b: seq<Byte>)
    requires AlikeLines(codec, a, b)
    ensures RedactLine(codec, a) == RedactLine(codec, b)
  {
    if VisibleOf(codec, a).Shown? {
      NonInterference(VisibleOf(codec, a).v, VisibleOf(codec, b).v);
    }
  }

  /** What JSON text and UTF-8 keep: what is parsed can be printed redacted and parsed again, and texts stay distinct. */
  ghost predicate IsFaithful(codec: Codec) {
    && (forall text :: codec.parse(text).Some? ==> ReadsBack(codec, Redacted(codec.parse(text).value)))
    && codec.parse("").None?
    && forall s, t :: codec.encode(s) == codec.encode(t) ==> s == t
  }

  predicate ReadsBack(codec: Codec, v: Json) {
    codec.write(v).Some? && codec.parse(codec.write(v).value) == Some(v)
  }

  /** Dropped, or a value that redacts to what is printed for a dropped line. */
  predicate LooksDropped(codec: Codec, line: seq<Byte>) {
    match VisibleOf(codec, line)
    case Dropped => true
    case Blank => false
    case Shown(v) => codec.write(Redacted(v)) == Some(DROPPED)
  }

  lemma ShownReadsBack(codec: Codec, line: seq<Byte>)
    requires IsFaithful(codec)
    ensures var v := VisibleOf(codec, line);
            v.Shown? ==> ReadsBack(codec, Redacted(v.v)) && Printed(codec, v) != ""
  {
  }

  /**
   With a faithful codec two lines come out the same exactly when they are alike but for secrets, or
   when both look like a dropped line.
   */
  lemma LinesAreToldApart(codec: Codec, a: seq<Byte>, b: seq<Byte>)
    requires IsFaithful(codec)
    ensures RedactLine(codec, a) == RedactLine(codec, b)
       <==> AlikeLines(codec, a, b) || (LooksDropped(codec, a) && LooksDropped(codec, b))
  {
    var v, w := VisibleOf(codec, a), VisibleOf(codec, b);
    ShownReadsBack(codec, a);
    ShownReadsBack(codec, b);
    if v.Shown? && w.Shown? {
      NonInterference(v.v, w.v);
    }
    assert RedactLine(codec, a) == RedactLine(codec, b) <==> Printed(codec, v) == Printed(codec, w);
  }

  // --- query strings -------------------------------------------------------

  function RedactPair(pair: string): string {
    match SplitOnce(pair, '=')
    case Some((key, _)) => if IsSensitive(key) then key + "=" + MASK else pair
    case None => pair
  }

  function RedactPairs(pairs: seq<string>): (masked: seq<string>)
    ensures |masked| == |pairs| && forall i | 0 <= i < |pairs| :: masked[i] == RedactPair(pairs[i])
  {
    seq(|pairs|, i requires 0 <= i < |pairs| => RedactPair(pairs[i]))
  }

  function RedactQuery(url: string): string {
    match SplitOnce(url, '?')
    case None => url
    case Some((path, query)) => path + "?" + Join(RedactPairs(Split(query, '&')), '&')
  }

  predicate AlikePairs(p: string, q: string) {
    match (SplitOnce(p, '='), SplitOnce(q, '='))
    case (Some((key, _)), Some((other, _))) => p == q || (key == other && IsSensitive(key))
    case _ => p == q
  }

  /** The URLs differ only in the values of sensitive parameters. */
  predicate AlikeUrls(a: string, b: string) {
    match (SplitOnce(a, '?'), SplitOnce(b, '?'))
    case (Some((path, query)), Some((other, query'))) =>
      var pairs, pairs' := Split(query, '&'), Split(query', '&');
      path == other && |pairs| == |pairs'| && forall i | 0 <= i < |pairs| :: AlikePairs(pairs[i], pairs'[i])
    case _ => a == b
  }

  lemma SplitOnceIs(head: string, c: char, rest: string)
    requires c !in head
    ensures SplitOnce(head + [c] + rest, c) == Some((head, rest))
  {
    FirstSeparator(head, c, rest);
  }

  /** The key of a pair whose value is masked. */
  function SensitiveKey(pair: string): Option<string> {
    match SplitOnce(pair, '=')
    case Some((key, _)) => if IsSensitive(key) then Some(key) else None
    case None => None
  }

  lemma MaskedPair(p: string)
    ensures RedactPair(p) == if SensitiveKey(p).Some? then SensitiveKey(p).value + "=" + MASK else p
    ensures SensitiveKey(RedactPair(p)) == SensitiveKey(p)
  {
    if SensitiveKey(p).Some? {
      SplitOnceIs(SensitiveKey(p).value, '=', MASK);
    }
  }

  lemma PairsDoNotInterfere(p: string, q: string)
    ensures RedactPair(p) == RedactPair(q) <==> AlikePairs(p, q)
  {
    MaskedPair(p);
    MaskedPair(q);
    assert AlikePairs(p, q) <==> p == q || (SensitiveKey(p).Some? && SensitiveKey(p) == SensitiveKey(q));
  }

  /** A parameter that names a secret keeps its key and loses its value; any other stays as it is. */
  lemma SecretParametersAreMasked(key: string, value: string)
    requires '=' !in key
    ensures RedactPair(key + "=" + value) ==
            if NamesSecret(key) then key + "=" + "***" else key + "=" + value
  {
    SensitiveExactlyWhen(key);
    SplitOnceIs(key, '=', value);
  }

  lemma RedactedPairStays(p: string)
    ensures RedactPair(RedactPair(p)) == RedactPair(p)
    ensures '&' !in p ==> '&' !in RedactPair(p)
  {
    MaskedPair(p);
    MaskedPair(RedactPair(p));
  }

  /** The output still splits where the input did. */
  lemma RedactedQuerySplits(url: string)
    requires SplitOnce(url, '?').Some?
    ensures var (path, query) := SplitOnce(url, '?').value;
            var masked := Join(RedactPairs(Split(query, '&')), '&');
            SplitOnce(RedactQuery(url), '?') == Some((path, masked))
            && Split(masked, '&') == RedactPairs(Split(query, '&'))
  {
    var (path, query) := SplitOnce(url, '?').value;
    var pairs := Split(query, '&');
    forall i | 0 <= i < |pairs| ensures '&' !in RedactPair(pairs[i]) {
      assert pairs[i] in pairs;
      RedactedPairStays(pairs[i]);
    }
    SplitJoin(RedactPairs(pairs), '&');
    SplitOnceIs(path, '?', Join(RedactPairs(pairs), '&'));
  }

  /** Two URLs redact to the same output exactly when they differ only in the values of sensitive parameters. */
  lemma UrlsDoNotInterfere(a: string, b: string)
    ensures RedactQuery(a) == RedactQuery(b) <==> AlikeUrls(a, b)
  {
    if SplitOnce(a, '?').Some? {
      RedactedQuerySplits(a);
    }
    if SplitOnce(b, '?').Some? {
      RedactedQuerySplits(b);
    }
    if SplitOnce(a, '?').Some? && SplitOnce(b, '?').Some? {
      var pairs, pairs' := Split(SplitOnce(a, '?').value.1, '&'), Split(SplitOnce(b, '?').value.1, '&');
      ListsDoNotInterfere(pairs, pairs');
    }
  }

  lemma ListsDoNotInterfere(pairs: seq<string>, pairs': seq<string>)
    ensures RedactPairs(pairs) == RedactPairs(pairs')
       <==> |pairs| == |pairs'| && forall i | 0 <= i < |pairs| :: AlikePairs(pairs[i], pairs'[i])
  {
    var masked, masked' := RedactPairs(pairs), RedactPairs(pairs');
    if |pairs| == |pairs'| {
      forall i | 0 <= i < |pairs| ensures masked[i] == masked'[i] <==> AlikePairs(pairs[i], pairs'[i]) {
        PairsDoNotInterfere(pairs[i], pairs'[i]);
      }
    }
  }

  /** Redacting a URL keeps all but the values of sensitive parameters, and redacting it again keeps everything. */
  lemma RedactQueryKeeps(url: string)
    ensures AlikeUrls(RedactQuery(url), url)
    ensures RedactQuery(RedactQuery(url)) == RedactQuery(url)
  {
    if SplitOnce(url, '?').Some? {
      RedactedQuerySplits(url);
      var pairs := Split(SplitOnce(url, '?').value.1, '&');
      var masked := RedactPairs(pairs);
      forall i | 0 <= i < |pairs| ensures RedactPair(masked[i]) == masked[i] {
        RedactedPairStays(pairs[i]);
      }
      assert RedactPairs(masked) == masked;
    }
    UrlsDoNotInterfere(RedactQuery(url), url);
  }
}

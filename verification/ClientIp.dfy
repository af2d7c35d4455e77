/** The client's address behind trusted proxies: forwarded hops read right to left (crates/api/src/client_ip.rs). */
module ClientIp {
  import opened Wrappers
  import opened Text
  import opened NetworkMask

  // --- hops of any kind ----------------------------------------------------

  /** An entry that is no address is passed over. */
  function Parsed<A>(entries: seq<string>, hop: string -> Option<A>): seq<A> {
    if entries == [] then [] else
      (if hop(entries[0]).Some? then [hop(entries[0]).value] else []) + Parsed(entries[1..], hop)
  }

  function Hops<A>(forwarded: string, parse: string -> Option<A>): seq<A> {
    Parsed(Split(forwarded, ','), (entry: string) => parse(Trim(entry)))
  }

  /** The first untrusted hop from the right. */
  function Rightmost<A>(hops: seq<A>, trusted: A -> bool): Option<A> {
    if hops == [] then None
    else if !trusted(hops[|hops| - 1]) then Some(hops[|hops| - 1])
    else Rightmost(hops[..|hops| - 1], trusted)
  }

  /** `r` is an untrusted hop and every hop after it is a trusted proxy. */
  predicate LastUntrusted<A(==)>(hops: seq<A>, trusted: A -> bool, r: A) {
    exists i | 0 <= i < |hops| :: hops[i] == r && !trusted(r) && AllTrusted(hops[i + 1..], trusted)
  }

  predicate AllTrusted<A>(hops: seq<A>, trusted: A -> bool) {
    forall i | 0 <= i < |hops| :: trusted(hops[i])
  }

  lemma {:induction false} RightmostIs<A>(hops: seq<A>, trusted: A -> bool)
    ensures Rightmost(hops, trusted).None? <==> AllTrusted(hops, trusted)
    ensures Rightmost(hops, trusted).Some? ==> LastUntrusted(hops, trusted, Rightmost(hops, trusted).value)
  {
    if hops != [] {
      var before, last := hops[..|hops| - 1], hops[|hops| - 1];
      assert hops == before + [last];
      if trusted(last) {
        RightmostIs(before, trusted);
        if Rightmost(before, trusted).Some? {
          BehindTrusted(before, last, trusted, Rightmost(before, trusted).value);
        }
      } else {
        assert hops[|hops|..] == [];
      }
    }
  }

  lemma BehindTrusted<A>(before: seq<A>, last: A, trusted: A -> bool, r: A)
    requires LastUntrusted(before, trusted, r) && trusted(last)
    ensures LastUntrusted(before + [last], trusted, r)
  {
    var i :| 0 <= i < |before| && before[i] == r && !trusted(r) && AllTrusted(before[i + 1..], trusted);
    assert (before + [last])[i] == r && (before + [last])[i + 1..] == before[i + 1..] + [last];
  }

  // --- prepended hops ------------------------------------------------------

  lemma {:induction false} ParsedConcat<A>(a: seq<string>, b: seq<string>, hop: string -> Option<A>)
    ensures Parsed(a + b, hop) == Parsed(a, hop) + Parsed(b, hop)
  {
    if a == [] {
      assert a + b == b;
    } else {
      ParsedConcat(a[1..], b, hop);
      assert (a + b)[1..] == a[1..] + b;
      ConcatAssociates(if hop(a[0]).Some? then [hop(a[0]).value] else [], Parsed(a[1..], hop), Parsed(b, hop));
    }
  }

  lemma {:induction false} RightmostConcat<A>(a: seq<A>, b: seq<A>, trusted: A -> bool)
    ensures Rightmost(a + b, trusted) == if Rightmost(b, trusted).Some? then Rightmost(b, trusted) else Rightmost(a, trusted)
  {
    if b == [] {
      assert a + b == a;
    } else {
      RightmostConcat(a, b[..|b| - 1], trusted);
      assert (a + b)[..|a + b| - 1] == a + b[..|b| - 1];
    }
  }

  lemma {:induction false} JoinConcat(a: seq<string>, b: seq<string>, sep: char)
    requires a != [] && b != []
    ensures Join(a + b, sep) == Join(a, sep) + [sep] + Join(b, sep)
  {
    if |a| == 1 {
      assert a == [a[0]];
      JoinCons(a[0], b, sep);
    } else {
      JoinConcat(a[1..], b, sep);
      assert a + b == [a[0]] + (a[1..] + b);
      JoinCons(a[0], a[1..] + b, sep);
      ConcatAssociates(a[0] + [sep], Join(a[1..], sep), [sep] + Join(b, sep));
      ConcatAssociates(Join(a[1..], sep), [sep], Join(b, sep));
      ConcatAssociates(a[0] + [sep] + Join(a[1..], sep), [sep], Join(b, sep));
    }
  }

  lemma SplitConcat(a: string, b: string, sep: char)
    ensures Split(a + [sep] + b, sep) == Split(a, sep) + Split(b, sep)
  {
    var parts := Split(a, sep) + Split(b, sep);
    JoinSplit(a, sep);
    JoinSplit(b, sep);
    JoinConcat(Split(a, sep), Split(b, sep), sep);
    forall i | 0 <= i < |parts| ensures sep !in parts[i] {
      assert parts[i] in Split(a, sep) || parts[i] in Split(b, sep);
    }
    SplitJoin(parts, sep);
  }

  /** The hops of one header in front of another. */
  lemma HopsConcat<A>(front: string, forwarded: string, parse: string -> Option<A>)
    ensures Hops(front + [','] + forwarded, parse) == Hops(front, parse) + Hops(forwarded, parse)
  {
    SplitConcat(front, forwarded, ',');
    ParsedConcat(Split(front, ','), Split(forwarded, ','), (entry: string) => parse(Trim(entry)));
  }

  // --- the client ----------------------------------------------------------

  /** The peer, or the hop its header names, for addresses and trust of any kind. */
  function ClientIp<A>(peer: A, forwarded: Option<string>, trusted: A -> bool, parse: string -> Option<A>): A {
    if !trusted(peer) || forwarded.None? then peer
    else
      var found := Rightmost(Hops(forwarded.value, parse), trusted);
      if found.Some? then found.value else peer
  }

  /** The header counts only from a trusted peer, and then it is its last untrusted hop that counts, if there is one. */
  lemma ClientIpIs<A>(peer: A, forwarded: Option<string>, trusted: A -> bool, parse: string -> Option<A>)
    ensures var r := ClientIp(peer, forwarded, trusted, parse);
            if !trusted(peer) || forwarded.None? then r == peer
            else if AllTrusted(Hops(forwarded.value, parse), trusted) then r == peer
            else LastUntrusted(Hops(forwarded.value, parse), trusted, r)
  {
    if forwarded.Some? {
      RightmostIs(Hops(forwarded.value, parse), trusted);
    }
  }

  /**
   Whatever is put in front of a header changes nothing, as long as the header names an untrusted
   hop; if it names none, the answer is what the front alone would give.
   */
  lemma PrependedHops<A>(peer: A, front: string, forwarded: string, trusted: A -> bool, parse: string -> Option<A>)
    ensures ClientIp(peer, Some(front + [','] + forwarded), trusted, parse)
         == if AllTrusted(Hops(forwarded, parse), trusted) then ClientIp(peer, Some(front), trusted, parse)
            else ClientIp(peer, Some(forwarded), trusted, parse)
  {
    HopsConcat(front, forwarded, parse);
    RightmostConcat(Hops(front, parse), Hops(forwarded, parse), trusted);
    RightmostIs(Hops(forwarded, parse), trusted);
  }

  // --- addresses and networks ----------------------------------------------

  function Trust(trusted: seq<Network>): Address -> bool {
    (a: Address) => IsTrusted(a, trusted)
  }

  /** `client_ip`: nothing is believed when no proxy is configured. */
  function ClientAddress(peer: Address, forwarded: Option<string>, trusted: seq<Network>, parse: string -> Option<Address>): Address {
    if trusted == [] || !IsTrusted(peer, trusted) || forwarded.None? then peer
    else
      var found := Rightmost<Address>(Hops<Address>(forwarded.value, parse), Trust(trusted));
      if found.Some? then found.value else peer
  }

  /** The address agrees with the leading bits of some trusted network of its family. */
  predicate Belongs(a: Address, trusted: seq<Network>) {
    exists i | 0 <= i < |trusted| :: LeadingBitsAgree(trusted[i], a)
  }

  lemma ClientAddressIsClientIp(
      peer: Address, forwarded: Option<string>, trusted: seq<Network>, parse: string -> Option<Address>)
    ensures ClientAddress(peer, forwarded, trusted, parse)
         == ClientIp<Address>(peer, forwarded, Trust(trusted), parse)
  {
  }

  /**
   With the trusted networks as configured: the header is read only from a peer in one of them, and
   then the client is its last hop outside all of them; membership is arithmetic on leading bits.
   */
  lemma ClientAddressIs(peer: Address, forwarded: Option<string>, trusted: seq<Network>, parse: string -> Option<Address>)
    ensures var r := ClientAddress(peer, forwarded, trusted, parse);
            if trusted == [] || !Belongs(peer, trusted) || forwarded.None? then r == peer
            else
              var hops := Hops<Address>(forwarded.value, parse);
              if forall i | 0 <= i < |hops| :: Belongs(hops[i], trusted) then r == peer
              else exists i | 0 <= i < |hops| ::
                  hops[i] == r && !Belongs(r, trusted) && forall j | i < j < |hops| :: Belongs(hops[j], trusted)
  {
    var trust := Trust(trusted);
    TrustedIs(peer, trusted);
    ClientAddressIsClientIp(peer, forwarded, trusted, parse);
    ClientIpIs<Address>(peer, forwarded, trust, parse);
    if forwarded.Some? {
      var hops := Hops<Address>(forwarded.value, parse);
      forall i | 0 <= i < |hops| ensures IsTrusted(hops[i], trusted) <==> Belongs(hops[i], trusted) {
        TrustedIs(hops[i], trusted);
      }
      var r := ClientAddress(peer, forwarded, trusted, parse);
      if IsTrusted(peer, trusted) && LastUntrusted(hops, trust, r) {
        var i :| 0 <= i < |hops| && hops[i] == r && !trust(r) && AllTrusted(hops[i + 1..], trust);
        forall j | i < j < |hops| ensures Belongs(hops[j], trusted) {
          assert hops[j] == hops[i + 1..][j - i - 1];
        }
      }
    }
  }

  lemma OneHop(text: string, parse: string -> Option<Address>)
    requires ',' !in text && Trim(text) == text && parse(text).Some?
    ensures Hops<Address>(text, parse) == [parse(text).value]
  {
    assert Split(text, ',') == [text];
    ParsedOne<Address>(text, (entry: string) => parse(Trim(entry)));
  }

  predicate IsSpace(s: string) {
    forall i | 0 <= i < |s| :: IsWhitespace(s[i])
  }

  /** White space around an entry does not matter. */
  lemma SpacesAreTrimmed<A>(before: string, text: string, after: string, parse: string -> Option<A>)
    requires IsSpace(before) && IsSpace(after) && ',' !in text
    requires text != "" && !IsWhitespace(text[0]) && !IsWhitespace(text[|text| - 1])
    ensures Hops(before + text + after, parse) == if parse(text).Some? then [parse(text).value] else []
  {
    var entry := before + text + after;
    assert ',' !in before && ',' !in after;
    assert Split(entry, ',') == [entry];
    TrimBetween(before, text, after);
    ParsedOne<A>(entry, (e: string) => parse(Trim(e)));
  }

  lemma TrimBetween(before: string, text: string, after: string)
    requires IsSpace(before) && IsSpace(after)
    requires text != "" && !IsWhitespace(text[0]) && !IsWhitespace(text[|text| - 1])
    ensures Trim(before + text + after) == text
  {
    var s := before + text + after;
    var t := TrimStart(s, IsWhitespace);
    assert s[|before|] == text[0] && forall i | 0 <= i < |before| :: s[i] == before[i];
    assert t == text + after by {
      assert |s| - |t| == |before|;
      assert s[|before|..] == text + after;
    }
    var r := TrimEnd(t, IsWhitespace);
    assert t[|text| - 1] == text[|text| - 1] && forall i | |text| <= i < |t| :: t[i] == after[i - |text|];
    assert |r| == |text| && t[..|text|] == text;
  }

  lemma ParsedOne<A>(entry: string, hop: string -> Option<A>)
    ensures Parsed([entry], hop) == if hop(entry).Some? then [hop(entry).value] else []
  {
    assert [entry][1..] == [];
  }

  lemma Untrimmed(text: string)
    requires text != "" && !IsWhitespace(text[0]) && !IsWhitespace(text[|text| - 1])
    ensures Trim(text) == text
  {
  }

  /** 10.0.0.5 and 10.0.0.9 in 10.0.0.0/8, and 1.2.3.4 outside it. */
  lemma SomeProxies() returns (trusted: seq<Network>, peer: Address, other: Address, claimed: Address)
    ensures IsTrusted(peer, trusted) && IsTrusted(other, trusted) && !IsTrusted(claimed, trusted)
  {
    trusted, peer, other, claimed := [Cidr(V4([10, 0, 0, 0]), 8)], V4([10, 0, 0, 5]), V4([10, 0, 0, 9]), V4([1, 2, 3, 4]);
    assert InNetwork(trusted[0], peer) && InNetwork(trusted[0], other);
    assert trusted[0].network.octets[..1][0] != claimed.octets[..1][0];
  }

  /** An untrusted hop put in front of a header that names only trusted proxies is believed. */
  lemma PrependedHopIsBelieved(
      peer: Address, front: string, back: string, trusted: seq<Network>, parse: string -> Option<Address>, claimed: Address)
    requires IsTrusted(peer, trusted) && AllTrusted(Hops<Address>(back, parse), Trust(trusted))
    requires Hops<Address>(front, parse) == [claimed] && !IsTrusted(claimed, trusted)
    ensures ClientAddress(peer, Some(back), trusted, parse) == peer
    ensures ClientAddress(peer, Some(front + [','] + back), trusted, parse) == claimed
  {
    HopsConcat<Address>(front, back, parse);
    RightmostIs<Address>(Hops<Address>(back, parse), Trust(trusted));
    RightmostConcat<Address>([claimed], Hops<Address>(back, parse), Trust(trusted));
  }

  /** One such header, of one hop. */
  lemma AHopIsBelieved()
    returns (peer: Address, front: string, back: string, trusted: seq<Network>, parse: string -> Option<Address>, claimed: Address)
    ensures !IsTrusted(claimed, trusted)
    ensures ClientAddress(peer, Some(back), trusted, parse) == peer
    ensures ClientAddress(peer, Some(front + [','] + back), trusted, parse) == claimed
  {
    var other;
    trusted, peer, other, claimed := SomeProxies();
    front, back := "1", "22";
    parse := (text: string) => Some(if |text| == 1 then claimed else other);
    DigitsAreHops(front, back);
    OneHop(front, parse);
    OneHop(back, parse);
    PrependedHopIsBelieved(peer, front, back, trusted, parse, claimed);
  }

  lemma DigitsAreHops(front: string, back: string)
    requires front == "1" && back == "22"
    ensures ',' !in front && Trim(front) == front && ',' !in back && Trim(back) == back
  {
    Untrimmed(front);
    Untrimmed(back);
  }
}

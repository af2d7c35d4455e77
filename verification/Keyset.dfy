/**
 Keyset pagination: an opaque id cursor, a total order on (key, id), and one row fetched
 beyond the page (`page_of` and the list queries of crates/persistence/src/repository.rs).
 */
module Keyset {
  import opened Text
  import opened Wrappers

  const PAGE_SIZE: nat := 50

  datatype SortKey = Number(number: int) | Text(text: string)

  datatype SortDir = Asc | Desc

  /** A row as the listing sees it: its id, the value of the sort column, and the rest. */
  datatype Entry<V> = Entry(id: nat, key: SortKey, row: V)

  datatype Page<V> = Page(items: seq<Entry<V>>, next: Option<nat>)

  // --- the order -----------------------------------------------------------

  predicate KeyLess(a: SortKey, b: SortKey) {
    match (a, b)
    case (Number(m), Number(n)) => m < n
    case (Text(s), Text(t)) => TextLess(s, t)
    case _ => a.Number? && b.Text?
  }

  /** `(key, id) < (key, id)`. */
  predicate PairLess<V>(a: Entry<V>, b: Entry<V>) {
    KeyLess(a.key, b.key) || (a.key == b.key && a.id < b.id)
  }

  /** `a` is listed before `b`: the id breaks ties in the direction of the key. */
  predicate Before<V>(dir: SortDir, a: Entry<V>, b: Entry<V>) {
    if dir.Asc? then PairLess(a, b) else PairLess(b, a)
  }

  lemma KeyOrder(a: SortKey, b: SortKey, c: SortKey)
    ensures !KeyLess(a, a)
    ensures a == b || KeyLess(a, b) || KeyLess(b, a)
    ensures !(KeyLess(a, b) && KeyLess(b, a))
    ensures KeyLess(a, b) && KeyLess(b, c) ==> KeyLess(a, c)
  {
    if a.Text? && b.Text? {
      TextOrder(a.text, b.text, if c.Text? then c.text else "");
    }
    if a.Text? {
      TextOrder(a.text, a.text, a.text);
    }
  }

  lemma ListingOrder<V>(dir: SortDir, a: Entry<V>, b: Entry<V>, c: Entry<V>)
    ensures !Before(dir, a, a)
    ensures (a.id == b.id && a.key == b.key) || Before(dir, a, b) || Before(dir, b, a)
    ensures !(Before(dir, a, b) && Before(dir, b, a))
    ensures Before(dir, a, b) && Before(dir, b, c) ==> Before(dir, a, c)
  {
    KeyOrder(a.key, b.key, c.key);
    KeyOrder(c.key, b.key, a.key);
  }

  // --- the query -----------------------------------------------------------

  predicate Listed<V>(dir: SortDir, s: seq<Entry<V>>) {
    forall i, j | 0 <= i < j < |s| :: Before(dir, s[i], s[j])
  }

  predicate DistinctIds<V>(s: seq<Entry<V>>) {
    forall i, j | 0 <= i < j < |s| :: s[i].id != s[j].id
  }

  function Insert<V>(dir: SortDir, x: Entry<V>, s: seq<Entry<V>>): seq<Entry<V>> {
    if s == [] || Before(dir, x, s[0]) then [x] + s else [s[0]] + Insert(dir, x, s[1..])
  }

  /** `ORDER BY key, id`, both in one direction. */
  function Sort<V>(dir: SortDir, s: seq<Entry<V>>): seq<Entry<V>> {
    if s == [] then [] else Insert(dir, s[0], Sort(dir, s[1..]))
  }

  function Keep<V>(f: Entry<V> -> bool, s: seq<Entry<V>>): seq<Entry<V>> {
    if s == [] then [] else (if f(s[0]) then [s[0]] else []) + Keep(f, s[1..])
  }

  function Find<V>(table: seq<Entry<V>>, id: nat): (r: Option<Entry<V>>)
    ensures r.None? ==> forall x | x in table :: x.id != id
    ensures r.Some? ==> r.value in table && r.value.id == id
  {
    if table == [] then None else if table[0].id == id then Some(table[0]) else Find(table[1..], id)
  }

  /** The rows past the cursor; a cursor row that is gone compares as NULL and selects nothing. */
  function Past<V>(dir: SortDir, table: seq<Entry<V>>, after: Option<nat>): seq<Entry<V>> {
    if after.None? then table else
      match Find(table, after.value)
      case None => []
      case Some(cursor) => Keep((x: Entry<V>) => Before(dir, cursor, x), table)
  }

  function Take<T>(s: seq<T>, n: nat): seq<T> {
    if |s| <= n then s else s[..n]
  }

  function Fetched<V>(dir: SortDir, table: seq<Entry<V>>, after: Option<nat>): seq<Entry<V>> {
    Take(Sort(dir, Past(dir, table, after)), PAGE_SIZE + 1)
  }

  function PageAt<V>(dir: SortDir, table: seq<Entry<V>>, after: Option<nat>): Page<V> {
    PageSpec(Fetched(dir, table, after))
  }

  function PageSpec<V>(rows: seq<Entry<V>>): Page<V> {
    var items := Take(rows, PAGE_SIZE);
    Page(items, if |rows| > PAGE_SIZE then Some(items[|items| - 1].id) else None)
  }

  method PageOf<V>(fetched: seq<Entry<V>>) returns (page: Page<V>)
    ensures page == PageSpec(fetched)
    ensures page.next.Some? <==> |fetched| > PAGE_SIZE
    ensures |page.items| <= PAGE_SIZE && page.items <= fetched
  {
    var rows := fetched;
    var hasMore := |rows| > PAGE_SIZE;
    if hasMore {
      rows := rows[..PAGE_SIZE];
    }
    var next := None;
    if hasMore {
      next := Some(rows[|rows| - 1].id);
    }
    return Page(rows, next);
  }

  // --- what sorting and filtering do ---------------------------------------

  lemma HeadAndTail<V>(s: seq<Entry<V>>)
    requires s != []
    ensures forall x | x in s :: x == s[0] || x in s[1..]
    ensures forall x | x in s[1..] :: x in s
    ensures DistinctIds(s) ==> DistinctIds(s[1..]) && forall x | x in s[1..] :: x.id != s[0].id
    ensures forall dir :: Listed(dir, s) ==> Listed(dir, s[1..]) && forall x | x in s[1..] :: Before(dir, s[0], x)
  {
  }

  lemma Prepended<V>(dir: SortDir, x: Entry<V>, s: seq<Entry<V>>)
    requires Listed(dir, s) && forall y | y in s :: Before(dir, x, y)
    ensures Listed(dir, [x] + s)
    ensures forall y | y in [x] + s :: y == x || y in s
    ensures x in [x] + s && forall y | y in s :: y in [x] + s
  {
  }

  lemma PrependedDistinct<V>(x: Entry<V>, s: seq<Entry<V>>)
    requires DistinctIds(s) && forall y | y in s :: y.id != x.id
    ensures DistinctIds([x] + s)
  {
  }

  lemma {:induction false} InsertKeeps<V>(dir: SortDir, x: Entry<V>, s: seq<Entry<V>>)
    requires Listed(dir, s) && forall y | y in s :: y.id != x.id
    ensures forall y | y in Insert(dir, x, s) :: y == x || y in s
    ensures x in Insert(dir, x, s) && forall y | y in s :: y in Insert(dir, x, s)
    ensures Listed(dir, Insert(dir, x, s))
    ensures |Insert(dir, x, s)| == |s| + 1
  {
    if s == [] {
      assert Insert(dir, x, s) == [x];
    } else if Before(dir, x, s[0]) {
      HeadAndTail(s);
      forall y | y in s ensures Before(dir, x, y) {
        ListingOrder(dir, x, s[0], y);
      }
      Prepended(dir, x, s);
    } else {
      HeadAndTail(s);
      ListingOrder(dir, x, s[0], s[0]);
      InsertKeeps(dir, x, s[1..]);
      Prepended(dir, s[0], Insert(dir, x, s[1..]));
    }
  }

  lemma {:induction false} SortIsListed<V>(dir: SortDir, s: seq<Entry<V>>)
    requires DistinctIds(s)
    ensures forall x | x in Sort(dir, s) :: x in s
    ensures forall x | x in s :: x in Sort(dir, s)
    ensures Listed(dir, Sort(dir, s))
    ensures |Sort(dir, s)| == |s|
  {
    if s != [] {
      HeadAndTail(s);
      SortIsListed(dir, s[1..]);
      InsertKeeps(dir, s[0], Sort(dir, s[1..]));
    }
  }

  lemma {:induction false} KeepSelects<V>(f: Entry<V> -> bool, s: seq<Entry<V>>)
    ensures forall x | x in Keep(f, s) :: x in s && f(x)
    ensures forall x | x in s && f(x) :: x in Keep(f, s)
    ensures DistinctIds(s) ==> DistinctIds(Keep(f, s))
  {
    if s != [] {
      HeadAndTail(s);
      KeepSelects(f, s[1..]);
      if DistinctIds(s) {
        PrependedDistinct(s[0], Keep(f, s[1..]));
      }
    }
  }

  /** A listing is determined by what it lists. */
  lemma {:induction false} ListingIsUnique<V>(dir: SortDir, a: seq<Entry<V>>, b: seq<Entry<V>>)
    requires Listed(dir, a) && Listed(dir, b)
    requires forall x | x in a :: x in b
    requires forall x | x in b :: x in a
    ensures a == b
  {
    if |a| > 0 {
      assert a[0] in b;
    }
    if |b| > 0 {
      assert b[0] in a;
    }
    if |a| > 0 {
      HeadAndTail(a);
      HeadAndTail(b);
      ListingOrder(dir, a[0], b[0], b[0]);
      ListingOrder(dir, a[0], a[0], a[0]);
      assert a == [a[0]] + a[1..] && b == [b[0]] + b[1..];
      ListingIsUnique(dir, a[1..], b[1..]);
    }
  }
}

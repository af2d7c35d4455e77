/**
 Installed sources across three stores: rows, saved packages and loaded modules
 (crates/aidoku-runtime/src/registry.rs and adapter.rs, crates/packaging/src/packages.rs).
 */
module SourceRegistry {
  import opened Wrappers
  import opened JsonValue
  import opened SourceSettings

  const MAX_PACKAGE_BYTES: nat := 32 * 1024 * 1024

  /** What compiling a package yields. */
  datatype Prepared = Prepared(externalId: string, version: nat, settings: Option<Json>)

  type Prepare = seq<Byte> -> Option<Prepared>

  datatype Row = Row(repo: nat, externalId: string, version: nat)

  datatype State = State(
    rows: map<nat, Row>, packages: map<nat, seq<Byte>>, partials: set<nat>, loaded: map<nat, seq<Byte>>,
    kv: map<(nat, string), seq<Byte>>)

  // --- the invariant -------------------------------------------------------

  /** Every loaded module has a saved package, and every package a row. */
  predicate Nested(s: State) {
    s.loaded.Keys <= s.packages.Keys <= s.rows.Keys
  }

  predicate UniqueSources(rows: map<nat, Row>) {
    forall i, j | i in rows && j in rows && i != j :: rows[i].repo != rows[j].repo || rows[i].externalId != rows[j].externalId
  }

  /** The bytes compile, and to the source the row is for. */
  predicate Compiles(bytes: seq<Byte>, row: Row, prepare: Prepare) {
    prepare(bytes).Some? && prepare(bytes).value.externalId == row.externalId
  }

  predicate AllCompile(modules: map<nat, seq<Byte>>, rows: map<nat, Row>, prepare: Prepare) {
    forall id | id in modules :: id in rows && Compiles(modules[id], rows[id], prepare)
  }

  predicate Consistent(s: State, prepare: Prepare) {
    && Nested(s) && UniqueSources(s.rows)
    && AllCompile(s.packages, s.rows, prepare) && AllCompile(s.loaded, s.rows, prepare)
    && forall k | k in s.kv :: k.0 in s.rows
  }

  /** Consistent, with no package over a size. */
  predicate IsSound(s: State, prepare: Prepare, size: nat) {
    Consistent(s, prepare) && AtMost(s.packages, size)
  }

  predicate AllSound(trace: seq<State>, prepare: Prepare, size: nat) {
    forall i | 0 <= i < |trace| :: IsSound(trace[i], prepare, size)
  }

  /** Losing the process at any consistent moment leaves a consistent state. */
  lemma KillKeeps(s: State, prepare: Prepare)
    requires Consistent(s, prepare)
    ensures Consistent(s.(loaded := map[]), prepare)
  {
  }

  predicate IsRowFor(row: Row, repo: nat, p: Prepared) {
    row.repo == repo && row.externalId == p.externalId
  }

  predicate HasRowFor(rows: map<nat, Row>, repo: nat, p: Prepared) {
    exists id | id in rows :: IsRowFor(rows[id], repo, p)
  }

  lemma UpsertKeeps(s: State, id: nat, repo: nat, p: Prepared, prepare: Prepare)
    requires Consistent(s, prepare)
    requires if id in s.rows then IsRowFor(s.rows[id], repo, p) else !HasRowFor(s.rows, repo, p)
    ensures Consistent(s.(rows := s.rows[id := Row(repo, p.externalId, p.version)]), prepare)
  {
  }

  lemma SavedKeeps(s: State, id: nat, bytes: seq<Byte>, partials: set<nat>, prepare: Prepare)
    requires Consistent(s, prepare) && id in s.rows && Compiles(bytes, s.rows[id], prepare)
    ensures Consistent(s.(packages := s.packages[id := bytes], partials := partials), prepare)
  {
  }

  lemma RegisteredKeeps(s: State, id: nat, bytes: seq<Byte>, prepare: Prepare)
    requires Consistent(s, prepare) && id in s.packages && Compiles(bytes, s.rows[id], prepare)
    ensures Consistent(s.(loaded := s.loaded[id := bytes]), prepare)
  {
  }

  lemma UnloadedKeeps(s: State, id: nat, prepare: Prepare)
    requires Consistent(s, prepare)
    ensures Consistent(s.(loaded := s.loaded - {id}), prepare)
  {
  }

  lemma ForgottenKeeps(s: State, id: nat, prepare: Prepare)
    requires Consistent(s, prepare) && id !in s.loaded
    ensures Consistent(s.(packages := s.packages - {id}), prepare)
  {
  }

  /** Deleting a row deletes its settings. */
  function SettingsWithout(kv: map<(nat, string), seq<Byte>>, id: nat): map<(nat, string), seq<Byte>> {
    map k | k in kv && k.0 != id :: kv[k]
  }

  lemma DeletedKeeps(s: State, id: nat, prepare: Prepare)
    requires Consistent(s, prepare) && id !in s.packages
    ensures Consistent(s.(rows := s.rows - {id}, kv := SettingsWithout(s.kv, id)), prepare)
  {
  }

  // --- settings ------------------------------------------------------------

  /** Each seed is stored unless its key already has something. */
  function Seeded(kv: map<(nat, string), seq<Byte>>, id: nat, seeds: seq<Seed>, encode: SettingValue -> seq<Byte>)
    : map<(nat, string), seq<Byte>>
  {
    if seeds == [] then kv else
      var before, last := Seeded(kv, id, seeds[..|seeds| - 1], encode), seeds[|seeds| - 1];
      if (id, last.key) in before then before else before[(id, last.key) := encode(last.value)]
  }

  /** `k` is a key first declared by one of the seeds, with its default. */
  predicate FirstDefault(seeds: seq<Seed>, key: string, value: seq<Byte>, encode: SettingValue -> seq<Byte>) {
    exists i | 0 <= i < |seeds| ::
      seeds[i].key == key && value == encode(seeds[i].value) && forall j | 0 <= j < i :: seeds[j].key != key
  }

  lemma OneMoreSeed(seeds: seq<Seed>, last: Seed, key: string, value: seq<Byte>, encode: SettingValue -> seq<Byte>)
    requires FirstDefault(seeds, key, value, encode)
             || (last.key == key && value == encode(last.value) && forall seed | seed in seeds :: seed.key != key)
    ensures FirstDefault(seeds + [last], key, value, encode)
  {
    var all := seeds + [last];
    if FirstDefault(seeds, key, value, encode) {
      var i :| 0 <= i < |seeds| && seeds[i].key == key && value == encode(seeds[i].value)
               && forall j | 0 <= j < i :: seeds[j].key != key;
      assert all[i] == seeds[i];
    } else {
      assert all[|seeds|] == last && forall j | 0 <= j < |seeds| :: all[j] == seeds[j];
    }
  }

  /** Nothing stored is changed; every declared key is set, a new one to its first default; no other key appears. */
  lemma {:induction false} SeedingKeeps(
      kv: map<(nat, string), seq<Byte>>, id: nat, seeds: seq<Seed>, encode: SettingValue -> seq<Byte>)
    ensures var after := Seeded(kv, id, seeds, encode);
            && Preserved(kv, after) && (forall k | k in kv :: k in after && after[k] == kv[k])
            && (forall seed | seed in seeds :: (id, seed.key) in after)
            && (forall k | k in after && k !in kv :: k.0 == id && FirstDefault(seeds, k.1, after[k], encode))
  {
    if seeds != [] {
      var n := |seeds| - 1;
      var before, last := Seeded(kv, id, seeds[..n], encode), seeds[n];
      SeedingKeeps(kv, id, seeds[..n], encode);
      assert seeds == seeds[..n] + [last];
      var after := Seeded(kv, id, seeds, encode);
      forall k | k in after && k !in kv ensures k.0 == id && FirstDefault(seeds, k.1, after[k], encode) {
        OneMoreSeed(seeds[..n], last, k.1, after[k], encode);
      }
    }
  }

  lemma PartialKeeps(s: State, partials: set<nat>, prepare: Prepare)
    requires Consistent(s, prepare)
    ensures Consistent(s.(partials := partials), prepare)
  {
  }

  lemma SettingKeeps(s: State, id: nat, key: string, value: seq<Byte>, prepare: Prepare)
    requires Consistent(s, prepare) && id in s.rows
    ensures Consistent(s.(kv := s.kv[(id, key) := value]), prepare)
  {
  }

  /** Everything stored before is stored still, unchanged. */
  predicate Preserved(before: map<(nat, string), seq<Byte>>, after: map<(nat, string), seq<Byte>>) {
    forall k | k in before :: k in after && after[k] == before[k]
  }

  predicate OnlyAdds(before: map<nat, seq<Byte>>, after: map<nat, seq<Byte>>, bytes: seq<Byte>) {
    forall id | id in after :: after[id] == bytes || (id in before && after[id] == before[id])
  }

  predicate AtMost(packages: map<nat, seq<Byte>>, limit: nat) {
    forall id | id in packages :: |packages[id]| <= limit
  }

  /** The seeds of a package's settings declaration. */
  function SeedsOf(p: Prepared): seq<Seed> {
    if p.settings.Some? then DeclaredDefaults(p.settings.value) else []
  }

  lemma NoSettings()
    ensures DeclaredDefaults(Arr([])) == []
  {
  }

  /** The source already installed keeps its id; a new one gets the new id. */
  predicate KeepsId(rows: map<nat, Row>, repo: nat, p: Prepared, id: nat, newId: nat) {
    if HasRowFor(rows, repo, p) then id in rows && IsRowFor(rows[id], repo, p) else id == newId
  }

  /** All three stores and the settings after an install. */
  function Installed(
      s: State, id: nat, repo: nat, bytes: seq<Byte>, p: Prepared, partials: set<nat>, encode: SettingValue -> seq<Byte>): State
  {
    State(s.rows[id := Row(repo, p.externalId, p.version)], s.packages[id := bytes], partials,
          s.loaded[id := bytes], Seeded(s.kv, id, SeedsOf(p), encode))
  }

  /** The faults that stop the install of a package. */
  predicate Fails(p: Prepared, fault: Option<InstallFault>) {
    fault.Some? && (fault.value.SettingFails? ==> fault.value.at < |SeedsOf(p)|)
  }

  predicate FailsWithin(fault: Option<InstallFault>, n: nat) {
    fault.Some? && fault.value.SettingFails? && fault.value.at < n
  }

  datatype InstallFault = UpsertFails | PartialFails(left: bool) | RenameFails | SettingFails(at: nat)

  datatype UninstallFault = RemovePackageFails | RemoveRowFails

  /** What a startup load did. */
  datatype LoadReport = LoadReport(total: nat, loaded: nat, missing: nat, failed: nat)

  /** How the next process finds the packages: which cannot be read, and what its runtime makes of them. */
  datatype Host = Host(unreadable: set<nat>, runtime: Prepare)

  type Packages = map<nat, seq<Byte>>

  /** A package a restart can read back and compile. */
  predicate Loads(packages: Packages, id: nat, host: Host) {
    && id in packages && id !in host.unreadable && |packages[id]| <= MAX_PACKAGE_BYTES
    && host.runtime(packages[id]).Some?
  }

  predicate Missing(packages: Packages, id: nat, host: Host) {
    id !in packages && id !in host.unreadable
  }

  function Counted(report: LoadReport, packages: Packages, id: nat, host: Host): LoadReport {
    if Loads(packages, id, host) then report.(loaded := report.loaded + 1)
    else if Missing(packages, id, host) then report.(missing := report.missing + 1)
    else report.(failed := report.failed + 1)
  }

  /** The report of a load that has looked at the first sources of a list of `total`. */
  function ReportOf(list: seq<nat>, total: nat, packages: Packages, host: Host): LoadReport {
    if list == [] then LoadReport(total, 0, 0, 0)
    else Counted(ReportOf(list[..|list| - 1], total, packages, host), packages, list[|list| - 1], host)
  }

  /** Every installed source is counted once. */
  lemma {:induction false} ReportAddsUp(list: seq<nat>, total: nat, packages: Packages, host: Host)
    ensures var r := ReportOf(list, total, packages, host);
            r.total == total && r.loaded + r.missing + r.failed == |list|
  {
    if list != [] {
      ReportAddsUp(list[..|list| - 1], total, packages, host);
    }
  }

  function AfterLoading(packages: Packages, loaded: Packages, id: nat, host: Host): Packages {
    if Loads(packages, id, host) then loaded[id := packages[id]] else loaded
  }

  /** Only packages that load are loaded, each as it was saved. */
  predicate LoadsOnly(packages: Packages, loaded: Packages, host: Host) {
    forall id | id in loaded :: Loads(packages, id, host) && loaded[id] == packages[id]
  }

  /** Of the given sources, exactly those whose package loads are loaded. */
  predicate LoadsExactly(packages: Packages, loaded: Packages, list: seq<nat>, host: Host) {
    && LoadsOnly(packages, loaded, host) && (forall id | id in loaded :: id in list)
    && forall id | id in list && Loads(packages, id, host) :: id in loaded
  }

  lemma LoadsOneMore(packages: Packages, loaded: Packages, list: seq<nat>, k: nat, host: Host)
    requires k < |list| && LoadsExactly(packages, loaded, list[..k], host)
    ensures LoadsExactly(packages, AfterLoading(packages, loaded, list[k], host), list[..k + 1], host)
  {
  }

  /** The ids of the rows, each once. */
  predicate IsListing(list: seq<nat>, rows: map<nat, Row>) {
    (forall id | id in list :: id in rows) && (forall id | id in rows :: id in list)
    && forall i, j | 0 <= i < j < |list| :: list[i] != list[j]
  }

  /** Within the limit of the store, a host that reads everything and runs the same runtime loads every saved package. */
  lemma BoundedPackagesLoad(s: State, prepare: Prepare, size: nat, host: Host)
    requires IsSound(s, prepare, size) && size <= MAX_PACKAGE_BYTES
    requires host.unreadable == {} && host.runtime == prepare
    ensures forall id | id in s.packages :: Loads(s.packages, id, host)
  {
  }

  function Larger(a: nat, b: nat): nat {
    if a < b then b else a
  }

  /** The same stores with some packages loaded. */
  predicate OnlyLoads(base: State, s: State, host: Host) {
    s == base.(loaded := s.loaded) && LoadsOnly(base.packages, s.loaded, host)
  }

  predicate AllOnlyLoad(trace: seq<State>, from: nat, base: State, host: Host) {
    forall i | from <= i < |trace| :: OnlyLoads(base, trace[i], host)
  }

  lemma LoadingKeeps(base: State, s: State, host: Host, prepare: Prepare)
    requires Consistent(base, prepare) && OnlyLoads(base, s, host)
    ensures Consistent(s, prepare)
  {
  }

  /** What is loaded is every package, as saved. */
  lemma LoadedIsSaved(s: State, list: seq<nat>, loaded: Packages, host: Host)
    requires s.packages.Keys <= s.rows.Keys && IsListing(list, s.rows) && LoadsExactly(s.packages, loaded, list, host)
    requires forall id | id in s.packages :: Loads(s.packages, id, host)
    ensures loaded == s.packages
  {
    forall id | id in s.packages ensures id in loaded && loaded[id] == s.packages[id] {
      assert id in s.rows && id in list;
    }
  }

  /** One call of the registry, with what goes wrong in it. */
  datatype Call =
    | Installing(repo: nat, download: seq<Byte>, newId: nat, installFault: Option<InstallFault>)
    | Uninstalling(id: nat, uninstallFault: Option<UninstallFault>)
    | Restarting(host: Host, stuck: set<nat>)

  /** A call, and after how many changes to the stores the process dies in it, if it does. */
  datatype Event = Event(call: Call, diesAfter: Option<nat>)

  class AidokuRegistry {
    var stores: State
    const prepare: Prepare
    const encode: SettingValue -> seq<Byte>
    /** Every state the stores have been in. */
    var trace: seq<State>
    /** The size of the largest package ever installed, or attempted. */
    ghost var largest: nat

    ghost predicate Valid()
      reads this
    {
      IsSound(stores, prepare, largest) && AllSound(trace, prepare, largest)
    }

    constructor (prepare: Prepare, encode: SettingValue -> seq<Byte>)
      ensures Valid() && stores == State(map[], map[], {}, map[], map[]) && trace == [] && largest == 0
      ensures this.prepare == prepare && this.encode == encode
    {
      stores := State(map[], map[], {}, map[], map[]);
      this.prepare, this.encode := prepare, encode;
      trace, largest := [], 0;
    }

    /** One change to one store. */
    method Change(next: State)
      requires Valid() && Consistent(next, prepare) && AtMost(next.packages, largest)
      modifies `stores, `trace
      ensures Valid() && stores == next && trace == old(trace) + [next]
    {
      stores := next;
      trace := trace + [next];
    }

    /** Inserts or updates the row of a source; a source already there keeps its id. */
    method Upsert(repo: nat, p: Prepared, newId: nat) returns (id: nat)
      requires Valid() && newId !in stores.rows
      modifies `stores, `trace
      ensures Valid() && trace == old(trace) + [stores]
      ensures stores == old(stores).(rows := old(stores).rows[id := Row(repo, p.externalId, p.version)])
      ensures KeepsId(old(stores).rows, repo, p, id, newId)
      ensures forall other | other in old(stores).rows && old(stores).rows[other].repo == repo
                             && old(stores).rows[other].externalId == p.externalId :: id == other
      ensures (forall other | other in old(stores).rows :: old(stores).rows[other].repo != repo
                 || old(stores).rows[other].externalId != p.externalId) ==> id == newId
    {
      id := newId;
      if HasRowFor(stores.rows, repo, p) {
        id :| id in stores.rows && IsRowFor(stores.rows[id], repo, p);
      }
      UpsertKeeps(stores, id, repo, p, prepare);
      Change(stores.(rows := stores.rows[id := Row(repo, p.externalId, p.version)]));
    }

    /** Writes through a partial file and a rename. A write that fails may leave its partial file; a rename that fails removes it. */
    method SavePackage(id: nat, bytes: seq<Byte>, fault: Option<InstallFault>) returns (ok: bool)
      requires Valid() && id in stores.rows && Compiles(bytes, stores.rows[id], prepare) && |bytes| <= largest
      modifies `stores, `trace
      ensures Valid() && old(trace) <= trace
      ensures ok <==> !(fault.Some? && (fault.value.PartialFails? || fault.value.RenameFails?))
      ensures stores.partials == if fault.Some? && fault.value.PartialFails?
                                 then old(stores).partials + (if fault.value.left then {id} else {})
                                 else old(stores).partials - {id}
      ensures stores.packages == if ok then old(stores).packages[id := bytes] else old(stores).packages
      ensures stores == old(stores).(packages := stores.packages, partials := stores.partials)
    {
      if fault.Some? && fault.value.PartialFails? {
        if fault.value.left {
          PartialKeeps(stores, stores.partials + {id}, prepare);
          Change(stores.(partials := stores.partials + {id}));
        } else {
          assert stores.partials + {} == stores.partials;
        }
        return false;
      }
      PartialKeeps(stores, stores.partials + {id}, prepare);
      Change(stores.(partials := stores.partials + {id}));
      if fault == Some(RenameFails) {
        PartialKeeps(stores, stores.partials - {id}, prepare);
        Change(stores.(partials := stores.partials - {id}));
        return false;
      }
      SavedKeeps(stores, id, bytes, stores.partials - {id}, prepare);
      Change(stores.(packages := stores.packages[id := bytes], partials := stores.partials - {id}));
      return true;
    }

    /** Stores the defaults of the keys that have nothing stored. */
    method SeedSettings(id: nat, seeds: seq<Seed>, fault: Option<InstallFault>) returns (ok: bool)
      requires Valid() && id in stores.rows
      modifies `stores, `trace
      ensures Valid() && old(trace) <= trace
      ensures ok <==> !FailsWithin(fault, |seeds|)
      ensures stores == old(stores).(kv := Seeded(old(stores).kv, id, if ok then seeds else seeds[..fault.value.at], encode))
    {
      for k := 0 to |seeds|
        invariant Valid() && old(trace) <= trace
        invariant stores == old(stores).(kv := Seeded(old(stores).kv, id, seeds[..k], encode))
        invariant !FailsWithin(fault, k)
      {
        if fault == Some(SettingFails(k)) {
          return false;
        }
        assert seeds[..k + 1][..k] == seeds[..k];
        if (id, seeds[k].key) !in stores.kv {
          SettingKeeps(stores, id, seeds[k].key, encode(seeds[k].value), prepare);
          Change(stores.(kv := stores.kv[(id, seeds[k].key) := encode(seeds[k].value)]));
        }
      }
      assert seeds[..|seeds|] == seeds;
      return true;
    }

    /** Everything after the row is there. */
    method SaveAndRegister(id: nat, bytes: seq<Byte>, p: Prepared, fault: Option<InstallFault>) returns (ok: bool)
      requires Valid() && id in stores.rows && Compiles(bytes, stores.rows[id], prepare) && prepare(bytes) == Some(p)
      requires |bytes| <= largest
      modifies `stores, `trace
      ensures Valid() && old(trace) <= trace
      ensures fault != Some(UpsertFails) ==> (ok <==> !Fails(p, fault))
      ensures stores.rows == old(stores).rows && Preserved(old(stores).kv, stores.kv)
      ensures stores.packages == old(stores).packages || stores.packages == old(stores).packages[id := bytes]
      ensures !ok ==> stores.loaded == old(stores).loaded
      ensures ok ==> stores == old(stores).(packages := old(stores).packages[id := bytes], partials := stores.partials,
                kv := Seeded(old(stores).kv, id, SeedsOf(p), encode), loaded := old(stores).loaded[id := bytes])
    {
      ok := SavePackage(id, bytes, fault);
      if !ok {
        return;
      }
      var declared := if p.settings.Some? then p.settings.value else Arr([]);
      var seeds := CollectDefaults(declared);
      NoSettings();
      ok := SeedSettings(id, seeds, fault);
      SeedingKeeps(old(stores).kv, id, if ok then seeds else seeds[..fault.value.at], encode);
      if !ok {
        return;
      }
      RegisteredKeeps(stores, id, bytes, prepare);
      Change(stores.(loaded := stores.loaded[id := bytes]));
    }

    method InstallPrepared(repo: nat, bytes: seq<Byte>, p: Prepared, newId: nat, fault: Option<InstallFault>) returns (r: Result<nat>)
      requires Valid() && newId !in stores.rows && prepare(bytes) == Some(p) && |bytes| <= largest
      modifies `stores, `trace
      ensures Valid() && old(trace) <= trace
      ensures if Fails(p, fault) then r == Err(Storage) else r.Ok?
      ensures Preserved(old(stores).kv, stores.kv) && OnlyAdds(old(stores).packages, stores.packages, bytes)
      ensures r.Err? ==> stores.loaded == old(stores).loaded
      ensures r.Ok? ==> KeepsId(old(stores).rows, repo, p, r.value, newId)
                        && stores == Installed(old(stores), r.value, repo, bytes, p, stores.partials, encode)
    {
      if fault == Some(UpsertFails) {
        return Err(Storage);
      }
      var id := Upsert(repo, p, newId);
      var ok := SaveAndRegister(id, bytes, p, fault);
      return if ok then Ok(id) else Err(Storage);
    }

    /**
     Installs or reinstalls a package. At every intermediate moment the stores are nested and every
     saved package compiles; whatever fails, no stored setting changes and what was loaded stays.
     */
    method InstallBytes(repo: nat, bytes: seq<Byte>, newId: nat, fault: Option<InstallFault>) returns (r: Result<nat>)
      requires Valid() && newId !in stores.rows
      modifies this
      ensures Valid() && old(trace) <= trace && largest == Larger(old(largest), |bytes|)
      ensures prepare(bytes).None? ==> r == Err(Source(false)) && stores == old(stores)
      ensures prepare(bytes).Some? ==> (if Fails(prepare(bytes).value, fault) then r == Err(Storage) else r.Ok?)
      ensures Preserved(old(stores).kv, stores.kv) && OnlyAdds(old(stores).packages, stores.packages, bytes)
      ensures r.Err? ==> stores.loaded == old(stores).loaded
      ensures forall k | k in old(stores).kv :: k in stores.kv && stores.kv[k] == old(stores).kv[k]
      ensures r.Ok? ==> KeepsId(old(stores).rows, repo, prepare(bytes).value, r.value, newId)
                        && stores == Installed(old(stores), r.value, repo, bytes, prepare(bytes).value, stores.partials, encode)
    {
      largest := Larger(largest, |bytes|);
      var prepared := prepare(bytes);
      if prepared.None? {
        return Err(Source(false));
      }
      r := InstallPrepared(repo, bytes, prepared.value, newId, fault);
    }

    /** The download is bounded before anything is installed. */
    method Install(repo: nat, download: seq<Byte>, limit: nat, newId: nat, fault: Option<InstallFault>) returns (r: Result<nat>)
      requires Valid() && newId !in stores.rows
      modifies this
      ensures Valid() && old(trace) <= trace && old(largest) <= largest <= Larger(old(largest), limit)
      ensures |download| > limit ==> r == Err(Source(false)) && stores == old(stores)
      ensures AtMost(old(stores).packages, limit) ==> AtMost(stores.packages, limit)
      ensures r.Err? ==> stores.loaded == old(stores).loaded
      ensures |download| <= limit && prepare(download).Some? ==>
                if Fails(prepare(download).value, fault) then r == Err(Storage) else r.Ok?
      ensures r.Ok? ==> prepare(download).Some?
                        && KeepsId(old(stores).rows, repo, prepare(download).value, r.value, newId)
                        && stores == Installed(old(stores), r.value, repo, download, prepare(download).value, stores.partials, encode)
    {
      if |download| > limit {
        return Err(Source(false));
      }
      r := InstallBytes(repo, download, newId, fault);
    }

    /** Module, package, row, in that order: what is left at any moment can be uninstalled again. */
    method Uninstall(id: nat, fault: Option<UninstallFault>) returns (r: Result<()>)
      requires Valid()
      modifies `stores, `trace
      ensures Valid() && old(trace) <= trace
      ensures r == if fault.Some? then Err(Storage) else Ok(())
      ensures stores.loaded == old(stores).loaded - {id} && stores.partials == old(stores).partials
      ensures stores.packages == if fault == Some(RemovePackageFails) then old(stores).packages else old(stores).packages - {id}
      ensures stores.rows == if fault.Some? then old(stores).rows else old(stores).rows - {id}
      ensures stores.kv == if fault.Some? then old(stores).kv else SettingsWithout(old(stores).kv, id)
    {
      assert fault.Some? ==> fault.value.RemovePackageFails? || fault.value.RemoveRowFails?;
      UnloadedKeeps(stores, id, prepare);
      Change(stores.(loaded := stores.loaded - {id}));
      if fault == Some(RemovePackageFails) {
        return Err(Storage);
      }
      ForgottenKeeps(stores, id, prepare);
      Change(stores.(packages := stores.packages - {id}));
      if fault == Some(RemoveRowFails) {
        return Err(Storage);
      }
      DeletedKeeps(stores, id, prepare);
      Change(stores.(rows := stores.rows - {id}, kv := SettingsWithout(stores.kv, id)));
      return Ok(());
    }

    /** The startup sweep of partial package writes. */
    method CleanPartials(stuck: set<nat>) returns (removed: nat)
      requires Valid()
      modifies `stores, `trace
      ensures Valid() && removed == |old(stores).partials - stuck| && trace == old(trace)
      ensures stores == old(stores).(partials := old(stores).partials * stuck)
    {
      removed := 0;
      var entries, kept := stores.partials, stores.partials;
      ghost var gone: set<nat> := {};
      while entries != {}
        invariant entries <= stores.partials && gone == (stores.partials - entries) - stuck
        invariant kept == stores.partials - gone && removed == |gone|
        decreases |entries|
      {
        var entry :| entry in entries;
        entries := entries - {entry};
        if entry !in stuck {
          assert entry !in gone;
          kept := kept - {entry};
          removed := removed + 1;
          gone := gone + {entry};
        }
      }
      assert kept == stores.partials * stuck;
      PartialKeeps(stores, kept, prepare);
      stores := stores.(partials := kept);
    }

    /** Loads one source from its saved package, if it can. */
    method LoadOne(id: nat, host: Host, report: LoadReport) returns (r: LoadReport)
      modifies `stores, `trace
      ensures stores == old(stores).(loaded := AfterLoading(old(stores).packages, old(stores).loaded, id, host))
      ensures r == Counted(report, old(stores).packages, id, host) && trace == old(trace) + [stores]
    {
      r := report;
      if id in host.unreadable {
        r := report.(failed := report.failed + 1);
      } else if id !in stores.packages {
        r := report.(missing := report.missing + 1);
      } else {
        var bytes := stores.packages[id];
        if |bytes| > MAX_PACKAGE_BYTES {
          r := report.(failed := report.failed + 1);
        } else if host.runtime(bytes).Some? {
          stores := stores.(loaded := stores.loaded[id := bytes]);
          r := report.(loaded := report.loaded + 1);
        } else {
          r := report.(failed := report.failed + 1);
        }
      }
      trace := trace + [stores];
    }

    method LoadEach(list: seq<nat>, host: Host) returns (report: LoadReport)
      requires stores.loaded == map[]
      modifies `stores, `trace
      ensures OnlyLoads(old(stores), stores, host) && LoadsExactly(stores.packages, stores.loaded, list, host)
      ensures report == ReportOf(list, |list|, stores.packages, host)
      ensures old(trace) <= trace && AllOnlyLoad(trace, |old(trace)|, old(stores), host)
    {
      report := LoadReport(|list|, 0, 0, 0);
      for k := 0 to |list|
        invariant OnlyLoads(old(stores), stores, host) && LoadsExactly(old(stores).packages, stores.loaded, list[..k], host)
        invariant report == ReportOf(list[..k], |list|, old(stores).packages, host)
        invariant old(trace) <= trace && AllOnlyLoad(trace, |old(trace)|, old(stores), host)
      {
        LoadsOneMore(old(stores).packages, stores.loaded, list, k, host);
        assert list[..k + 1][..k] == list[..k];
        report := LoadOne(list[k], host, report);
      }
      assert list[..|list|] == list;
    }

    /**
     Loads every installed source from its saved package, after a start with nothing loaded. Exactly
     the sources whose package loads are loaded, each under its own id and from its own package;
     everything else is reported as missing or failed.
     */
    method LoadInstalled(list: seq<nat>, host: Host) returns (report: LoadReport)
      requires Valid() && stores.loaded == map[] && IsListing(list, stores.rows)
      modifies `stores, `trace
      ensures Valid() && old(trace) <= trace
      ensures stores == old(stores).(loaded := stores.loaded) && LoadsExactly(stores.packages, stores.loaded, list, host)
      ensures report == ReportOf(list, |list|, stores.packages, host)
    {
      report := LoadEach(list, host);
      LoadingKeeps(old(stores), stores, host, prepare);
      forall i | |old(trace)| <= i < |trace| ensures Consistent(trace[i], prepare) {
        LoadingKeeps(old(stores), trace[i], host, prepare);
      }
    }

    /**
     A restart, after a crash at any moment. It loads again everything that was loaded exactly when
     every such package can be read, is within the limit of the store, and still compiles.
     */
    method Restart(list: seq<nat>, host: Host) returns (report: LoadReport)
      requires Valid() && IsListing(list, stores.rows)
      modifies `stores, `trace
      ensures Valid() && old(trace) <= trace
      ensures stores == old(stores).(loaded := stores.loaded) && LoadsExactly(stores.packages, stores.loaded, list, host)
      ensures report.total == |list| == report.loaded + report.missing + report.failed
      ensures old(stores).loaded.Keys <= stores.loaded.Keys <==>
                forall id | id in old(stores).loaded :: Loads(stores.packages, id, host)
    {
      KillKeeps(stores, prepare);
      Change(stores.(loaded := map[]));
      report := LoadInstalled(list, host);
      ReportAddsUp(list, |list|, stores.packages, host);
    }

    /** The listing the startup load walks. */
    method ListSources() returns (list: seq<nat>)
      ensures IsListing(list, stores.rows)
    {
      list := [];
      var left := stores.rows.Keys;
      while left != {}
        invariant left <= stores.rows.Keys && (forall id | id in list :: id in stores.rows.Keys - left)
        invariant forall id | id in stores.rows.Keys - left :: id in list
        invariant forall i, j | 0 <= i < j < |list| :: list[i] != list[j]
        decreases |left|
      {
        var id :| id in left;
        assert id !in list;
        list, left := list + [id], left - {id};
      }
    }

    // --- histories -----------------------------------------------------------

    /** What one call does. An install whose generated id is taken cannot happen, and is passed over. */
    method Perform(call: Call, limit: nat)
      requires Valid()
      modifies this
      ensures Valid() && old(trace) <= trace && old(largest) <= largest <= Larger(old(largest), limit)
      ensures call.Uninstalling? && call.uninstallFault.None? ==> stores.rows == old(stores).rows - {call.id}
      ensures call.Restarting? ==> stores.rows == old(stores).rows && stores.packages == old(stores).packages
                                   && stores.partials == old(stores).partials * call.stuck
    {
      match call
      case Installing(repo, download, newId, fault) =>
        if newId !in stores.rows {
          var r := Install(repo, download, limit, newId, fault);
        }
      case Uninstalling(id, fault) =>
        var r := Uninstall(id, fault);
      case Restarting(host, stuck) =>
        var list := ListSources();
        var report := Restart(list, host);
        var removed := CleanPartials(stuck);
    }

    /** The process dies with so many states behind it: what those states did stays, what was loaded goes. */
    method Die(before: State, start: nat, at: nat)
      requires Valid() && IsSound(before, prepare, largest) && start <= at <= |trace|
      modifies `stores, `trace
      ensures Valid() && stores.loaded == map[]
      ensures at == start ==> stores == before.(loaded := map[])
      ensures at > start ==> stores == old(trace)[at - 1].(loaded := map[])
      ensures trace == old(trace)[..at] + [stores]
    {
      var last := if at == start then before else trace[at - 1];
      KillKeeps(last, prepare);
      stores := last.(loaded := map[]);
      trace := trace[..at] + [stores];
    }

    /** Any calls, each of which may fail, and any of which the process may die in after any of its changes. */
    method Live(events: seq<Event>, limit: nat)
      requires Valid()
      modifies this
      ensures Valid() && largest <= Larger(old(largest), limit)
      ensures stores.loaded.Keys <= stores.packages.Keys <= stores.rows.Keys
      ensures forall s | s in trace :: s.loaded.Keys <= s.packages.Keys <= s.rows.Keys && forall k | k in s.kv :: k.0 in s.rows
    {
      for i := 0 to |events|
        invariant Valid() && largest <= Larger(old(largest), limit)
      {
        var before, start := stores, |trace|;
        Perform(events[i].call, limit);
        if events[i].diesAfter.Some? && start + events[i].diesAfter.value <= |trace| {
          Die(before, start, start + events[i].diesAfter.value);
        }
      }
    }

    /**
     A restart after any history of downloads within a limit that the store can read back: size is
     never why a source is not loaded again, and a host that reads every package and runs the same
     runtime loads every saved package.
     */
    method RestartAfter(events: seq<Event>, limit: nat, host: Host) returns (report: LoadReport, ghost before: State)
      requires Valid() && largest <= limit <= MAX_PACKAGE_BYTES
      modifies this
      ensures Valid() && stores == before.(loaded := stores.loaded) && AtMost(before.packages, limit)
      ensures before.loaded.Keys <= before.packages.Keys
      ensures before.loaded.Keys <= stores.loaded.Keys <==>
                forall id | id in before.loaded :: id !in host.unreadable && host.runtime(before.packages[id]).Some?
      ensures host.unreadable == {} && host.runtime == prepare ==> stores.loaded == before.packages
    {
      Live(events, limit);
      before := stores;
      var list := ListSources();
      report := Restart(list, host);
      if host.unreadable == {} && host.runtime == prepare {
        BoundedPackagesLoad(before, prepare, largest, host);
        LoadedIsSaved(before, list, stores.loaded, host);
      }
    }
  }

  /** A download limit over the store's own: the package installs, is loaded, and is gone after a restart. */
  method OversizedIsNotReloaded(encode: SettingValue -> seq<Byte>) returns (registry: AidokuRegistry, id: nat, ghost before: State)
    ensures id in before.loaded && id in before.packages && |before.packages[id]| == MAX_PACKAGE_BYTES + 1
    ensures registry.stores.packages == before.packages && registry.stores.loaded == map[]
  {
    var source := Prepared("source", 1, None);
    registry := new AidokuRegistry(bytes => Some(source), encode);
    var download: seq<Byte> := seq(MAX_PACKAGE_BYTES + 1, _ => 0);
    var r := registry.Install(0, download, MAX_PACKAGE_BYTES + 1, 0, None);
    id := r.value;
    before := registry.stores;
    var list := registry.ListSources();
    var report := registry.Restart(list, Host({}, registry.prepare));
    assert registry.stores.packages == map[id := download];
  }
}

/**
 Chapters placed by concurrent writers that may fail or be killed at any step: each is built in
 the staging directory and renamed into the library (crates/packaging/src/store.rs).
 */
module ChapterPlacement {
  import opened Wrappers
  import opened Decimal
  import opened ChapterPaths

  const STAGING := ".staging"

  /** A file under the library root. */
  datatype Path = Path(dir: string, name: string)

  predicate Visible(p: Path) {
    p.dir != STAGING
  }

  /** How a chapter is named. */
  datatype Naming = Naming(title: string, disambiguator: Option<string>, volume: Option<string>, number: Option<string>)

  function Destination(n: Naming): Result<Path> {
    var dir, stem := SeriesDir(n.title, n.disambiguator), ChapterStem(n.title, n.volume, n.number);
    if dir.Err? then Err(dir.error) else if stem.Err? then Err(stem.error) else Ok(Path(dir.value, FileName(stem.value)))
  }

  /** A path outside every hidden directory, which is all that placing relies on. */
  predicate IsPlace(p: Path) {
    p.dir != "" && p.dir[0] != '.'
  }

  lemma DestinationIsPlace(n: Naming)
    ensures Destination(n).Ok? ==> IsPlace(Destination(n).value)
    ensures var dir, stem := SeriesDir(n.title, n.disambiguator), ChapterStem(n.title, n.volume, n.number);
            Destination(n) == if dir.Err? then Err(dir.error) else if stem.Err? then Err(stem.error)
                              else Ok(Path(dir.value, stem.value + ".cbz"))
  {
    SeriesDirIsSafe(n.title, n.disambiguator);
  }

  lemma PlaceIsVisible(p: Path)
    requires IsPlace(p)
    ensures Visible(p)
  {
  }

  /** The staging file under the generated name `temp`. */
  function TempPath(temp: nat): Path {
    Path(STAGING, Digits(temp) + ".cbz.part")
  }

  lemma SuffixCancels(a: string, b: string, suffix: string)
    requires a + suffix == b + suffix
    ensures a == b
  {
    assert a == (a + suffix)[..|a|] && b == (b + suffix)[..|b|];
  }

  lemma TempPathsDiffer(a: nat, b: nat)
    requires a != b
    ensures TempPath(a) != TempPath(b)
  {
    ValueOfDigits(a);
    ValueOfDigits(b);
    if TempPath(a) == TempPath(b) {
      SuffixCancels(Digits(a), Digits(b), ".cbz.part");
    }
  }

  datatype Progress = Built | Writing(written: nat) | Synced | Ready

  datatype Writer = Writer(dest: Path, temp: nat, archive: seq<Byte>, progress: Progress)

  /** The files, the writers at work, the generated names used, and what writers have reported as placed. */
  datatype State = State(
    files: map<Path, seq<Byte>>, writers: map<nat, Writer>, temps: set<nat>, placed: set<(Path, seq<Byte>)>)

  datatype Step =
    | Start(id: nat, dest: Path, archive: seq<Byte>, temp: nat)
    | Create(id: nat)
    | Write(id: nat, upTo: nat)
    | Sync(id: nat)
    | MakeDir(id: nat)
    | Rename(id: nat)
    /** The writer gives up and leaves its staging file. */
    | GiveUp(id: nat)
    /** The rename fails and the staging file is removed. */
    | FailRename(id: nat)
    | Delete(path: Path)
    /** The process is killed: its writers are gone, the files stay. */
    | Kill
    /** The startup sweep removes one staging file. */
    | Sweep(path: Path)

  predicate At(s: State, id: nat, progress: Progress) {
    id in s.writers && s.writers[id].progress == progress
  }

  predicate Enabled(s: State, step: Step) {
    match step
    case Start(id, dest, _, temp) => id !in s.writers && temp !in s.temps && IsPlace(dest)
    case Create(id) => At(s, id, Built)
    case Write(id, upTo) =>
      id in s.writers && s.writers[id].progress.Writing? && s.writers[id].progress.written < upTo <= |s.writers[id].archive|
    case Sync(id) => id in s.writers && At(s, id, Writing(|s.writers[id].archive|))
    case MakeDir(id) => At(s, id, Synced)
    case Rename(id) => At(s, id, Ready) && TempPath(s.writers[id].temp) in s.files
    case GiveUp(id) => id in s.writers
    case FailRename(id) => At(s, id, Ready)
    case Delete(path) => Visible(path)
    case Kill => true
    case Sweep(path) => s.writers == map[] && !Visible(path) && path in s.files
  }

  function Advance(s: State, id: nat, progress: Progress): map<nat, Writer>
    requires id in s.writers
  {
    s.writers[id := s.writers[id].(progress := progress)]
  }

  function Apply(s: State, step: Step): State
    requires Enabled(s, step)
  {
    match step
    case Start(id, dest, archive, temp) =>
      s.(writers := s.writers[id := Writer(dest, temp, archive, Built)], temps := s.temps + {temp})
    case Create(id) => s.(files := s.files[TempPath(s.writers[id].temp) := []], writers := Advance(s, id, Writing(0)))
    case Write(id, upTo) =>
      var w := s.writers[id];
      s.(files := s.files[TempPath(w.temp) := w.archive[..upTo]], writers := Advance(s, id, Writing(upTo)))
    case Sync(id) => s.(writers := Advance(s, id, Synced))
    case MakeDir(id) => s.(writers := Advance(s, id, Ready))
    case Rename(id) =>
      var w := s.writers[id];
      var content := s.files[TempPath(w.temp)];
      s.(files := (s.files - {TempPath(w.temp)})[w.dest := content], writers := s.writers - {id},
         placed := s.placed + {(w.dest, w.archive)})
    case GiveUp(id) => s.(writers := s.writers - {id})
    case FailRename(id) => s.(files := s.files - {TempPath(s.writers[id].temp)}, writers := s.writers - {id})
    case Delete(path) => s.(files := s.files - {path})
    case Kill => s.(writers := map[])
    case Sweep(path) => s.(files := s.files - {path})
  }

  // --- runs ----------------------------------------------------------------

  datatype Run = Begin | Then(before: Run, step: Step)

  predicate Valid(run: Run)
    decreases run, 0
  {
    run.Then? ==> Valid(run.before) && Enabled(StateOf(run.before), run.step)
  }

  function StateOf(run: Run): State
    requires Valid(run)
    decreases run, 1
  {
    match run
    case Begin => State(map[], map[], {}, {})
    case Then(before, step) => Apply(StateOf(before), step)
  }

  /** The archives whose placement was started, each with where it goes. */
  function Started(run: Run): set<(Path, seq<Byte>)> {
    match run
    case Begin => {}
    case Then(before, step) =>
      Started(before) + (if step.Start? then {(step.dest, step.archive)} else {})
  }

  // --- the invariant -------------------------------------------------------

  /** A writer's staging file holds what it has written so far: all of it once it is synced. */
  predicate WriterOk(files: map<Path, seq<Byte>>, w: Writer) {
    && Visible(w.dest)
    && match w.progress
       case Built => true
       case Writing(n) => n <= |w.archive| && TempPath(w.temp) in files && files[TempPath(w.temp)] == w.archive[..n]
       case _ => TempPath(w.temp) in files && files[TempPath(w.temp)] == w.archive
  }

  predicate WritersOk(s: State, started: set<(Path, seq<Byte>)>) {
    forall id | id in s.writers ::
      WriterOk(s.files, s.writers[id]) && s.writers[id].temp in s.temps && (s.writers[id].dest, s.writers[id].archive) in started
  }

  predicate OwnTemps(s: State) {
    forall id, id' | id in s.writers && id' in s.writers && id != id' :: s.writers[id].temp != s.writers[id'].temp
  }

  /** Everything outside staging is a whole archive, under the name it was meant for. */
  predicate WholeOutsideStaging(files: map<Path, seq<Byte>>, started: set<(Path, seq<Byte>)>) {
    forall p | p in files && Visible(p) :: (p, files[p]) in started
  }

  predicate Inv(s: State, started: set<(Path, seq<Byte>)>) {
    WritersOk(s, started) && OwnTemps(s) && WholeOutsideStaging(s.files, started) && s.placed <= started
  }

  lemma OthersUndisturbed(s: State, id: nat, started: set<(Path, seq<Byte>)>)
    requires Inv(s, started) && id in s.writers
    ensures forall id' | id' in s.writers && id' != id :: TempPath(s.writers[id'].temp) != TempPath(s.writers[id].temp)
  {
    forall id' | id' in s.writers && id' != id
      ensures TempPath(s.writers[id'].temp) != TempPath(s.writers[id].temp)
    {
      TempPathsDiffer(s.writers[id'].temp, s.writers[id].temp);
    }
  }

  lemma StartKeepsInv(s: State, id: nat, w: Writer, started: set<(Path, seq<Byte>)>)
    requires Inv(s, started) && id !in s.writers && w.temp !in s.temps && w.progress.Built? && Visible(w.dest)
    ensures Inv(s.(writers := s.writers[id := w], temps := s.temps + {w.temp}), started + {(w.dest, w.archive)})
  {
  }

  lemma WriteKeepsInv(s: State, id: nat, n: nat, started: set<(Path, seq<Byte>)>)
    requires Inv(s, started) && id in s.writers && n <= |s.writers[id].archive|
    ensures var w := s.writers[id];
            Inv(s.(files := s.files[TempPath(w.temp) := w.archive[..n]], writers := Advance(s, id, Writing(n))), started)
  {
    OthersUndisturbed(s, id, started);
  }

  lemma AdvanceKeepsInv(s: State, id: nat, progress: Progress, started: set<(Path, seq<Byte>)>)
    requires Inv(s, started) && id in s.writers
    requires WriterOk(s.files, s.writers[id].(progress := progress))
    ensures Inv(s.(writers := Advance(s, id, progress)), started)
  {
  }

  lemma RenameKeepsInv(s: State, id: nat, started: set<(Path, seq<Byte>)>)
    requires Inv(s, started) && Enabled(s, Rename(id))
    ensures Inv(Apply(s, Rename(id)), started)
  {
    OthersUndisturbed(s, id, started);
  }

  lemma LeavingKeepsInv(s: State, id: nat, files: map<Path, seq<Byte>>, started: set<(Path, seq<Byte>)>)
    requires Inv(s, started) && id in s.writers
    requires files == s.files || files == s.files - {TempPath(s.writers[id].temp)}
    ensures Inv(s.(files := files, writers := s.writers - {id}), started)
  {
    OthersUndisturbed(s, id, started);
  }

  lemma RemovalKeepsInv(s: State, path: Path, started: set<(Path, seq<Byte>)>)
    requires Inv(s, started) && (Visible(path) || s.writers == map[])
    ensures Inv(s.(files := s.files - {path}), started)
  {
  }

  lemma StepKeepsInv(s: State, step: Step, started: set<(Path, seq<Byte>)>)
    requires Inv(s, started) && Enabled(s, step)
    ensures step.Start? ==> Inv(Apply(s, step), started + {(step.dest, step.archive)})
    ensures !step.Start? ==> Inv(Apply(s, step), started)
  {
    match step
    case Start(id, dest, archive, temp) =>
      PlaceIsVisible(dest);
      StartKeepsInv(s, id, Writer(dest, temp, archive, Built), started);
    case Create(id) =>
      WriteKeepsInv(s, id, 0, started);
      assert s.writers[id].archive[..0] == [];
    case Write(id, upTo) => WriteKeepsInv(s, id, upTo, started);
    case Sync(id) =>
      assert s.writers[id].archive[..|s.writers[id].archive|] == s.writers[id].archive;
      AdvanceKeepsInv(s, id, Synced, started);
    case MakeDir(id) => AdvanceKeepsInv(s, id, Ready, started);
    case Rename(id) => RenameKeepsInv(s, id, started);
    case GiveUp(id) => LeavingKeepsInv(s, id, s.files, started);
    case FailRename(id) => LeavingKeepsInv(s, id, s.files - {TempPath(s.writers[id].temp)}, started);
    case Delete(path) => RemovalKeepsInv(s, path, started);
    case Kill =>
    case Sweep(path) => RemovalKeepsInv(s, path, started);
  }

  lemma {:induction false} RunsKeepInv(run: Run)
    requires Valid(run)
    ensures Inv(StateOf(run), Started(run))
  {
    if run.Then? {
      RunsKeepInv(run.before);
      StepKeepsInv(StateOf(run.before), run.step, Started(run.before));
    }
  }

  // --- what readers see ----------------------------------------------------

  /**
   However writers interleave, fail and are killed: a file outside staging is always the complete
   archive of one placement started for that very path, and so is everything reported as placed.
   */
  lemma NothingPartialIsVisible(run: Run)
    requires Valid(run)
    ensures forall p | p in StateOf(run).files && Visible(p) :: (p, StateOf(run).files[p]) in Started(run)
    ensures StateOf(run).placed <= Started(run)
  {
    RunsKeepInv(run);
  }

  /** What a writer has done since it started. */
  datatype Milestone = Begun | Created | Flushed | DirMade

  function Milestones(run: Run, id: nat): seq<Milestone> {
    match run
    case Begin => []
    case Then(before, step) =>
      if step == Create(id) then Milestones(before, id) + [Created]
      else if step == Sync(id) then Milestones(before, id) + [Flushed]
      else if step == MakeDir(id) then Milestones(before, id) + [DirMade]
      else if step.Start? && step.id == id then [Begun]
      else Milestones(before, id)
  }

  /** The steps that move a writer on, and from where. */
  lemma ProgressAfter(s: State, step: Step, id: nat)
    requires Enabled(s, step) && id in Apply(s, step).writers
    ensures var progress := Apply(s, step).writers[id].progress;
            if id !in s.writers then step.Start? && step.id == id && progress.Built?
            else
              var before := s.writers[id].progress;
              !(step.Start? && step.id == id)
              && if step == Create(id) then before.Built? && progress.Writing?
                 else if step == Sync(id) then before.Writing? && progress.Synced?
                 else if step == MakeDir(id) then before.Synced? && progress.Ready?
                 else progress == before || (before.Writing? && progress.Writing?)
  {
  }

  lemma {:induction false} ProgressIsMilestones(run: Run, id: nat)
    requires Valid(run) && id in StateOf(run).writers
    ensures match StateOf(run).writers[id].progress
            case Built => Milestones(run, id) == [Begun]
            case Writing(_) => Milestones(run, id) == [Begun, Created]
            case Synced => Milestones(run, id) == [Begun, Created, Flushed]
            case Ready => Milestones(run, id) == [Begun, Created, Flushed, DirMade]
  {
    if id in StateOf(run.before).writers {
      ProgressIsMilestones(run.before, id);
    }
    ProgressAfter(StateOf(run.before), run.step, id);
  }

  /** Nothing is renamed into the library before its file was created and flushed and its directory made, in that order. */
  lemma RenamesComeLast(run: Run, id: nat)
    requires Valid(run) && Enabled(StateOf(run), Rename(id))
    ensures Milestones(run, id) == [Begun, Created, Flushed, DirMade]
  {
    ProgressIsMilestones(run, id);
  }

  predicate SameFile(files: map<Path, seq<Byte>>, files': map<Path, seq<Byte>>, p: Path) {
    (p in files <==> p in files') && (p in files ==> files'[p] == files[p])
  }

  /**
   One step changes at most one visible file, and only in two ways: a deletion removes it, or a
   rename replaces it whole by the archive its writer then reports.
   */
  lemma VisibleChangesAreWhole(run: Run, p: Path)
    requires Valid(run) && run.Then? && Visible(p)
    ensures var (s, s') := (StateOf(run.before), StateOf(run));
            match run.step
            case Rename(id) =>
              var w := s.writers[id];
              if p == w.dest then p in s'.files && s'.files[p] == w.archive && (p, w.archive) in s'.placed
              else SameFile(s.files, s'.files, p)
            case Delete(path) => if p == path then p !in s'.files else SameFile(s.files, s'.files, p)
            case _ => SameFile(s.files, s'.files, p)
  {
    RunsKeepInv(run.before);
  }

  /** A process that was killed can be swept clean: with no writers, every staging file can be removed. */
  function SweepAll(run: Run, paths: seq<Path>): Run
    decreases |paths|
  {
    if paths == [] then run else SweepAll(Then(run, Sweep(paths[0])), paths[1..])
  }

  lemma {:induction false} SweepingEmptiesStaging(run: Run, paths: seq<Path>)
    requires Valid(run) && StateOf(run).writers == map[]
    requires forall p | p in paths :: p in StateOf(run).files && !Visible(p)
    requires forall p | p in StateOf(run).files && !Visible(p) :: p in paths
    requires forall i, j | 0 <= i < j < |paths| :: paths[i] != paths[j]
    ensures Valid(SweepAll(run, paths))
    decreases |paths|
    ensures StateOf(SweepAll(run, paths)).files == map p | p in StateOf(run).files && Visible(p) :: StateOf(run).files[p]
  {
    if paths != [] {
      assert paths == [paths[0]] + paths[1..];
      var next := Then(run, Sweep(paths[0]));
      assert StateOf(next).files == StateOf(run).files - {paths[0]};
      forall p | p in paths[1..] ensures p != paths[0] {
        var i :| 0 <= i < |paths| - 1 && paths[1..][i] == p;
        assert paths[i + 1] == p;
      }
      SweepingEmptiesStaging(next, paths[1..]);
    }
  }
}

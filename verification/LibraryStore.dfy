/** The library store one call at a time: placing, deleting, sweeping and reading (crates/packaging/src/store.rs). */
module LibraryStore {
  import opened Wrappers
  import opened ChapterPlacement
  import CbzArchive

  datatype Stage = StagingDir | CreateFile | WriteFile | SyncFile | ParentDir | RenameFile

  /** The system call that fails, after how many bytes when it is the write, and whether the volume is full. */
  datatype Fault = Fault(at: Stage, written: nat, full: bool)

  predicate FailsAt(fault: Option<Fault>, at: Stage) {
    fault.Some? && fault.value.at == at
  }

  function IoError(fault: Fault): Error {
    if fault.full then OutOfSpace else Storage
  }

  datatype Placed = Placed(path: Path, sizeBytes: nat, checksum: string)

  datatype ChapterSpec = ChapterSpec(
    title: string, disambiguator: Option<string>, volume: Option<string>, number: Option<string>, xml: seq<Byte>)

  function Place(spec: ChapterSpec): Result<Path> {
    Destination(Naming(spec.title, spec.disambiguator, spec.volume, spec.number))
  }

  /** Two states of the file system that show the same outside staging. */
  predicate SameLibrary(files: map<Path, seq<Byte>>, files': map<Path, seq<Byte>>) {
    (forall p | p in files && Visible(p) :: p in files' && files'[p] == files[p])
    && (forall p | p in files' && Visible(p) :: p in files)
  }

  class LibraryStore {
    var files: map<Path, seq<Byte>>
    /** The zip format and SHA-256. */
    const pack: seq<CbzArchive.ZipEntry> -> seq<Byte>
    const digest: seq<Byte> -> string

    constructor (pack: seq<CbzArchive.ZipEntry> -> seq<Byte>, digest: seq<Byte> -> string)
      ensures files == map[] && this.pack == pack && this.digest == digest
    {
      this.pack, this.digest := pack, digest;
      files := map[];
    }

    /** The whole archive of some pages. */
    ghost function Archive(spec: ChapterSpec, pages: seq<CbzArchive.PageImage>): seq<Byte>
      reads this
    {
      pack([CbzArchive.ZipEntry(CbzArchive.METADATA, spec.xml, true)] + CbzArchive.PageEntries(pages))
    }

    /** Writes and syncs. A write that fails leaves what it had written. */
    method WriteAndSync(path: Path, bytes: seq<Byte>, fault: Option<Fault>) returns (r: Result<()>)
      modifies this
      ensures r.Err? <==>
                fault.Some? && (fault.value.at == CreateFile || fault.value.at == WriteFile || fault.value.at == SyncFile)
      ensures r.Err? ==> r.error == IoError(fault.value)
      ensures r.Ok? ==> files == old(files)[path := bytes]
      ensures r.Err? ==> files == old(files) || exists n | 0 <= n <= |bytes| :: files == old(files)[path := bytes[..n]]
    {
      if FailsAt(fault, CreateFile) {
        return Err(IoError(fault.value));
      }
      files := files[path := []];
      if FailsAt(fault, WriteFile) {
        var n := if fault.value.written < |bytes| then fault.value.written else |bytes|;
        files := files[path := bytes[..n]];
        return Err(IoError(fault.value));
      }
      files := files[path := bytes];
      if FailsAt(fault, SyncFile) {
        assert bytes[..|bytes|] == bytes;
        return Err(IoError(fault.value));
      }
      return Ok(());
    }

    /** Everything from the temporary file on. */
    method PlaceAt(destination: Path, bytes: seq<Byte>, temp: nat, fault: Option<Fault>) returns (r: Result<()>)
      requires Visible(destination) && TempPath(temp) !in files && !FailsAt(fault, StagingDir)
      modifies this
      ensures r == if fault.None? then Ok(()) else Err(IoError(fault.value))
      ensures r.Ok? ==> files == old(files)[destination := bytes]
      ensures r.Err? ==> SameLibrary(old(files), files) && files.Keys <= old(files).Keys + {TempPath(temp)}
      ensures FailsAt(fault, RenameFile) ==> files == old(files)
    {
      var tempPath := TempPath(temp);
      r := WriteAndSync(tempPath, bytes, fault);
      if r.Err? {
        return;
      }
      if FailsAt(fault, ParentDir) {
        return Err(IoError(fault.value));
      }
      if FailsAt(fault, RenameFile) {
        files := files - {tempPath};
        assert files == old(files);
        return Err(IoError(fault.value));
      }
      files := (files - {tempPath})[destination := files[tempPath]];
      assert files == old(files)[destination := bytes];
      return Ok(());
    }

    /** Names are checked before anything is touched, and the directory before the pages. */
    function Refusal(spec: ChapterSpec, pages: seq<CbzArchive.PageImage>, fault: Option<Fault>): Error
      requires Place(spec).Err? || pages == [] || fault.Some?
    {
      if Place(spec).Err? then Place(spec).error
      else if pages == [] && !FailsAt(fault, StagingDir) then NoPages
      else IoError(fault.value)
    }

    /**
     Packages pages and places the archive. When it succeeds, exactly the archive is at its path
     and what is reported describes it; when it fails, for whichever reason, the library is as it was.
     */
    method WriteChapter(spec: ChapterSpec, pages: seq<CbzArchive.PageImage>, temp: nat, fault: Option<Fault>)
      returns (r: Result<Placed>)
      requires TempPath(temp) !in files
      modifies this
      ensures r.Ok? <==> Place(spec).Ok? && pages != [] && fault.None?
      ensures r.Ok? ==> var archive := Archive(spec, pages);
                        && files == old(files)[Place(spec).value := archive]
                        && r.value == Placed(Place(spec).value, |archive|, digest(archive))
      ensures r.Err? ==> SameLibrary(old(files), files) && files.Keys <= old(files).Keys + {TempPath(temp)}
      ensures r.Err? ==> forall p: Path | p.dir != ".staging" ::
                (p in files <==> p in old(files)) && (p in files ==> files[p] == old(files)[p])
      ensures r.Err? ==> r.error == Refusal(spec, pages, fault)
      ensures Place(spec).Ok? && pages != [] && fault.Some? ==> r == Err(if fault.value.full then OutOfSpace else Storage)
      ensures Place(spec).Ok? && pages == [] && fault.None? ==> r == Err(NoPages)
      ensures Place(spec).Err? || pages == [] || FailsAt(fault, RenameFile) ==> files == old(files)
    {
      var place := Place(spec);
      if place.Err? {
        return Err(place.error);
      }
      if FailsAt(fault, StagingDir) {
        return Err(IoError(fault.value));
      }
      var entries := CbzArchive.WriteCbz(pages, spec.xml);
      if entries.Err? {
        return Err(entries.error);
      }
      var bytes := pack(entries.value);
      var checksum := digest(bytes);
      DestinationIsPlace(Naming(spec.title, spec.disambiguator, spec.volume, spec.number));
      PlaceIsVisible(place.value);
      var placed := PlaceAt(place.value, bytes, temp, fault);
      if placed.Err? {
        return Err(placed.error);
      }
      return Ok(Placed(place.value, |bytes|, checksum));
    }

    /** Deleting what is already gone is no failure. */
    method Delete(path: Path, fails: bool) returns (r: Result<()>)
      modifies this
      ensures r == if fails && path in old(files) then Err(Storage) else Ok(())
      ensures files == if r.Ok? then old(files) - {path} else old(files)
    {
      if path !in files {
        return Ok(());
      }
      if fails {
        return Err(Storage);
      }
      files := files - {path};
      return Ok(());
    }

    /** The startup sweep. What cannot be removed stays and is not counted; the library is never touched. */
    method CleanStaging(stuck: set<Path>) returns (removed: nat)
      modifies this
      ensures files == map p | p in old(files) && (Visible(p) || p in stuck) :: old(files)[p]
      ensures removed == |set p | p in old(files) && !Visible(p) && p !in stuck|
    {
      removed := 0;
      var entries := set p | p in files && !Visible(p);
      ghost var gone: set<Path> := {};
      while entries != {}
        invariant forall p | p in entries :: p in old(files) && !Visible(p) && p !in gone
        invariant files == old(files) - gone && removed == |gone|
        invariant forall p | p in gone :: p in old(files) && !Visible(p) && p !in stuck
        invariant forall p | p in old(files) && !Visible(p) && p !in stuck :: p in entries || p in gone
        decreases |entries|
      {
        var entry :| entry in entries;
        entries := entries - {entry};
        if entry !in stuck {
          files := files - {entry};
          removed := removed + 1;
          gone := gone + {entry};
        }
      }
      assert gone == set p | p in old(files) && !Visible(p) && p !in stuck;
    }
  }
}

/** Extracting an archive into a new folder: everything it says, or no trace. */
module ArchiveExtraction {
  import opened Basics
  import opened Paths
  import opened ArchivePaths
  import opened ExtractionTree
  import opened TarStream
  import opened TarExtraction
  import opened ZipExtraction

  /** An archive by its kind, with what its decoder yields: entries, or a tar stream. */
  datatype Archive =
    | Zip(entries: seq<ZipEntry>)
    | Tar(stream: seq<Byte>)
    | TarGz(stream: seq<Byte>)
    | TarXz(stream: seq<Byte>)

  datatype Report = Report(created: seq<Path>, entries: nat, bytes: nat)

  function OutputLimit(a: Archive, archiveSize: nat): nat {
    if a.TarGz? || a.TarXz? then CompressedOutputLimit(archiveSize) else MAX_EXTRACTED_BYTES
  }

  /** What extracting an archive into this state means, as a function of what its decoder yields. */
  function Extracted(a: Archive, archiveSize: nat, dest: Path, s: Progress): Result<Progress, ArchiveError> {
    if a.Zip? then ExtractedZip(s, dest, a.entries, archiveSize)
    else Extract(a.stream, dest, OutputLimit(a, archiveSize), Begin(s))
  }

  /** The progress of an extraction whose destination was just created. */
  function Entered(t0: Tree, destination: Path): Progress {
    Progress(t0[destination := Folder], [destination], 0, 0)
  }

  lemma EnteredRecorded(t0: Tree, dest: Path)
    requires Closed(t0) && dest !in t0 && dest != [] && Parent(dest) in t0 && t0[Parent(dest)] == Folder
    ensures Recorded(t0, dest, Entered(t0, dest))
  {
    CreateClosed(t0, dest, Folder);
  }

  /** Every kind of archive: the bytes reported are those of the files created, within the limit; so is the
      number of entries. */
  lemma ExtractedWithinLimits(a: Archive, archiveSize: nat, t0: Tree, dest: Path)
    ensures var r := Extracted(a, archiveSize, dest, Entered(t0, dest));
      r.Ok? ==>
        && r.value.bytes == CreatedBytes(r.value.tree, r.value.created) <= OutputLimit(a, archiveSize)
        && r.value.bytes <= 2 * 1024 * 1024 * 1024 && r.value.entries <= 10_000
        && (a.Tar? || r.value.bytes <= 1000 * archiveSize + 64 * 1024 * 1024)
  {
    hide Extract, ExtractedZip, CreatedBytes;
    var s := Entered(t0, dest);
    EnteredCounted(t0, dest);
    if a.Zip? {
      if ExtractedZip(s, dest, a.entries, archiveSize).Ok? {
        ZipWritesWhatWasDeclared(s, dest, a.entries, archiveSize);
      }
    } else {
      ExtractWithinBudget(a.stream, dest, OutputLimit(a, archiveSize), Begin(s));
    }
  }

  lemma EnteredCounted(t0: Tree, dest: Path)
    ensures Counted(Entered(t0, dest)) && forall limit: nat :: WithinBudget(Begin(Entered(t0, dest)), limit)
  {
    assert [dest][..0] == [];
  }

  /** Why an extraction fails that no call and no cancelling stops: what stands in the way of the destination, the
      size of the archive, what the archive says, or the status of a decompressor at the end. */
  ghost predicate Refused(a: Archive, archiveSize: nat, t0: Tree, destination: Path, e: ArchiveError) {
    if archiveSize > 1024 * 1024 * 1024 then e == LimitExceeded
    else if destination in t0 then e == AlreadyExists
    else if destination == [] || Parent(destination) !in t0 || t0[Parent(destination)] != Folder then e == OsError
    else
      var r := Extracted(a, archiveSize, destination, Entered(t0, destination));
      if r.Err? then e == r.error else a.TarXz? && e == InvalidData
  }

  /** A successful extraction has done exactly what the archive says, within the limits. A failed one was stopped
      from outside or has its reason; it leaves no trace when no removal is refused, and never touches what was
      there before. */
  method ExtractArchive(a: Archive, archiveSize: nat, disk: Disk, destination: Path, cancelled: CancelFlag)
    returns (r: Result<Report, ArchiveError>)
    requires Closed(disk.tree)
    modifies disk, cancelled
    ensures r.Ok? ==>
              var done := Progress(disk.tree, r.value.created, r.value.entries, r.value.bytes);
              && archiveSize <= 1024 * 1024 * 1024 && destination !in old(disk.tree)
              && Extracted(a, archiveSize, destination, Entered(old(disk.tree), destination)) == Ok(done)
              && Recorded(old(disk.tree), destination, done)
    ensures r.Err? ==>
              || (r.error == Cancelled && cancelled.raised) || (r.error == OsError && disk.failed)
              || Refused(a, archiveSize, old(disk.tree), destination, r.error)
    ensures r.Err? ==>
              && (disk.tree == old(disk.tree) || disk.refused)
              && (forall p | p in old(disk.tree) :: p in disk.tree && disk.tree[p] == old(disk.tree)[p])
  {
    hide Recorded, Closed, Extract, ExtractedZip;
    disk.failed := false;
    if archiveSize > MAX_ARCHIVE_BYTES { return Err(LimitExceeded); }
    if destination in disk.tree { return Err(AlreadyExists); }
    if destination == [] || Parent(destination) !in disk.tree || disk.tree[Parent(destination)] != Folder {
      return Err(OsError);
    }
    var made := disk.CreateDir(destination);
    if made.Err? { return Err(made.error); }
    var state := new Extraction(destination, cancelled);
    ghost var t0 := old(disk.tree);
    EnteredRecorded(t0, destination);
    assert Now(disk, state) == Entered(t0, destination);
    var result: Result<(), ArchiveError>;
    if a.Zip? {
      result := ExtractZip(a.entries, archiveSize, disk, state, t0, destination);
    } else {
      var reader := new Reader(a.stream, disk);
      result := ExtractTar(reader, disk, state, t0, destination, OutputLimit(a, archiveSize));
      if result.Ok? && a.TarXz? {
        // The decompressor may still report failure after its output was complete.
        if * { result := Err(InvalidData); }
      }
    }
    if result.Err? {
      CleanupCreatedPaths(disk, t0, destination, Now(disk, state), state.created);
      return Err(result.error);
    }
    r := Ok(Report(state.created, state.entries, state.bytes));
  }
}

/** Which archives are extracted, and what is there then: zip archives in full, tar archives from a writer. */
module ArchiveOutcome {
  import opened Basics
  import opened Paths
  import opened Numerals
  import opened ArchivePaths
  import opened ExtractionTree
  import opened TarStream
  import opened TarRoundTrip
  import opened TarContents
  import opened TarSoundness
  import Zip = ZipExtraction
  import ArchiveExtraction

  const MEBI: nat := 1024 * 1024

  /** A file whose bytes are as many as declared, or a folder, with a safe path. */
  predicate ZipEntryFine(e: Zip.ZipEntry) {
    && (e.kind.Files? || e.kind.Folders?) && Zip.EntryPath(e).Ok?
    && e.size <= 512 * MEBI && (e.kind.Files? ==> |e.content| == e.size)
  }

  /** At most 10,000 such entries, which together declare at most 2 GiB, and at most a thousand times the size of the
      archive beside 64 MiB. */
  predicate ZipFine(entries: seq<Zip.ZipEntry>, archiveSize: nat) {
    && |entries| <= 10_000 && (forall i | 0 <= i < |entries| :: ZipEntryFine(entries[i]))
    && Zip.Declared(entries) <= 2048 * MEBI && Zip.Declared(entries) <= 1000 * archiveSize + 64 * MEBI
  }

  function ZipItem(e: Zip.ZipEntry): Entry {
    Plain(if Zip.EntryPath(e).Ok? then Zip.EntryPath(e).value else [], if e.kind.Files? then Some(e.content) else None)
  }

  function ZipItems(entries: seq<Zip.ZipEntry>): seq<Entry> {
    if entries == [] then [] else ZipItems(entries[..|entries| - 1]) + [ZipItem(entries[|entries| - 1])]
  }

  lemma {:induction false} ZipItemsAre(entries: seq<Zip.ZipEntry>)
    ensures |ZipItems(entries)| == |entries| && forall i | 0 <= i < |entries| :: ZipItems(entries)[i] == ZipItem(entries[i])
    decreases |entries|
  {
    hide ZipItem;
    if entries != [] { ZipItemsAre(entries[..|entries| - 1]); }
  }

  lemma ZipItemsHavePaths(entries: seq<Zip.ZipEntry>)
    requires forall i | 0 <= i < |entries| :: ZipEntryFine(entries[i])
    ensures forall e | e in ZipItems(entries) :: e.path != []
  {
    hide ZipItems;
    ZipItemsAre(entries);
    forall e | e in ZipItems(entries) ensures e.path != [] {
      var i :| 0 <= i < |entries| && ZipItems(entries)[i] == e;
      assert ZipEntryFine(entries[i]);
      SafePathStaysInside(entries[i].name.value);
    }
  }

  /** Counters do not matter for the directories. */
  lemma {:induction false} EnsureDirectoryCounted(s: Progress, base: Path, names: Path, bytes: nat)
    ensures var r, q := EnsureDirectory(s, base, names), EnsureDirectory(s.(bytes := bytes), base, names);
      if r.Err? then q == r else q == Ok(r.value.(bytes := bytes))
    decreases |names|
  {
    if names != [] {
      var current := base + [names[0]];
      if current !in s.tree {
        assert WithPath(s.(bytes := bytes), current, Folder) == WithPath(s, current, Folder).(bytes := bytes);
        EnsureDirectoryCounted(WithPath(s, current, Folder), current, names[1..], bytes);
      } else {
        EnsureDirectoryCounted(s, current, names[1..], bytes);
      }
    }
  }

  /** A fine entry is placed; the step over any other fails. */
  lemma ZipStepPlaces(s: Progress, dest: Path, e: Zip.ZipEntry)
    requires e.size <= 512 * MEBI
    ensures ZipEntryFine(e) ==> ZipItem(e).path != []
    ensures ZipEntryFine(e) && s.bytes + e.size <= 2048 * MEBI ==> Zip.ZipStep(s, dest, e) == Placed(s, dest, ZipItem(e))
    ensures Zip.ZipStep(s, dest, e).Ok? ==> ZipEntryFine(e)
  {
    hide EnsureDirectory, SafeRelativePath;
    if Zip.EntryPath(e).Ok? {
      var path := Zip.EntryPath(e).value;
      SafePathStaysInside(e.name.value);
      var parent := path[..|path| - 1];
      EnsureDirectoryCounted(s, dest, parent, s.bytes + |e.content|);
      EnsureDirectoryCounts(s, dest, parent);
    }
  }

  lemma {:induction false} PlacedLast(s: Progress, dest: Path, es: seq<Entry>, e: Entry)
    requires e.path != [] && forall f | f in es :: f.path != []
    ensures PlacedAll(s, dest, es + [e]) ==
            var r := PlacedAll(s, dest, es); if r.Err? then r else Placed(r.value, dest, e)
    decreases |es|
  {
    hide Placed;
    var all := es + [e];
    if es == [] {
      assert all == [e] && all[1..] == [];
    } else {
      assert all[0] == es[0] && all[1..] == es[1..] + [e];
      assert es[0] in es;
      var r := Placed(s, dest, es[0]);
      if r.Ok? { PlacedLast(r.value, dest, es[1..], e); }
    }
  }

  lemma {:induction false} ZipAllPlaces(s: Progress, dest: Path, entries: seq<Zip.ZipEntry>)
    requires forall i | 0 <= i < |entries| :: ZipEntryFine(entries[i])
    requires s.bytes + Zip.Declared(entries) <= 2048 * MEBI
    ensures forall e | e in ZipItems(entries) :: e.path != []
    ensures Zip.ZipAll(s, dest, entries) == PlacedAll(s, dest, ZipItems(entries))
    ensures var r := Zip.ZipAll(s, dest, entries); r.Ok? ==> r.value.bytes <= s.bytes + Zip.Declared(entries)
    decreases |entries|
  {
    hide ZipEntryFine, ZipItem, Zip.ZipStep, Placed;
    ZipItemsHavePaths(entries);
    if entries != [] {
      var n := |entries| - 1;
      var before, e := entries[..n], entries[n];
      ZipAllPlaces(s, dest, before);
      var r := Zip.ZipAll(s, dest, before);
      FineSize(e);
      if r.Ok? {
        ZipStepPlaces(r.value, dest, e);
        PlacedBytes(r.value, dest, ZipItem(e));
      }
      FinePath(s, dest, e);
      PlacedLast(s, dest, ZipItems(before), ZipItem(e));
    }
  }

  lemma FineSize(e: Zip.ZipEntry)
    requires ZipEntryFine(e)
    ensures e.size <= 512 * MEBI && PayloadSize(ZipItem(e)) <= e.size
  {
  }

  lemma FinePath(s: Progress, dest: Path, e: Zip.ZipEntry)
    requires ZipEntryFine(e)
    ensures ZipItem(e).path != []
  {
    ZipStepPlaces(s, dest, e);
  }

  lemma {:induction false} ZipAllFine(s: Progress, dest: Path, entries: seq<Zip.ZipEntry>)
    requires Zip.ZipAll(s, dest, entries).Ok? && forall i | 0 <= i < |entries| :: entries[i].size <= 512 * MEBI
    ensures forall i | 0 <= i < |entries| :: ZipEntryFine(entries[i])
    decreases |entries|
  {
    hide ZipEntryFine, Zip.ZipStep;
    if entries != [] {
      var n := |entries| - 1;
      ZipAllFine(s, dest, entries[..n]);
      ZipStepPlaces(Zip.ZipAll(s, dest, entries[..n]).value, dest, entries[n]);
      forall i | 0 <= i < |entries| ensures ZipEntryFine(entries[i]) {
        if i < n { assert entries[i] == entries[..n][i]; }
      }
    }
  }

  lemma {:induction false} DeclaredGrows(entries: seq<Zip.ZipEntry>)
    requires entries != []
    ensures Zip.Declared(entries[..|entries| - 1]) <= Zip.Declared(entries)
  {
  }

  lemma RatioMeans(archiveSize: nat, total: nat)
    requires total <= 2048 * MEBI
    ensures total <= Zip.RatioLimit(archiveSize) <==> total <= 1000 * archiveSize + 64 * MEBI
  {
  }

  /** The first pass refuses nothing exactly when kinds, sizes, names and totals are as they must be. */
  lemma {:induction false} PrepassMeans(entries: seq<Zip.ZipEntry>, archiveSize: nat)
    ensures Zip.Prepass(entries, archiveSize).None? <==>
            && (forall i | 0 <= i < |entries| ::
                  !entries[i].kind.Symlink? && entries[i].size <= 512 * MEBI && Zip.EntryPath(entries[i]).Ok?)
            && Zip.Declared(entries) <= 2048 * MEBI && Zip.Declared(entries) <= 1000 * archiveSize + 64 * MEBI
    decreases |entries|
  {
    hide Zip.EntryPath, Zip.RatioLimit;
    if entries != [] {
      var n := |entries| - 1;
      var before := entries[..n];
      PrepassMeans(before, archiveSize);
      DeclaredGrows(entries);
      if Zip.Declared(entries) <= 2048 * MEBI { RatioMeans(archiveSize, Zip.Declared(entries)); }
      assert forall i | 0 <= i < n :: before[i] == entries[i];
      assert forall i | 0 <= i < |entries| :: i == n || entries[i] == before[i];
    }
  }

  /** A zip archive is extracted into a new folder exactly when its entries are fine and not in each other's way; and
      then the folder holds exactly its entries. */
  lemma ZipContents(entries: seq<Zip.ZipEntry>, archiveSize: nat, s: Progress, dest: Path)
    requires s.bytes == 0 && forall p | p in s.tree :: !(dest < p)
    ensures var r := Zip.ExtractedZip(s, dest, entries, archiveSize);
      && (r.Ok? <==> ZipFine(entries, archiveSize) && NoClashes(ZipItems(entries)))
      && (r.Ok? ==> HoldsExactly(s.tree, r.value.tree, dest, ZipItems(entries)) && r.value.entries == s.entries + |entries|)
  {
    hide Zip.ZipAll, Zip.Prepass, NoClashes, HoldsExactly, PlacedAll, ZipItems, Zip.EntryPath, Zip.Declared;
    PrepassMeans(entries, archiveSize);
    if Zip.Prepass(entries, archiveSize).None? {
      var items := ZipItems(entries);
      if forall i | 0 <= i < |entries| :: ZipEntryFine(entries[i]) {
        ZipAllPlaces(s, dest, entries);
        ZipItemsAre(entries);
        AllPlaced(s, dest, items);
        PlacedAllHolds(s, dest, items);
        forall e | e in items ensures HasRoom(s.tree, dest, e) { RoomInNewFolder(s.tree, dest, e); }
      } else if Zip.ZipAll(s, dest, entries).Ok? {
        ZipAllFine(s, dest, entries);
      }
    }
  }

  // ---- What the error of a zip archive says

  predicate Unsafe(e: Zip.ZipEntry) {
    e.kind.Symlink? || e.kind.Special? || e.name.None? || SafeRelativePath(e.name.value) == Err(UnsafeEntry)
  }

  predicate TooLarge(e: Zip.ZipEntry) {
    || e.size > 512 * MEBI || (e.kind.Files? && |e.content| > e.size)
    || (e.name.Some? && SafeRelativePath(e.name.value) == Err(LimitExceeded))
  }

  predicate TooShort(e: Zip.ZipEntry) { e.kind.Files? && |e.content| < e.size }

  /** An entry can be blamed for this error. */
  predicate Blamed(entries: seq<Zip.ZipEntry>, error: ArchiveError) {
    match error
    case UnsafeEntry => exists i :: 0 <= i < |entries| && Unsafe(entries[i])
    case LimitExceeded => exists i :: 0 <= i < |entries| && TooLarge(entries[i])
    case InvalidData => exists i :: 0 <= i < |entries| && TooShort(entries[i])
    case _ => false
  }

  lemma BlamedLonger(entries: seq<Zip.ZipEntry>, error: ArchiveError)
    requires entries != [] && Blamed(entries[..|entries| - 1], error)
    ensures Blamed(entries, error)
  {
    hide Unsafe, TooLarge, TooShort;
    assert forall i | 0 <= i < |entries| - 1 :: entries[..|entries| - 1][i] == entries[i];
  }

  lemma BlamedLast(entries: seq<Zip.ZipEntry>, error: ArchiveError)
    requires entries != []
    requires var e := entries[|entries| - 1];
      match error case UnsafeEntry => Unsafe(e) case LimitExceeded => TooLarge(e) case InvalidData => TooShort(e) case _ => false
    ensures Blamed(entries, error)
  {
    hide Unsafe, TooLarge, TooShort;
  }

  lemma PathError(e: Zip.ZipEntry)
    requires Zip.EntryPath(e).Err?
    ensures var error := Zip.EntryPath(e).error;
      if error.LimitExceeded? then TooLarge(e) else error.UnsafeEntry? && Unsafe(e)
  {
    hide SafeRelativePath;
    if e.name.Some? { SafePathExactly(e.name.value); }
  }

  lemma {:induction false} PrepassTells(entries: seq<Zip.ZipEntry>, archiveSize: nat)
    ensures var r := Zip.Prepass(entries, archiveSize);
      r.Some? && !(r.value.LimitExceeded?
                   && Zip.Declared(entries) > (if 1000 * archiveSize + 64 * MEBI < 2048 * MEBI
                                               then 1000 * archiveSize + 64 * MEBI else 2048 * MEBI)) ==>
        Blamed(entries, r.value)
    decreases |entries|
  {
    hide Zip.EntryPath, Zip.RatioLimit, Unsafe, TooLarge, Blamed;
    if entries != [] {
      var n := |entries| - 1;
      var e := entries[n];
      PrepassTells(entries[..n], archiveSize);
      DeclaredGrows(entries);
      if Zip.Declared(entries) <= 2048 * MEBI { RatioMeans(archiveSize, Zip.Declared(entries)); }
      var before := Zip.Prepass(entries[..n], archiveSize);
      if before.Some? {
        if Blamed(entries[..n], before.value) { BlamedLonger(entries, before.value); }
      } else if Zip.Prepass(entries, archiveSize).Some? {
        RefusalTells(e, Zip.Declared(entries), archiveSize);
        var error := Zip.Refusal(e, Zip.Declared(entries), archiveSize).value;
        if (error.UnsafeEntry? && Unsafe(e)) || (error.LimitExceeded? && TooLarge(e)) { BlamedLast(entries, error); }
      }
    }
  }

  lemma RefusalTells(e: Zip.ZipEntry, total: nat, archiveSize: nat)
    ensures var r := Zip.Refusal(e, total, archiveSize);
      r.Some? ==>
        || (r.value.UnsafeEntry? && Unsafe(e)) || (r.value.LimitExceeded? && TooLarge(e))
        || (r.value.LimitExceeded? && (total > 2048 * MEBI || total > Zip.RatioLimit(archiveSize)))
  {
    hide Zip.EntryPath, Zip.RatioLimit, SafeRelativePath;
    if Zip.EntryPath(e).Err? { PathError(e); }
  }

  lemma StepTells(s: Progress, dest: Path, e: Zip.ZipEntry)
    requires e.size <= 512 * MEBI && s.bytes + e.size <= 2048 * MEBI
    ensures var r := Zip.ZipStep(s, dest, e);
      r.Err? ==>
        || (r.error.UnsafeEntry? && Unsafe(e)) || (r.error.LimitExceeded? && TooLarge(e))
        || (r.error.InvalidData? && TooShort(e)) || r.error.AlreadyExists?
  {
    hide Zip.EntryPath, SafeRelativePath, EnsureDirectory;
    if Zip.EntryPath(e).Err? {
      PathError(e);
    } else {
      var path := Zip.EntryPath(e).value;
      assert path != [] by { hide *; Zip.PathIsSome(e); }
      EnsureDirectoryTells(s, dest, path);
      EnsureDirectoryTells(s, dest, path[..|path| - 1]);
    }
  }

  lemma {:induction false} EnsureDirectoryTells(s: Progress, base: Path, names: Path)
    ensures var r := EnsureDirectory(s, base, names);
      if r.Err? then r.error.AlreadyExists? else r.value.bytes == s.bytes
    decreases |names|
  {
    if names != [] {
      var current := base + [names[0]];
      EnsureDirectoryTells(if current in s.tree then s else WithPath(s, current, Folder), current, names[1..]);
    }
  }

  lemma {:induction false} ZipAllTells(s: Progress, dest: Path, entries: seq<Zip.ZipEntry>)
    requires s.bytes + Zip.Declared(entries) <= 2048 * MEBI
    requires forall i | 0 <= i < |entries| :: entries[i].size <= 512 * MEBI
    ensures var r := Zip.ZipAll(s, dest, entries);
      if r.Ok? then r.value.bytes <= s.bytes + Zip.Declared(entries)
      else Blamed(entries, r.error) || r.error.AlreadyExists?
    decreases |entries|
  {
    hide Zip.ZipStep, Unsafe, TooLarge, TooShort, Blamed;
    if entries != [] {
      var n := |entries| - 1;
      var e := entries[n];
      ZipAllTells(s, dest, entries[..n]);
      var before := Zip.ZipAll(s, dest, entries[..n]);
      if before.Err? {
        if Blamed(entries[..n], before.error) { BlamedLonger(entries, before.error); }
      } else {
        StepTells(before.value, dest, e);
        StepBytes(before.value, dest, e);
        var r := Zip.ZipStep(before.value, dest, e);
        if r.Err? && !r.error.AlreadyExists? { BlamedLast(entries, r.error); }
      }
    }
  }

  lemma StepBytes(s: Progress, dest: Path, e: Zip.ZipEntry)
    ensures var r := Zip.ZipStep(s, dest, e); r.Ok? ==> r.value.bytes <= s.bytes + e.size
  {
    hide Zip.EntryPath, EnsureDirectory;
    if Zip.EntryPath(e).Ok? {
      var path := Zip.EntryPath(e).value;
      assert path != [] by { hide *; Zip.PathIsSome(e); }
      EnsureDirectoryTells(s, dest, path);
      EnsureDirectoryTells(s, dest, path[..|path| - 1]);
    }
  }

  /** The error of a zip archive names something that is wrong with it; one whose entries are fine is refused for
      nothing but entries in each other's way. */
  lemma ZipErrorTells(entries: seq<Zip.ZipEntry>, archiveSize: nat, s: Progress, dest: Path)
    requires s.bytes == 0
    ensures var r := Zip.ExtractedZip(s, dest, entries, archiveSize);
      r.Err? ==>
        || Blamed(entries, r.error)
        || (r.error.LimitExceeded? &&
              (|entries| > 10_000 || Zip.Declared(entries) > 2048 * MEBI
               || Zip.Declared(entries) > 1000 * archiveSize + 64 * MEBI))
        || r.error.AlreadyExists?
    ensures var r := Zip.ExtractedZip(s, dest, entries, archiveSize);
      r.Err? && ZipFine(entries, archiveSize) ==> r.error.AlreadyExists?
  {
    hide Zip.ZipAll, Zip.Prepass, Blamed, ZipEntryFine;
    PrepassTells(entries, archiveSize);
    PrepassMeans(entries, archiveSize);
    if Zip.Prepass(entries, archiveSize).None? { ZipAllTells(s, dest, entries); }
    if ZipFine(entries, archiveSize) { FineIsNotBlamed(entries); }
  }

  lemma FineIsNotBlamed(entries: seq<Zip.ZipEntry>)
    requires forall i | 0 <= i < |entries| :: ZipEntryFine(entries[i])
    ensures forall error :: !Blamed(entries, error)
    ensures forall i | 0 <= i < |entries| ::
              !entries[i].kind.Symlink? && entries[i].size <= 512 * MEBI && Zip.EntryPath(entries[i]).Ok?
  {
    hide SafeRelativePath;
    assert forall i | 0 <= i < |entries| :: ZipEntryFine(entries[i]);
  }

  /** How much a tar archive may hold, by how it is compressed. */
  function TarLimit(a: ArchiveExtraction.Archive, archiveSize: nat): nat {
    if a.Tar? || 1000 * archiveSize + 64 * MEBI > 2048 * MEBI then 2048 * MEBI else 1000 * archiveSize + 64 * MEBI
  }

  /** A tar archive from a writer, compressed or not, is extracted into a new folder as its entries when these are not
      in each other's way and within the limits. */
  lemma TarDelivered(a: ArchiveExtraction.Archive, archiveSize: nat, es: seq<Entry>, filler: nat, t0: Tree, dest: Path)
    requires !a.Zip? && (forall e | e in es :: EntryOk(e)) && a.stream == EncodeArchive(es, filler) && filler <= MEBI
    requires RecordsOf(es) <= 10_000 && ContentOf(es) <= TarLimit(a, archiveSize)
    requires |EncodeEntries(es)| <= TarLimit(a, archiveSize) + 16 * MEBI && archiveSize <= 1024 * MEBI
    requires Closed(t0) && dest !in t0
    ensures var r := ArchiveExtraction.Extracted(a, archiveSize, dest, ArchiveExtraction.Entered(t0, dest));
      if NoClashes(es)
      then r.Ok? && HoldsExactly(t0[dest := Folder], r.value.tree, dest, es) && r.value.entries == |es|
           && r.value.bytes == ContentOf(es)
      else r == Err(AlreadyExists)
  {
    hide EntryOk, Extract, EncodeArchive, EncodeEntries, NoClashes, HoldsExactly, Closed;
    var s := ArchiveExtraction.Entered(t0, dest);
    forall p | p in s.tree ensures !(dest < p) {
      if dest < p { NothingBelowAbsent(t0, dest, p); }
    }
    assert ArchiveExtraction.OutputLimit(a, archiveSize) == TarLimit(a, archiveSize);
    ArchiveContents(es, filler, dest, ArchiveExtraction.OutputLimit(a, archiveSize), s);
  }
}

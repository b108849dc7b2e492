/** The zip extraction of the file manager: a pass over the declared sizes, then a pass that must match them. */
module ZipExtraction {
  import opened Basics
  import opened Paths
  import opened Numerals
  import opened ArchivePaths
  import opened ExtractionTree
  import opened TarStream
  import opened TarExtraction

  datatype EntryKind = Folders | Files | Symlink | Special

  /** An entry as the zip reader presents it: its enclosed name if it has one, the size its header declares,
      and the bytes its decompressor yields, whatever their number. */
  datatype ZipEntry = ZipEntry(name: Option<seq<Byte>>, kind: EntryKind, size: nat, content: seq<Byte>)

  function RatioLimit(archiveSize: nat): nat {
    SatAdd(SatMul(archiveSize, MAX_COMPRESSION_RATIO), RATIO_ALLOWANCE)
  }

  function Declared(entries: seq<ZipEntry>): nat {
    if entries == [] then 0 else Declared(entries[..|entries| - 1]) + entries[|entries| - 1].size
  }

  /** What the entries that are not files declare, and nobody writes. */
  function DeclaredInVain(entries: seq<ZipEntry>): nat {
    if entries == [] then 0
    else
      var e := entries[|entries| - 1];
      DeclaredInVain(entries[..|entries| - 1]) + if e.kind.Files? then 0 else e.size
  }

  function EntryPath(e: ZipEntry): Result<Path, ArchiveError> {
    if e.name.None? then Err(UnsafeEntry) else SafeRelativePath(e.name.value)
  }

  /** Why the first pass refuses an entry, given what the entries up to it declare. */
  function Refusal(e: ZipEntry, total: nat, archiveSize: nat): Option<ArchiveError> {
    if e.kind.Symlink? then Some(UnsafeEntry)
    else if e.size > MAX_ENTRY_BYTES then Some(LimitExceeded)
    else if total > MAX_EXTRACTED_BYTES || total > RatioLimit(archiveSize) then Some(LimitExceeded)
    else if EntryPath(e).Err? then Some(EntryPath(e).error)
    else None
  }

  function Prepass(entries: seq<ZipEntry>, archiveSize: nat): Option<ArchiveError> {
    if entries == [] then None
    else
      var before := Prepass(entries[..|entries| - 1], archiveSize);
      if before.Some? then before else Refusal(entries[|entries| - 1], Declared(entries), archiveSize)
  }

  function ZipStep(s: Progress, dest: Path, e: ZipEntry): Result<Progress, ArchiveError> {
    var relative := EntryPath(e);
    if relative.Err? then Err(relative.error)
    else
      var path := relative.value;
      SafePathStaysInside(e.name.value);
      if e.kind.Folders? then
        var r := EnsureDirectory(s, dest, path);
        if r.Err? then r else Ok(r.value.(entries := r.value.entries + 1))
      else if e.kind.Files? then
        var r := EnsureDirectory(s, dest, path[..|path| - 1]);
        if r.Err? then r
        else if dest + path in r.value.tree then Err(AlreadyExists)
        else if |e.content| > e.size || |e.content| > MAX_ENTRY_BYTES then Err(LimitExceeded)
        else if |e.content| != e.size then Err(InvalidData)
        else if r.value.bytes + e.size > MAX_EXTRACTED_BYTES then Err(LimitExceeded)
        else
          var u := WithPath(r.value, dest + path, Regular(e.content));
          Ok(u.(bytes := u.bytes + e.size, entries := u.entries + 1))
      else Err(UnsafeEntry)
  }

  function ZipAll(s: Progress, dest: Path, entries: seq<ZipEntry>): Result<Progress, ArchiveError> {
    if entries == [] then Ok(s)
    else
      var before := ZipAll(s, dest, entries[..|entries| - 1]);
      if before.Err? then before else ZipStep(before.value, dest, entries[|entries| - 1])
  }

  function ExtractedZip(s: Progress, dest: Path, entries: seq<ZipEntry>, archiveSize: nat): Result<Progress,
          ArchiveError> {
    if |entries| > MAX_ENTRIES then Err(LimitExceeded)
    else
      var refusal := Prepass(entries, archiveSize);
      if refusal.Some? then Err(refusal.value) else ZipAll(s, dest, entries)
  }

  // ---- Budgets

  predicate Counted(s: Progress) {
    s.bytes == CreatedBytes(s.tree, s.created) && forall p | p in s.created :: p in s.tree
  }

  lemma ZipStepBudget(s: Progress, dest: Path, e: ZipEntry)
    requires Counted(s)
    ensures var r := ZipStep(s, dest, e);
      r.Ok? ==>
        && Counted(r.value) && r.value.entries == s.entries + 1
        && r.value.bytes == s.bytes + (if e.kind.Files? then e.size else 0)
  {
    hide EntryPath, CreatedBytes, EnsureDirectory;
    var relative := EntryPath(e);
    if relative.Ok? {
      var path := relative.value;
      assert path != [] by { hide *; PathIsSome(e); }
      EnsureDirectoryBytes(s, dest, path);
      EnsureDirectoryBytes(s, dest, path[..|path| - 1]);
      var r := EnsureDirectory(s, dest, path[..|path| - 1]);
      if r.Ok? && dest + path !in r.value.tree {
        CreateBytes(r.value, dest + path, Regular(e.content));
      }
    }
  }

  lemma PathIsSome(e: ZipEntry)
    requires EntryPath(e).Ok?
    ensures Inside(EntryPath(e).value) && EntryPath(e).value != []
  {
    SafePathStaysInside(e.name.value);
  }

  lemma {:induction false} ZipAllBudget(s: Progress, dest: Path, entries: seq<ZipEntry>)
    requires Counted(s)
    ensures var r := ZipAll(s, dest, entries);
      r.Ok? ==>
        && Counted(r.value) && r.value.entries == s.entries + |entries|
        && r.value.bytes + DeclaredInVain(entries) == s.bytes + Declared(entries)
    decreases |entries|
  {
    hide ZipStep, Counted;
    if entries != [] {
      var n := |entries| - 1;
      ZipAllBudget(s, dest, entries[..n]);
      var before := ZipAll(s, dest, entries[..n]);
      if before.Ok? { ZipStepBudget(before.value, dest, entries[n]); }
    }
  }

  lemma {:induction false} PrepassBounds(entries: seq<ZipEntry>, archiveSize: nat)
    requires Prepass(entries, archiveSize).None?
    ensures Declared(entries) <= MAX_EXTRACTED_BYTES && Declared(entries) <= RatioLimit(archiveSize)
  {
    if entries != [] {
      assert Refusal(entries[|entries| - 1], Declared(entries), archiveSize).None?;
    } else {
      assert RatioLimit(archiveSize) >= 0;
    }
  }

  /** A successful zip extraction wrote what the files of the archive declared, byte for byte: all that the
      first pass counted, exactly when no entry but a file declares a size. So the bounds of that pass, the
      compression ratio among them, hold for what was written. */
  lemma ZipWritesWhatWasDeclared(s: Progress, dest: Path, entries: seq<ZipEntry>, archiveSize: nat)
    requires Counted(s) && s.bytes == 0 && s.entries == 0
    requires ExtractedZip(s, dest, entries, archiveSize).Ok?
    ensures var r := ExtractedZip(s, dest, entries, archiveSize).value;
      && CreatedBytes(r.tree, r.created) == r.bytes == Declared(entries) - DeclaredInVain(entries)
      && (r.bytes == Declared(entries) <==> DeclaredInVain(entries) == 0)
      && r.bytes <= MAX_EXTRACTED_BYTES && r.bytes <= RatioLimit(archiveSize)
      && r.entries == |entries| <= MAX_ENTRIES
  {
    PrepassBounds(entries, archiveSize);
    ZipAllBudget(s, dest, entries);
  }

  // ---- The loops

  /** Copies an entry's bytes as they come; they must be exactly as many as declared. */
  method CopyBounded(reader: Reader, disk: Disk, state: Extraction, ghost t0: Tree, ghost destination: Path,
          path: Path, expected: nat)
    returns (r: Result<(), ArchiveError>)
    requires reader.position == 0 && reader.disk == disk && expected <= U64_MAX && Recorded(t0, destination, Now(disk, state))
    requires path in state.created && path in disk.tree && disk.tree[path] == Regular([])
    modifies reader`position, disk`tree, disk`failed, state.cancelled, state`bytes
    ensures Recorded(t0, destination, Now(disk, state))
    ensures r.Ok? ==>
              && |reader.data| == expected <= MAX_ENTRY_BYTES && old(state.bytes) + expected <= MAX_EXTRACTED_BYTES
              && disk.tree == old(disk.tree)[path := Regular(reader.data)] && state.bytes == old(state.bytes) + expected
    ensures r.Err? ==>
              || Outside(disk, state, r.error)
              || (r.error == LimitExceeded && (|reader.data| > expected || |reader.data| > MAX_ENTRY_BYTES))
              || (r.error == InvalidData && |reader.data| < expected && |reader.data| <= MAX_ENTRY_BYTES)
              || (r.error == LimitExceeded && |reader.data| == expected && old(state.bytes) + expected > MAX_EXTRACTED_BYTES)
  {
    hide Recorded;
    ghost var tree := disk.tree;
    var copied := 0;
    while true
      invariant reader.Valid() && reader.position == copied && copied <= expected && copied <= MAX_ENTRY_BYTES
      invariant state.bytes == old(state.bytes) && Recorded(t0, destination, Now(disk, state))
      invariant disk.tree == tree[path := Regular(reader.data[..copied])]
      decreases |reader.data| - reader.position
    {
      var check := state.CheckCancelled();
      if check.Err? { return check; }
      var chunk := reader.Read(BUFFER);
      if chunk.Err? { return Err(OsError); }
      if chunk.value == [] { break; }
      ghost var content := reader.data[..copied] + chunk.value;
      assert content == reader.data[..reader.position];
      copied := copied + |chunk.value|;
      if copied > expected || copied > MAX_ENTRY_BYTES { return Err(LimitExceeded); }
      WriteRecorded(t0, destination, Now(disk, state), path, content);
      var written := disk.WriteAll(path, chunk.value);
      if written.Err? { return Err(OsError); }
    }
    assert reader.data[..copied] == reader.data;
    if copied != expected { return Err(InvalidData); }
    CountedRecorded(t0, destination, Now(disk, state), state.bytes + copied);
    state.bytes := state.bytes + copied;
    if state.bytes > MAX_EXTRACTED_BYTES { return Err(LimitExceeded); }
    r := Ok(());
  }

  method ExtractZipEntry(disk: Disk, state: Extraction, ghost t0: Tree, destination: Path, entry: ZipEntry)
    returns (r: Result<(), ArchiveError>)
    requires Recorded(t0, destination, Now(disk, state)) && entry.size <= MAX_ENTRY_BYTES
    modifies disk, state, state.cancelled
    ensures Recorded(t0, destination, Now(disk, state))
    ensures r.Ok? ==> ZipStep(old(Now(disk, state)), destination, entry) == Ok(Now(disk, state))
    ensures r.Err? ==> Outside(disk, state, r.error) || ZipStep(old(Now(disk, state)), destination, entry) == Err(r.error)
  {
    hide Recorded, EnsureDirectory, SafeRelativePath;
    if entry.name.None? { return Err(UnsafeEntry); }
    var relative := SafeRelativePath(entry.name.value);
    if relative.Err? { return Err(relative.error); }
    SafePathStaysInside(entry.name.value);
    var output := destination + relative.value;
    if entry.kind.Folders? {
      r := EnsureDirectoryAt(disk, state, t0, destination, relative.value);
      if r.Err? { return; }
    } else if entry.kind.Files? {
      var parent := relative.value[..|relative.value| - 1];
      FolderAtDestination(t0, destination, Now(disk, state));
      EnsureDirectoryRecorded(t0, destination, Now(disk, state), destination, parent);
      r := EnsureDirectoryAt(disk, state, t0, destination, parent);
      if r.Err? { return; }
      assert Parent(output) == destination + parent;
      ghost var s := Now(disk, state);
      r := NewOutputFile(disk, state, t0, destination, output);
      if r.Err? { return; }
      var reader := new Reader(entry.content, disk);
      r := CopyBounded(reader, disk, state, t0, destination, output, entry.size);
      if r.Err? { return; }
      assert disk.tree == s.tree[output := Regular(entry.content)];
    } else {
      return Err(UnsafeEntry);
    }
    CountedRecorded(t0, destination, Now(disk, state), state.bytes);
    state.entries := state.entries + 1;
  }

  method ExtractZip(entries: seq<ZipEntry>, archiveSize: nat, disk: Disk, state: Extraction, ghost t0: Tree,
          destination: Path)
    returns (r: Result<(), ArchiveError>)
    requires Recorded(t0, destination, Now(disk, state))
    modifies disk, state, state.cancelled
    ensures Recorded(t0, destination, Now(disk, state))
    ensures r.Ok? ==> ExtractedZip(old(Now(disk, state)), destination, entries, archiveSize) == Ok(Now(disk, state))
    ensures r.Err? ==>
              || Outside(disk, state, r.error)
              || ExtractedZip(old(Now(disk, state)), destination, entries, archiveSize) == Err(r.error)
  {
    hide Recorded, ZipStep, EntryPath, RatioLimit;
    if |entries| > MAX_ENTRIES { return Err(LimitExceeded); }
    ghost var start := Now(disk, state);
    var declaredTotal := 0;
    var i := 0;
    while i < |entries|
      invariant 0 <= i <= |entries| && declaredTotal == Declared(entries[..i])
      invariant Prepass(entries[..i], archiveSize).None? && declaredTotal <= MAX_EXTRACTED_BYTES
      invariant forall j | 0 <= j < i :: entries[j].size <= MAX_ENTRY_BYTES
      invariant Now(disk, state) == start
    {
      var check := state.CheckCancelled();
      if check.Err? { return check; }
      if * {
        disk.failed := true;
        return Err(OsError);
      }
      var file := entries[i];
      PrepassStep(entries, archiveSize, i);
      if file.kind.Symlink? { return Err(UnsafeEntry); }
      if file.size > MAX_ENTRY_BYTES { return Err(LimitExceeded); }
      declaredTotal := SatAdd(declaredTotal, file.size);
      if declaredTotal > MAX_EXTRACTED_BYTES || declaredTotal > RatioLimit(archiveSize) { return Err(LimitExceeded); }
      var path := EntryPath(file);
      if path.Err? { return Err(path.error); }
      i := i + 1;
    }
    assert entries[..i] == entries;
    i := 0;
    while i < |entries|
      invariant 0 <= i <= |entries| && Recorded(t0, destination, Now(disk, state))
      invariant ZipAll(start, destination, entries[..i]) == Ok(Now(disk, state))
    {
      var check := state.CheckCancelled();
      if check.Err? { return check; }
      if * {
        disk.failed := true;
        return Err(OsError);
      }
      ZipAllStep(start, destination, entries, i);
      r := ExtractZipEntry(disk, state, t0, destination, entries[i]);
      if r.Err? { return; }
      i := i + 1;
    }
    assert entries[..i] == entries;
    r := Ok(());
  }

  /** A refusal of the first pass is final. */
  lemma {:induction false} PrepassStays(entries: seq<ZipEntry>, archiveSize: nat, i: nat)
    requires i <= |entries| && Prepass(entries[..i], archiveSize).Some?
    ensures Prepass(entries, archiveSize) == Prepass(entries[..i], archiveSize)
    decreases |entries| - i
  {
    if i == |entries| {
      assert entries[..i] == entries;
    } else {
      assert entries[..i + 1][..i] == entries[..i];
      PrepassStays(entries, archiveSize, i + 1);
    }
  }

  lemma PrepassStep(entries: seq<ZipEntry>, archiveSize: nat, i: nat)
    requires i < |entries| && Prepass(entries[..i], archiveSize).None?
    ensures Declared(entries[..i + 1]) == Declared(entries[..i]) + entries[i].size
    ensures var refusal := Refusal(entries[i], Declared(entries[..i + 1]), archiveSize);
      && Prepass(entries[..i + 1], archiveSize) == refusal
      && (refusal.Some? ==> Prepass(entries, archiveSize) == refusal)
  {
    assert entries[..i + 1][..i] == entries[..i];
    if Prepass(entries[..i + 1], archiveSize).Some? { PrepassStays(entries, archiveSize, i + 1); }
  }

  lemma {:induction false} ZipAllStays(s: Progress, dest: Path, entries: seq<ZipEntry>, i: nat)
    requires i <= |entries| && ZipAll(s, dest, entries[..i]).Err?
    ensures ZipAll(s, dest, entries) == ZipAll(s, dest, entries[..i])
    decreases |entries| - i
  {
    if i == |entries| {
      assert entries[..i] == entries;
    } else {
      assert entries[..i + 1][..i] == entries[..i];
      ZipAllStays(s, dest, entries, i + 1);
    }
  }

  lemma ZipAllStep(s: Progress, dest: Path, entries: seq<ZipEntry>, i: nat)
    requires i < |entries| && ZipAll(s, dest, entries[..i]).Ok?
    ensures var r := ZipStep(ZipAll(s, dest, entries[..i]).value, dest, entries[i]);
      && ZipAll(s, dest, entries[..i + 1]) == r
      && (r.Err? ==> ZipAll(s, dest, entries) == r)
  {
    hide ZipStep;
    assert entries[..i + 1][..i] == entries[..i];
    if ZipAll(s, dest, entries[..i + 1]).Err? { ZipAllStays(s, dest, entries, i + 1); }
  }
}

/** The extraction loop of the file manager: a stream read in pieces of any size onto a fallible disk. */
module TarExtraction {
  import opened Basics
  import opened Paths
  import opened Numerals
  import opened TarHeader
  import opened PaxRecords
  import opened ArchivePaths
  import opened ExtractionTree
  import opened TarStream

  const BUFFER: nat := 64 * 1024

  /** A reader over `data`, which is on the disk. Each read may return fewer bytes than asked for, or fail. */
  class Reader {
    const data: seq<Byte>
    const disk: Disk
    var position: nat

    constructor (data: seq<Byte>, disk: Disk)
      ensures this.data == data && this.disk == disk && position == 0
    {
      this.data, this.disk, position := data, disk, 0;
    }

    predicate Valid()
      reads this
    {
      position <= |data|
    }

    /** At most `max` bytes; none only at the end of the data. */
    method Read(max: nat) returns (r: Result<seq<Byte>, ArchiveError>)
      requires Valid() && max > 0
      modifies `position, disk`failed
      ensures Valid() && old(position) <= position
      ensures r.Ok? ==> r.value == data[old(position)..position] && |r.value| <= max
      ensures r.Ok? && r.value == [] ==> position == |data|
      ensures r.Err? ==> r.error == OsError && disk.failed
    {
      if * {
        disk.failed := true;
        return Err(OsError);
      }
      if position == |data| { return Ok([]); }
      var n :| 1 <= n <= max && position + n <= |data|;
      r := Ok(data[position..position + n]);
      position := position + n;
    }

    /** Exactly n bytes; `InvalidData` when the data ends first. */
    method ReadExactOrInvalid(n: nat) returns (r: Result<seq<Byte>, ArchiveError>)
      requires Valid()
      modifies `position, disk`failed
      ensures Valid() && old(position) <= position
      ensures r.Ok? ==> position == old(position) + n && r.value == data[old(position)..position]
      ensures r.Err? ==> (r.error == OsError && disk.failed) || (r.error == InvalidData && |data| - old(position) < n)
    {
      var buffer: seq<Byte> := [];
      while |buffer| < n
        invariant Valid() && position == old(position) + |buffer| && |buffer| <= n
        invariant buffer == data[old(position)..position]
      {
        var chunk := Read(n - |buffer|);
        if chunk.Err? { return Err(OsError); }
        if chunk.value == [] { return Err(InvalidData); }
        buffer := buffer + chunk.value;
      }
      r := Ok(buffer);
    }
  }

  /** The extraction's record and counters, and the flag another thread may raise at any time. */
  class Extraction {
    var created: seq<Path>
    var entries: nat
    var bytes: nat
    const cancelled: CancelFlag

    constructor (destination: Path, cancelled: CancelFlag)
      ensures created == [destination] && entries == 0 && bytes == 0 && this.cancelled == cancelled
    {
      created, entries, bytes, this.cancelled := [destination], 0, 0, cancelled;
    }

    method CheckCancelled() returns (r: Result<(), ArchiveError>)
      modifies cancelled
      ensures r == if cancelled.raised then Err(Cancelled) else Ok(())
    {
      var stop := cancelled.Load();
      r := if stop then Err(Cancelled) else Ok(());
    }
  }

  ghost function Now(disk: Disk, state: Extraction): Progress
    reads disk, state
  {
    Progress(disk.tree, state.created, state.entries, state.bytes)
  }

  /** The failures that come from outside: the flag has been raised, or a call of the disk or the reader failed. */
  ghost predicate Outside(disk: Disk, state: Extraction, e: ArchiveError)
    reads disk, state.cancelled
  {
    (e == Cancelled && state.cancelled.raised) || (e == OsError && disk.failed)
  }

  method EnsureDirectoryAt(disk: Disk, state: Extraction, ghost t0: Tree, destination: Path, names: Path)
    returns (r: Result<(), ArchiveError>)
    requires Recorded(t0, destination, Now(disk, state))
    modifies disk, state`created
    ensures Recorded(t0, destination, Now(disk, state))
    ensures r.Ok? ==> EnsureDirectory(old(Now(disk, state)), destination, names) == Ok(Now(disk, state))
    ensures r.Err? ==>
              || (r.error == OsError && disk.failed)
              || EnsureDirectory(old(Now(disk, state)), destination, names) == Err(r.error)
  {
    hide Recorded;
    FolderAtDestination(t0, destination, Now(disk, state));
    if names == [] {
      var node := disk.Stat(destination);
      if node.Err? { return Err(OsError); }
      return Ok(());
    }
    var current := destination;
    var i := 0;
    while i < |names|
      invariant 0 <= i <= |names| && destination <= current
      invariant Recorded(t0, destination, Now(disk, state))
      invariant current in disk.tree && disk.tree[current] == Folder
      invariant EnsureDirectory(old(Now(disk, state)), destination, names) ==
                EnsureDirectory(Now(disk, state), current, names[i..])
      invariant state.entries == old(state.entries) && state.bytes == old(state.bytes)
    {
      ghost var before := Now(disk, state);
      ghost var parent := current;
      current := current + [names[i]];
      assert Parent(current) == parent && names[i..][0] == names[i] && names[i..][1..] == names[i + 1..];
      var node := disk.Stat(current);
      if node.Err? { return Err(OsError); }
      if node.value.None? {
        CreateRecorded(t0, destination, before, current, Folder);
        var made := disk.CreateDir(current);
        if made.Err? { return Err(OsError); }
        state.created := state.created + [current];
        assert Now(disk, state) == WithPath(before, current, Folder);
      } else if node.value.value != Folder {
        return Err(AlreadyExists);
      }
      i := i + 1;
    }
    r := Ok(());
  }

  lemma FolderAtDestination(t0: Tree, dest: Path, s: Progress)
    requires Recorded(t0, dest, s)
    ensures dest in s.tree && s.tree[dest] == Folder
  {
  }

  /** Creates the file of an entry and puts it on the record. */
  method NewOutputFile(disk: Disk, state: Extraction, ghost t0: Tree, destination: Path, path: Path)
    returns (r: Result<(), ArchiveError>)
    requires Recorded(t0, destination, Now(disk, state)) && destination <= path && path != []
    requires Parent(path) in disk.tree && disk.tree[Parent(path)] == Folder
    modifies disk, state`created
    ensures Recorded(t0, destination, Now(disk, state))
    ensures r.Ok? ==> path !in old(disk.tree) && Now(disk, state) == WithPath(old(Now(disk, state)), path, Regular([]))
    ensures r.Err? ==> (r.error == OsError && disk.failed) || (r.error == AlreadyExists && path in old(disk.tree))
  {
    hide Recorded;
    ghost var before := Now(disk, state);
    if path !in disk.tree { CreateRecorded(t0, destination, before, path, Regular([])); }
    r := disk.CreateNew(path);
    if r.Ok? {
      state.created := state.created + [path];
      assert Now(disk, state) == WithPath(before, path, Regular([]));
    }
  }

  method SkipPadding(reader: Reader, state: Extraction, size: nat) returns (r: Result<(), ArchiveError>)
    requires reader.Valid()
    modifies reader`position, reader.disk`failed, state.cancelled
    ensures reader.Valid() && old(reader.position) <= reader.position
    ensures r.Ok? ==> reader.position == old(reader.position) + Padding(size)
    ensures r.Err? ==>
              || Outside(reader.disk, state, r.error)
              || (r.error == InvalidData && |reader.data| - old(reader.position) < Padding(size))
  {
    var check := state.CheckCancelled();
    if check.Err? { return check; }
    var block := reader.ReadExactOrInvalid(Padding(size));
    r := if block.Ok? then Ok(()) else Err(block.error);
  }

  method SkipTarPayload(reader: Reader, state: Extraction, size: nat) returns (r: Result<(), ArchiveError>)
    requires reader.Valid()
    modifies reader`position, reader.disk`failed, state.cancelled
    ensures reader.Valid() && old(reader.position) <= reader.position
    ensures r.Ok? ==> reader.position == old(reader.position) + size + Padding(size)
    ensures r.Err? ==>
              || Outside(reader.disk, state, r.error)
              || (r.error == Truncated && |reader.data| - old(reader.position) < size)
              || (r.error == InvalidData && size <= |reader.data| - old(reader.position) < size + Padding(size))
  {
    var remaining := size;
    while remaining > 0
      invariant reader.Valid() && reader.position + remaining == old(reader.position) + size
      invariant 0 <= remaining <= size
    {
      var check := state.CheckCancelled();
      if check.Err? { return check; }
      var chunk := reader.Read(if remaining < BUFFER then remaining else BUFFER);
      if chunk.Err? { return Err(OsError); }
      if chunk.value == [] { return Err(Truncated); }
      remaining := remaining - |chunk.value|;
    }
    r := SkipPadding(reader, state, size);
  }

  method ReadTarPayload(reader: Reader, state: Extraction, size: nat) returns (r: Result<seq<Byte>, ArchiveError>)
    requires reader.Valid()
    modifies reader`position, reader.disk`failed, state.cancelled
    ensures reader.Valid() && old(reader.position) <= reader.position
    ensures r.Ok? ==>
              && reader.position == old(reader.position) + size + Padding(size)
              && r.value == reader.data[old(reader.position)..old(reader.position) + size]
    ensures r.Err? ==>
              || Outside(reader.disk, state, r.error)
              || (r.error == InvalidData && |reader.data| - old(reader.position) < size + Padding(size))
  {
    r := reader.ReadExactOrInvalid(size);
    if r.Err? { return; }
    var padding := SkipPadding(reader, state, size);
    if padding.Err? { r := Err(padding.error); }
  }

  /** Copies the content of a file, piece by piece as the reader gives it, then skips the padding. */
  method CopyTarFile(reader: Reader, disk: Disk, state: Extraction, ghost t0: Tree, ghost destination: Path,
          path: Path, size: nat)
    returns (r: Result<(), ArchiveError>)
    requires reader.Valid() && reader.disk == disk && Recorded(t0, destination, Now(disk, state))
    requires path in state.created && path in disk.tree && disk.tree[path] == Regular([])
    modifies reader`position, disk`tree, disk`failed, state.cancelled
    ensures reader.Valid() && old(reader.position) <= reader.position
    ensures Recorded(t0, destination, Now(disk, state))
    ensures r.Ok? ==>
              && reader.position == old(reader.position) + size + Padding(size)
              && disk.tree == old(disk.tree)[path := Regular(reader.data[old(reader.position)..old(reader.position) + size])]
    ensures r.Err? ==>
              || Outside(disk, state, r.error)
              || (r.error == Truncated && |reader.data| - old(reader.position) < size)
              || (r.error == InvalidData && size <= |reader.data| - old(reader.position) < size + Padding(size))
  {
    hide Recorded;
    ghost var start, tree := reader.position, disk.tree;
    var remaining := size;
    assert reader.data[start..start] == [];
    while remaining > 0
      invariant reader.Valid() && reader.position + remaining == start + size && 0 <= remaining <= size
      invariant Recorded(t0, destination, Now(disk, state))
      invariant disk.tree == tree[path := Regular(reader.data[start..reader.position])]
    {
      var check := state.CheckCancelled();
      if check.Err? { return check; }
      ghost var middle := reader.position;
      var chunk := reader.Read(if remaining < BUFFER then remaining else BUFFER);
      if chunk.Err? { return Err(OsError); }
      if chunk.value == [] { return Err(Truncated); }
      ghost var content := reader.data[start..middle] + chunk.value;
      assert content == reader.data[start..reader.position];
      WriteRecorded(t0, destination, Now(disk, state), path, content);
      var written := disk.WriteAll(path, chunk.value);
      if written.Err? { return Err(OsError); }
      remaining := remaining - |chunk.value|;
    }
    r := SkipPadding(reader, state, size);
  }

  /** The end of the stream does not depend on how its bytes are split either. */
  method FinishTarStream(reader: Reader, state: Extraction) returns (r: Result<(), ArchiveError>)
    requires reader.Valid()
    modifies reader`position, reader.disk`failed, state.cancelled
    ensures reader.Valid() && old(reader.position) <= reader.position
    ensures r.Ok? ==> EndOfStream(reader.data[old(reader.position)..]) == None
    ensures r.Err? ==> Outside(reader.disk, state, r.error) || EndOfStream(reader.data[old(reader.position)..]) == Some(r.error)
  {
    ghost var rest := reader.data[reader.position..];
    ghost var start := reader.position;
    var second := reader.ReadExactOrInvalid(BLOCK);
    if second.Err? { return Err(second.error); }
    assert second.value == rest[..BLOCK];
    if !AllZero(second.value) { return Err(InvalidData); }
    var trailing := 0;
    while true
      invariant reader.Valid() && reader.position == start + BLOCK + trailing
      invariant trailing <= MAX_METADATA_BYTES && AllZero(rest[BLOCK..BLOCK + trailing])
      decreases |reader.data| - reader.position
    {
      var check := state.CheckCancelled();
      if check.Err? { return check; }
      var chunk := reader.Read(BUFFER);
      if chunk.Err? { return Err(OsError); }
      ghost var upTo := BLOCK + trailing;
      if chunk.value == [] {
        assert rest[BLOCK..upTo] == rest[BLOCK..];
        return Ok(());
      }
      assert chunk.value == rest[upTo..upTo + |chunk.value|];
      ZeroPieces(rest, BLOCK, upTo, upTo + |chunk.value|);
      trailing := trailing + |chunk.value|;
      if trailing > MAX_METADATA_BYTES || !AllZero(chunk.value) { return Err(InvalidData); }
    }
  }

  lemma ZeroPieces(s: seq<Byte>, i: nat, j: nat, k: nat)
    requires i <= j <= k <= |s|
    ensures AllZero(s[i..k]) <==> AllZero(s[i..j]) && AllZero(s[j..k])
    ensures AllZero(s[i..]) ==> AllZero(s[i..k])
  {
    assert s[i..k] == s[i..j] + s[j..k];
    assert s[i..] == s[i..k] + s[k..];
    if AllZero(s[i..k]) {
      assert AllZero(s[i..j]) by { assert forall n | 0 <= n < j - i :: s[i..j][n] == s[i..k][n]; }
      assert AllZero(s[j..k]) by { assert forall n | 0 <= n < k - j :: s[j..k][n] == s[i..k][j - i + n]; }
    }
  }

  // ---- The extraction loop

  /** The files and counters of a step, and its error if it stops. */
  ghost predicate Follows(step: TarStep, next: TarState, r: Result<(), ArchiveError>, disk: Disk, state: Extraction)
    reads disk, state.cancelled
  {
    if r.Ok? then step == Continue(next) else Outside(disk, state, r.error) || step == Stop(Err(r.error))
  }

  lemma FollowsMeans(step: TarStep, next: TarState, r: Result<(), ArchiveError>, disk: Disk, state: Extraction)
    requires Follows(step, next, r, disk, state)
    ensures if r.Ok? then step == Continue(next) else Outside(disk, state, r.error) || step == Stop(Err(r.error))
  {
  }

  method ExtractFile(reader: Reader, disk: Disk, state: Extraction, ghost t0: Tree, destination: Path, limit: nat,
                     size: nat, relative: Path, ghost t: TarState)
    returns (r: Result<(), ArchiveError>)
    requires reader.Valid() && reader.disk == disk && Recorded(t0, destination, Now(disk, state)) && relative != []
    requires t.progress == Now(disk, state)
    modifies reader`position, disk, state, state.cancelled
    ensures reader.Valid() && Recorded(t0, destination, Now(disk, state))
    ensures Follows(FileStep(reader.data, destination, limit, t, old(reader.position), size, relative),
                    t.(pos := reader.position, progress := Now(disk, state)), r, disk, state)
  {
    hide Recorded, EnsureDirectory;
    var parent := relative[..|relative| - 1];
    var output := destination + relative;
    if state.bytes + size > U64_MAX { return Err(LimitExceeded); }
    CountedRecorded(t0, destination, Now(disk, state), state.bytes + size);
    state.bytes := state.bytes + size;
    if state.bytes > limit { return Err(LimitExceeded); }
    FolderAtDestination(t0, destination, Now(disk, state));
    EnsureDirectoryRecorded(t0, destination, Now(disk, state), destination, parent);
    r := EnsureDirectoryAt(disk, state, t0, destination, parent);
    if r.Err? { return; }
    assert Parent(output) == destination + parent;
    r := NewOutputFile(disk, state, t0, destination, output);
    if r.Err? { return; }
    ghost var s := Now(disk, state);
    r := CopyTarFile(reader, disk, state, t0, destination, output, size);
    if r.Err? { return; }
    CountedRecorded(t0, destination, Now(disk, state), state.bytes);
    state.entries := state.entries + 1;
  }

  method ExtractFolder(reader: Reader, disk: Disk, state: Extraction, ghost t0: Tree, destination: Path,
                       size: nat, relative: Path, ghost t: TarState)
    returns (r: Result<(), ArchiveError>)
    requires reader.Valid() && reader.disk == disk && Recorded(t0, destination, Now(disk, state))
    requires t.progress == Now(disk, state)
    modifies reader`position, disk, state, state.cancelled
    ensures reader.Valid() && Recorded(t0, destination, Now(disk, state))
    ensures Follows(FolderStep(reader.data, destination, t, old(reader.position), size, relative),
                    t.(pos := reader.position, progress := Now(disk, state)), r, disk, state)
  {
    hide Recorded, EnsureDirectory;
    r := EnsureDirectoryAt(disk, state, t0, destination, relative);
    if r.Err? { return; }
    r := SkipTarPayload(reader, state, size);
    if r.Err? { return; }
    CountedRecorded(t0, destination, Now(disk, state), state.bytes);
    state.entries := state.entries + 1;
  }

  /** Counters are no part of the record. */
  lemma CountedRecorded(t0: Tree, dest: Path, s: Progress, bytes: nat)
    requires Recorded(t0, dest, s)
    ensures forall entries: nat :: Recorded(t0, dest, s.(bytes := bytes, entries := entries))
  {
  }

  /** Reads a tar stream into a destination. Whatever way the reader splits its reads, the outcome is that of
      the bytes alone, unless the flag, the disk or the reader stops it; in every case the record is kept. */
  method ExtractTar(reader: Reader, disk: Disk, state: Extraction, ghost t0: Tree, destination: Path, limit: nat)
    returns (r: Result<(), ArchiveError>)
    requires reader.position == 0 && reader.disk == disk && Recorded(t0, destination, Now(disk, state))
    modifies reader`position, disk, state, state.cancelled
    ensures Recorded(t0, destination, Now(disk, state))
    ensures r.Ok? ==> Extract(reader.data, destination, limit, Begin(old(Now(disk, state)))) == Ok(Now(disk, state))
    ensures r.Err? ==>
              || Outside(disk, state, r.error)
              || Extract(reader.data, destination, limit, Begin(old(Now(disk, state)))) == Err(r.error)
  {
    hide Recorded, RecordStep, FileStep, FolderStep, ReadHeader, EndOfStream, CountStream, SafeRelativePath,
      HeaderPath, UntilNul, ParseFrom, Padding, Extract, AllZero, Follows;
    var pendingLongName: Option<seq<Byte>> := None;
    var pendingPaxPath: Option<seq<Byte>> := None;
    var records, streamBytes := 0, 0;
    ghost var start := Begin(Now(disk, state));
    ghost var goal := Extract(reader.data, destination, limit, start);
    while true
      invariant reader.Valid() && Recorded(t0, destination, Now(disk, state))
      invariant goal == Extract(reader.data, destination, limit,
                                TarState(reader.position, Now(disk, state), pendingLongName, pendingPaxPath, records,
                                         streamBytes))
      decreases |reader.data| - reader.position
    {
      ghost var t := TarState(reader.position, Now(disk, state), pendingLongName, pendingPaxPath, records, streamBytes);
      ExtractUnfolds(reader.data, destination, limit, t);
      var check := state.CheckCancelled();
      if check.Err? { return check; }
      var block := reader.ReadExactOrInvalid(BLOCK);
      RecordStepIs(reader.data, destination, limit, t);
      if block.Err? { return Err(block.error); }
      var header: Header := block.value;
      if AllZero(header) {
        r := FinishTarStream(reader, state);
        return;
      }
      var fields := ReadHeader(header);
      if fields.Err? { return Err(fields.error); }
      var (size, flag) := fields.value;
      records := records + 1;
      if records > MAX_ENTRIES { return Err(LimitExceeded); }
      var counted := CountStream(streamBytes, size, limit);
      if counted.None? { return Err(LimitExceeded); }
      streamBytes := counted.value;
      ghost var u := t.(records := records, streamBytes := streamBytes);
      ghost var p := reader.position;
      if IsMetadata(flag) {
        if size > MAX_METADATA_BYTES { return Err(LimitExceeded); }
        var payload := ReadTarPayload(reader, state, size);
        if payload.Err? { return Err(payload.error); }
        if flag == FLAG_LONG_NAME {
          pendingLongName := Some(UntilNul(payload.value));
        } else if flag == FLAG_PAX {
          var path := ParsePaxPath(payload.value);
          if path.Err? { return Err(UnsafeEntry); }
          pendingPaxPath := path.value;
        }
        continue;
      }
      var rawName: seq<Byte>;
      if pendingPaxPath.Some? {
        rawName, pendingPaxPath := pendingPaxPath.value, None;
      } else if pendingLongName.Some? {
        rawName, pendingLongName := pendingLongName.value, None;
      } else {
        var path := HeaderPath(header);
        if path.Err? { return Err(path.error); }
        rawName := path.value;
      }
      u := u.(longName := pendingLongName, paxPath := pendingPaxPath);
      var relative := SafeRelativePath(rawName);
      if relative.Err? { return Err(relative.error); }
      SafePathStaysInside(rawName);
      if size > MAX_ENTRY_BYTES { return Err(LimitExceeded); }
      if flag == FLAG_OLD_FILE || flag == FLAG_FILE {
        r := ExtractFile(reader, disk, state, t0, destination, limit, size, relative.value, u);
        FollowsMeans(FileStep(reader.data, destination, limit, u, p, size, relative.value),
                     u.(pos := reader.position, progress := Now(disk, state)), r, disk, state);
      } else if flag == FLAG_FOLDER {
        r := ExtractFolder(reader, disk, state, t0, destination, size, relative.value, u);
        FollowsMeans(FolderStep(reader.data, destination, u, p, size, relative.value),
                     u.(pos := reader.position, progress := Now(disk, state)), r, disk, state);
      } else {
        return Err(UnsafeEntry);
      }
      if r.Err? { return; }
    }
  }

  lemma ExtractUnfolds(data: seq<Byte>, dest: Path, limit: nat, t: TarState)
    requires t.pos <= |data|
    ensures var step := RecordStep(data, dest, limit, t);
      Extract(data, dest, limit, t) == if step.Stop? then step.result else Extract(data, dest, limit, step.next)
  {
  }

  lemma RecordStepIs(data: seq<Byte>, dest: Path, limit: nat, t: TarState)
    requires t.pos <= |data|
    ensures var step := RecordStep(data, dest, limit, t);
      if |data| - t.pos < BLOCK then step == Stop(Err(InvalidData))
      else
        var p := t.pos + BLOCK;
        var h: Header := data[t.pos..p];
        if AllZero(h) then
          step == Stop(if EndOfStream(data[p..]).Some? then Err(EndOfStream(data[p..]).value) else Ok(t.progress))
        else step == HeaderStep(data, dest, limit, t, h, p)
  {
  }
}

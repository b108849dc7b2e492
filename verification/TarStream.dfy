/** What reading a tar stream does, record by record, as a function of the bytes of the stream alone. */
module TarStream {
  import opened Basics
  import opened Paths
  import opened Numerals
  import opened TarHeader
  import opened PaxRecords
  import opened ArchivePaths
  import opened ExtractionTree

  const BLOCK: nat := 512
  const MAX_ARCHIVE_BYTES: nat := 1024 * 1024 * 1024
  const MAX_ENTRY_BYTES: nat := 512 * 1024 * 1024
  const MAX_EXTRACTED_BYTES: nat := 2 * 1024 * 1024 * 1024
  const MAX_ENTRIES: nat := 10_000
  const MAX_METADATA_BYTES: nat := 1024 * 1024
  const MAX_COMPRESSION_RATIO: nat := 1_000
  const RATIO_ALLOWANCE: nat := 64 * 1024 * 1024
  const STREAM_ALLOWANCE: nat := 16 * 1024 * 1024

  const FLAG_LONG_NAME: Byte := 76  // 'L'
  const FLAG_PAX: Byte := 120       // 'x'
  const FLAG_GLOBAL: Byte := 103    // 'g'
  const FLAG_FILE: Byte := 48       // '0'
  const FLAG_OLD_FILE: Byte := 0
  const FLAG_FOLDER: Byte := 53     // '5'

  function SatAdd(a: nat, b: nat): nat { if a + b > U64_MAX then U64_MAX else a + b }

  function SatMul(a: nat, b: nat): nat { if a * b > U64_MAX then U64_MAX else a * b }

  function CompressedOutputLimit(archiveSize: nat): nat {
    var scaled := SatAdd(SatMul(archiveSize, MAX_COMPRESSION_RATIO), RATIO_ALLOWANCE);
    if MAX_EXTRACTED_BYTES < scaled then MAX_EXTRACTED_BYTES else scaled
  }

  predicate AllZero(s: seq<Byte>) { forall i | 0 <= i < |s| :: s[i] == 0 }

  function UntilNul(s: seq<Byte>): (r: seq<Byte>)
    ensures |r| <= |s| && NUL !in r
  {
    if s == [] || s[0] == NUL then [] else [s[0]] + UntilNul(s[1..])
  }

  /** The name of an entry from the name and prefix fields of its header. */
  function HeaderPath(h: Header): Result<seq<Byte>, ArchiveError> {
    var name, prefix := UntilNul(h[0..100]), UntilNul(h[345..500]);
    var bytes := (if prefix == [] then [] else prefix + [SLASH]) + name;
    if bytes == [] then Err(UnsafeEntry) else Ok(bytes)
  }

  function PaddedSize(size: nat): nat { SatAdd(size, 511) / 512 * 512 }

  function Padding(size: nat): (n: nat)
    ensures n < 512
  {
    (512 - size % 512) % 512
  }

  datatype TarState = TarState(
    pos: nat,
    progress: Progress,
    longName: Option<seq<Byte>>,
    paxPath: Option<seq<Byte>>,
    records: nat,
    streamBytes: nat)

  datatype TarStep = Continue(next: TarState) | Stop(result: Result<Progress, ArchiveError>)

  /** What follows the first zero block: a second one, then at most 1 MiB of zeros. */
  function EndOfStream(rest: seq<Byte>): Option<ArchiveError> {
    if |rest| < BLOCK then Some(InvalidData)
    else if !AllZero(rest[..BLOCK]) then Some(InvalidData)
    else if |rest| - BLOCK > MAX_METADATA_BYTES || !AllZero(rest[BLOCK..]) then Some(InvalidData)
    else None
  }

  /** The size and the type flag of a header, or why it is refused. */
  function ReadHeader(h: Header): Result<(nat, Byte), ArchiveError> {
    var expected := ParseTarNumber(h[148..156]);
    if expected.None? then Err(UnsafeEntry)
    else if expected.value != Checksum(h) then Err(InvalidData)
    else
      var size := ParseTarNumber(h[124..136]);
      if size.None? then Err(UnsafeEntry) else Ok((size.value, h[156]))
  }

  /** The number of stream bytes after one more record, or that it goes beyond the limit. */
  function CountStream(streamBytes: nat, size: nat, limit: nat): Option<nat> {
    var total := streamBytes + SatAdd(512, PaddedSize(size));
    if total > U64_MAX || total > SatAdd(limit, STREAM_ALLOWANCE) then None else Some(total)
  }

  predicate IsMetadata(flag: Byte) { flag == FLAG_LONG_NAME || flag == FLAG_PAX || flag == FLAG_GLOBAL }

  /** A long name, a pax header or a global pax header whose payload starts at p. */
  function MetadataStep(data: seq<Byte>, t: TarState, p: nat, size: nat, flag: Byte): TarStep
    requires p <= |data|
  {
    if size > MAX_METADATA_BYTES then Stop(Err(LimitExceeded))
    else if |data| - p < size + Padding(size) then Stop(Err(InvalidData))
    else
      var payload := data[p..p + size];
      var u := t.(pos := p + size + Padding(size));
      if flag == FLAG_LONG_NAME then Continue(u.(longName := Some(UntilNul(payload))))
      else if flag == FLAG_PAX then
        var path := ParseFrom(payload, 0, None);
        if path.Err? then Stop(Err(UnsafeEntry)) else Continue(u.(paxPath := path.value))
      else Continue(u)
  }

  /** The raw name of an entry, and the names still pending after it. A pax path goes before a long name. */
  function TakeName(t: TarState, h: Header): (Result<seq<Byte>, ArchiveError>, TarState) {
    if t.paxPath.Some? then (Ok(t.paxPath.value), t.(paxPath := None))
    else if t.longName.Some? then (Ok(t.longName.value), t.(longName := None))
    else (HeaderPath(h), t)
  }

  function AddBytes(bytes: nat, size: nat, limit: nat): Option<nat> {
    if bytes + size > U64_MAX || bytes + size > limit then None else Some(bytes + size)
  }

  /** A regular file whose content starts at p. */
  function FileStep(data: seq<Byte>, dest: Path, limit: nat, t: TarState, p: nat, size: nat, relative: Path): TarStep
    requires p <= |data| && relative != []
  {
    var bytes := AddBytes(t.progress.bytes, size, limit);
    if bytes.None? then Stop(Err(LimitExceeded))
    else
      var output := dest + relative;
      var s := EnsureDirectory(t.progress.(bytes := bytes.value), dest, relative[..|relative| - 1]);
      if s.Err? then Stop(Err(s.error))
      else if output in s.value.tree then Stop(Err(AlreadyExists))
      else if |data| - p < size then Stop(Err(Truncated))
      else if |data| - p < size + Padding(size) then Stop(Err(InvalidData))
      else
        var done := WithPath(s.value, output, Regular(data[p..p + size]));
        Continue(t.(pos := p + size + Padding(size), progress := done.(entries := done.entries + 1)))
  }

  function FolderStep(data: seq<Byte>, dest: Path, t: TarState, p: nat, size: nat, relative: Path): TarStep
    requires p <= |data|
  {
    var s := EnsureDirectory(t.progress, dest, relative);
    if s.Err? then Stop(Err(s.error))
    else if |data| - p < size then Stop(Err(Truncated))
    else if |data| - p < size + Padding(size) then Stop(Err(InvalidData))
    else Continue(t.(pos := p + size + Padding(size), progress := s.value.(entries := s.value.entries + 1)))
  }

  function EntryStep(data: seq<Byte>, dest: Path, limit: nat, t: TarState, h: Header, p: nat, size: nat,
          flag: Byte): TarStep
    requires p <= |data|
  {
    var (rawName, u) := TakeName(t, h);
    if rawName.Err? then Stop(Err(rawName.error))
    else
      var relative := SafeRelativePath(rawName.value);
      SafePathStaysInside(rawName.value);
      if relative.Err? then Stop(Err(relative.error))
      else if size > MAX_ENTRY_BYTES then Stop(Err(LimitExceeded))
      else if flag == FLAG_OLD_FILE || flag == FLAG_FILE then FileStep(data, dest, limit, u, p, size, relative.value)
      else if flag == FLAG_FOLDER then FolderStep(data, dest, u, p, size, relative.value)
      else Stop(Err(UnsafeEntry))
  }

  /** A record whose header h ends at p. */
  function HeaderStep(data: seq<Byte>, dest: Path, limit: nat, t: TarState, h: Header, p: nat): (r: TarStep)
    requires p <= |data|
    ensures r.Continue? ==> p <= r.next.pos <= |data|
  {
    var fields := ReadHeader(h);
    if fields.Err? then Stop(Err(fields.error))
    else
      var (size, flag) := fields.value;
      if t.records + 1 > MAX_ENTRIES then Stop(Err(LimitExceeded))
      else
        var streamBytes := CountStream(t.streamBytes, size, limit);
        if streamBytes.None? then Stop(Err(LimitExceeded))
        else
          var u := t.(records := t.records + 1, streamBytes := streamBytes.value);
          if IsMetadata(flag) then MetadataStep(data, u, p, size, flag)
          else EntryStep(data, dest, limit, u, h, p, size, flag)
  }

  /** One round of the extraction loop: a header, and what belongs to it. */
  function RecordStep(data: seq<Byte>, dest: Path, limit: nat, t: TarState): (r: TarStep)
    requires t.pos <= |data|
    ensures r.Continue? ==> t.pos + BLOCK <= r.next.pos <= |data|
  {
    if |data| - t.pos < BLOCK then Stop(Err(InvalidData))
    else
      var p := t.pos + BLOCK;
      var h: Header := data[t.pos..p];
      if AllZero(h) then
        var end := EndOfStream(data[p..]);
        Stop(if end.Some? then Err(end.value) else Ok(t.progress))
      else HeaderStep(data, dest, limit, t, h, p)
  }

  function Extract(data: seq<Byte>, dest: Path, limit: nat, t: TarState): Result<Progress, ArchiveError>
    requires t.pos <= |data|
    decreases |data| - t.pos
  {
    match RecordStep(data, dest, limit, t)
    case Stop(result) => result
    case Continue(next) => Extract(data, dest, limit, next)
  }

  /** The state before the first record, in a destination just created. */
  function Begin(s: Progress): TarState { TarState(0, s, None, None, 0, 0) }

  // ---- Budgets

  /** The sum of the sizes of the files in the record. */
  function CreatedBytes(t: Tree, created: seq<Path>): nat {
    if created == [] then 0
    else
      var p := created[|created| - 1];
      CreatedBytes(t, created[..|created| - 1]) + if p in t && t[p].Regular? then |t[p].content| else 0
  }

  /** The stream has been consumed as far as it was counted; the limits hold; the files created so far have
      the sizes that were counted. */
  predicate WithinBudget(t: TarState, limit: nat) {
    && t.pos == t.streamBytes <= SatAdd(limit, STREAM_ALLOWANCE)
    && t.progress.bytes == CreatedBytes(t.progress.tree, t.progress.created) <= limit
    && t.progress.entries <= t.records <= MAX_ENTRIES
    && (forall p | p in t.progress.created :: p in t.progress.tree)
  }

  lemma PaddingAgrees(size: nat)
    requires size + 511 <= U64_MAX
    ensures PaddedSize(size) == size + Padding(size)
  {
    var q, r := size / 512, size % 512;
    assert size == 512 * q + r;
    assert size + 511 == 512 * q + (r + 511);
    if r == 0 {
      assert (size + 511) / 512 == q;
    } else {
      assert size + 511 == 512 * (q + 1) + (r - 1);
      assert (size + 511) / 512 == q + 1;
    }
  }

  lemma {:induction false} CreatedBytesAgree(t: Tree, u: Tree, created: seq<Path>)
    requires forall p | p in created :: p in t && p in u && t[p] == u[p]
    ensures CreatedBytes(t, created) == CreatedBytes(u, created)
  {
    if created != [] {
      assert created[|created| - 1] in created;
      CreatedBytesAgree(t, u, created[..|created| - 1]);
    }
  }

  lemma CreateBytes(s: Progress, p: Path, n: Node)
    requires p !in s.tree && forall q | q in s.created :: q in s.tree
    ensures var u := WithPath(s, p, n);
      && CreatedBytes(u.tree, u.created) == CreatedBytes(s.tree, s.created) + (if n.Regular? then |n.content| else 0)
      && (forall q | q in u.created :: q in u.tree)
  {
    var u := WithPath(s, p, n);
    assert u.created[..|s.created|] == s.created;
    CreatedBytesAgree(s.tree, u.tree, s.created);
  }

  lemma {:induction false} EnsureDirectoryBytes(s: Progress, base: Path, names: Path)
    requires forall p | p in s.created :: p in s.tree
    ensures var r := EnsureDirectory(s, base, names);
      r.Ok? ==>
        && CreatedBytes(r.value.tree, r.value.created) == CreatedBytes(s.tree, s.created)
        && (forall p | p in r.value.created :: p in r.value.tree)
        && r.value.entries == s.entries && r.value.bytes == s.bytes
    decreases |names|
  {
    if names != [] {
      var current := base + [names[0]];
      if current !in s.tree {
        CreateBytes(s, current, Folder);
        EnsureDirectoryBytes(WithPath(s, current, Folder), current, names[1..]);
      } else if s.tree[current] == Folder {
        EnsureDirectoryBytes(s, current, names[1..]);
      }
    }
  }

  /** What an entry adds to the counters. */
  lemma EntryStepBudget(data: seq<Byte>, dest: Path, limit: nat, t: TarState, h: Header, p: nat, size: nat, flag: Byte)
    requires p <= |data| && WithinBudget(t.(pos := t.streamBytes), limit) && t.progress.entries < t.records
    ensures var r := EntryStep(data, dest, limit, t, h, p, size, flag);
      r.Continue? ==>
        && size <= MAX_ENTRY_BYTES && r.next.pos == p + size + Padding(size)
        && r.next.streamBytes == t.streamBytes && WithinBudget(r.next.(pos := t.streamBytes), limit)
  {
    hide SafeRelativePath, HeaderPath, CreatedBytes, EnsureDirectory;
    var (rawName, u) := TakeName(t, h);
    if rawName.Ok? {
      var relative := SafeRelativePath(rawName.value);
      SafePathStaysInside(rawName.value);
      if relative.Ok? {
        var path := relative.value;
        EnsureDirectoryBytes(u.progress, dest, path);
        var bytes := AddBytes(u.progress.bytes, size, limit);
        if bytes.Some? {
          var s0 := u.progress.(bytes := bytes.value);
          EnsureDirectoryBytes(s0, dest, path[..|path| - 1]);
          var s := EnsureDirectory(s0, dest, path[..|path| - 1]);
          if s.Ok? && dest + path !in s.value.tree && p + size <= |data| {
            CreateBytes(s.value, dest + path, Regular(data[p..p + size]));
          }
        }
      }
    }
  }

  /** Every record keeps the budget exact. */
  lemma RecordStepBudget(data: seq<Byte>, dest: Path, limit: nat, t: TarState)
    requires t.pos <= |data| && WithinBudget(t, limit)
    ensures var r := RecordStep(data, dest, limit, t); r.Continue? ==> WithinBudget(r.next, limit)
  {
    hide EntryStep, ParseTarNumber, Checksum, CreatedBytes, ParseFrom;
    if |data| - t.pos >= BLOCK {
      var p := t.pos + BLOCK;
      var h: Header := data[t.pos..p];
      var fields := ReadHeader(h);
      if fields.Ok? {
        var (size, flag) := fields.value;
        var streamBytes := CountStream(t.streamBytes, size, limit);
        if streamBytes.Some? && t.records + 1 <= MAX_ENTRIES {
          var u := t.(records := t.records + 1, streamBytes := streamBytes.value);
          if IsMetadata(flag) {
            if size <= MAX_METADATA_BYTES { PaddingAgrees(size); }
          } else {
            EntryStepBudget(data, dest, limit, u, h, p, size, flag);
            if size <= MAX_ENTRY_BYTES { PaddingAgrees(size); }
          }
        }
      }
    }
  }

  /** A finished extraction wrote exactly the bytes it reports, and no more than the limit. */
  lemma {:induction false} ExtractWithinBudget(data: seq<Byte>, dest: Path, limit: nat, t: TarState)
    requires t.pos <= |data| && WithinBudget(t, limit)
    ensures var r := Extract(data, dest, limit, t);
      r.Ok? ==>
        && r.value.bytes == CreatedBytes(r.value.tree, r.value.created) <= limit
        && r.value.entries <= MAX_ENTRIES
    decreases |data| - t.pos
  {
    hide CreatedBytes, RecordStep, WithinBudget;
    assert t.progress.bytes == CreatedBytes(t.progress.tree, t.progress.created) <= limit && t.progress.entries <= MAX_ENTRIES by {
      BudgetOf(t, limit);
    }
    RecordStepBudget(data, dest, limit, t);
    var r := RecordStep(data, dest, limit, t);
    if r.Continue? {
      ExtractWithinBudget(data, dest, limit, r.next);
    } else {
      StopKeepsProgress(data, dest, limit, t);
    }
  }

  lemma BudgetOf(t: TarState, limit: nat)
    requires WithinBudget(t, limit)
    ensures t.progress.bytes == CreatedBytes(t.progress.tree, t.progress.created) <= limit && t.progress.entries <= MAX_ENTRIES
  {
  }

  /** The loop ends well only at the end of the stream, with what it has. */
  lemma StopKeepsProgress(data: seq<Byte>, dest: Path, limit: nat, t: TarState)
    requires t.pos <= |data|
    ensures var r := RecordStep(data, dest, limit, t); r.Stop? && r.result.Ok? ==> r.result.value == t.progress
  {
    hide SafeRelativePath, EnsureDirectory, ParseFrom, EndOfStream, ReadHeader, HeaderPath, UntilNul;
  }

  // ---- A pending long name can outlive its entry

  /** When a long name and a pax path are both pending, the entry takes the pax path and the long name is left
      for the entry after it, whose own name is then ignored; otherwise no name is left behind. */
  lemma LongNameLeftBehind(t: TarState, h: Header)
    ensures var (name, u) := TakeName(t, h);
      && u.paxPath == None
      && (u.longName.Some? <==> t.longName.Some? && t.paxPath.Some?)
      && (u.longName.Some? ==> forall g: Header :: TakeName(u, g).0 == Ok(t.longName.value))
  {
  }
}

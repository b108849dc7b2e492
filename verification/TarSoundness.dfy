/** What a stream must look like for its extraction to succeed, and what it then means. */
module TarSoundness {
  import opened Basics
  import opened Paths
  import opened Numerals
  import opened TarHeader
  import opened PaxRecords
  import opened ArchivePaths
  import opened ExtractionTree
  import opened TarStream
  import opened TarRoundTrip
  import opened TarContents

  /** A record as it lies in the stream. */
  datatype Raw = Raw(header: Header, payload: seq<Byte>, padding: seq<Byte>)

  function RawBytes(r: Raw): seq<Byte> { r.header + r.payload + r.padding }

  function Flat(rs: seq<Raw>): seq<Byte> {
    if rs == [] then [] else RawBytes(rs[0]) + Flat(rs[1..])
  }

  predicate IsFile(r: Raw) { r.header[156] == 0 || r.header[156] == 48 }

  predicate IsFolder(r: Raw) { r.header[156] == 53 }

  predicate IsEntry(r: Raw) { IsFile(r) || IsFolder(r) }

  predicate IsLongName(r: Raw) { r.header[156] == 76 }

  predicate IsPax(r: Raw) { r.header[156] == 120 }

  predicate IsGlobal(r: Raw) { r.header[156] == 103 }

  /** A checksum that agrees, a payload of the size that the header tells, padding to a full block, and one of the
      six types: a file (old or new), a folder, a long name, a pax header or a global pax header. */
  predicate RawOk(r: Raw) {
    && ChecksumValid(r.header) && ParseTarNumber(r.header[124..136]) == Some(|r.payload|)
    && (|r.payload| + |r.padding|) % 512 == 0 && |r.padding| < 512
    && (IsEntry(r) || IsLongName(r) || IsPax(r) || IsGlobal(r))
    && |r.payload| <= (if IsEntry(r) then 512 * 1024 * 1024 else 1024 * 1024)
    && (IsPax(r) ==> ParseFrom(r.payload, 0, None).Ok?)
  }

  // ---- The names of the entries, told from the records before each

  /** The path of the pax header since the last entry; `first` is what was pending before. */
  function PaxBefore(rs: seq<Raw>, i: nat, first: Option<seq<Byte>>): Option<seq<Byte>>
    requires i <= |rs| && forall r | r in rs :: RawOk(r)
  {
    if i == 0 then first
    else if IsEntry(rs[i - 1]) then None
    else if IsPax(rs[i - 1]) then
      assert RawOk(rs[i - 1]);
      ParseFrom(rs[i - 1].payload, 0, None).value
    else PaxBefore(rs, i - 1, first)
  }

  /** The long name that no entry has taken yet. */
  function LongBefore(rs: seq<Raw>, i: nat, pax: Option<seq<Byte>>, first: Option<seq<Byte>>): Option<seq<Byte>>
    requires i <= |rs| && forall r | r in rs :: RawOk(r)
  {
    if i == 0 then first
    else if IsLongName(rs[i - 1]) then Some(UntilNul(rs[i - 1].payload))
    else if IsEntry(rs[i - 1]) && PaxBefore(rs, i - 1, pax).None? then None
    else LongBefore(rs, i - 1, pax, first)
  }

  function NameOf(rs: seq<Raw>, i: nat, pax: Option<seq<Byte>>, long: Option<seq<Byte>>): Result<seq<Byte>, ArchiveError>
    requires i < |rs| && forall r | r in rs :: RawOk(r)
  {
    var p, l := PaxBefore(rs, i, pax), LongBefore(rs, i, pax, long);
    if p.Some? then Ok(p.value) else if l.Some? then Ok(l.value) else HeaderPath(rs[i].header)
  }

  function PathOf(rs: seq<Raw>, i: nat, pax: Option<seq<Byte>>, long: Option<seq<Byte>>): Result<Path, ArchiveError>
    requires i < |rs| && forall r | r in rs :: RawOk(r)
  {
    var name := NameOf(rs, i, pax, long);
    if name.Err? then Err(name.error) else SafeRelativePath(name.value)
  }

  const NO_FIELDS := Fields([], [], [], [])

  /** An entry of which only the path and the content matter. */
  function Plain(path: Path, content: Option<seq<Byte>>): Entry {
    Entry(path, false, false, content, InHeader([], []), NO_FIELDS)
  }

  /** Every entry has a safe path. */
  predicate AllNamed(rs: seq<Raw>, n: nat, pax: Option<seq<Byte>>, long: Option<seq<Byte>>)
    requires n <= |rs| && forall r | r in rs :: RawOk(r)
  {
    forall i | 0 <= i < n && IsEntry(rs[i]) :: PathOf(rs, i, pax, long).Ok?
  }

  /** What one record adds: its entry, if it is one. */
  function Adds(r: Raw, path: Result<Path, ArchiveError>): seq<Entry> {
    if !IsEntry(r) || path.Err? then [] else [Plain(path.value, if IsFile(r) then Some(r.payload) else None)]
  }

  /** The entries among the first n records. */
  function Meaning(rs: seq<Raw>, n: nat, pax: Option<seq<Byte>>, long: Option<seq<Byte>>): seq<Entry>
    requires n <= |rs| && forall r | r in rs :: RawOk(r)
  {
    if n == 0 then [] else Meaning(rs, n - 1, pax, long) + Adds(rs[n - 1], PathOf(rs, n - 1, pax, long))
  }

  lemma MeaningOfNone(rs: seq<Raw>, pax: Option<seq<Byte>>, long: Option<seq<Byte>>)
    requires forall r | r in rs :: RawOk(r)
    ensures Meaning(rs, 0, pax, long) == []
  {
  }

  lemma MeaningNext(rs: seq<Raw>, n: nat, pax: Option<seq<Byte>>, long: Option<seq<Byte>>)
    requires 0 < n <= |rs| && forall r | r in rs :: RawOk(r)
    ensures Meaning(rs, n, pax, long) == Meaning(rs, n - 1, pax, long) + Adds(rs[n - 1], PathOf(rs, n - 1, pax, long))
  {
    hide RawOk, PathOf, Adds;
  }

  lemma {:induction false} MeaningInside(rs: seq<Raw>, n: nat, pax: Option<seq<Byte>>, long: Option<seq<Byte>>)
    requires n <= |rs| && forall r | r in rs :: RawOk(r)
    ensures forall e | e in Meaning(rs, n, pax, long) :: Inside(e.path) && e.path != []
  {
    hide *;
    if n == 0 {
      MeaningOfNone(rs, pax, long);
    } else {
      MeaningNext(rs, n, pax, long);
      MeaningInside(rs, n - 1, pax, long);
      AddsInside(rs, n - 1, pax, long);
    }
  }

  lemma AddsInside(rs: seq<Raw>, i: nat, pax: Option<seq<Byte>>, long: Option<seq<Byte>>)
    requires i < |rs| && forall r | r in rs :: RawOk(r)
    ensures forall e | e in Adds(rs[i], PathOf(rs, i, pax, long)) :: Inside(e.path) && e.path != []
  {
    var name := NameOf(rs, i, pax, long);
    if name.Ok? { SafePathStaysInside(name.value); }
  }

  // ---- One step

  /** The record that a step has read. */
  function RawAt(data: seq<Byte>, pos: nat, size: nat): Raw
    requires pos + BLOCK + size + Padding(size) <= |data|
  {
    var p := pos + BLOCK;
    Raw(data[pos..p], data[p..p + size], data[p + size..p + size + Padding(size)])
  }

  lemma RawAtBytes(data: seq<Byte>, pos: nat, size: nat)
    requires pos + BLOCK + size + Padding(size) <= |data|
    ensures RawBytes(RawAt(data, pos, size)) == data[pos..pos + BLOCK + size + Padding(size)]
  {
  }

  /** What a step that goes on has found. */
  predicate Read(data: seq<Byte>, dest: Path, t: TarState, u: TarState, size: nat)
    requires t.pos <= |data|
  {
    && t.pos + BLOCK + size + Padding(size) == u.pos <= |data|
    && var r := RawAt(data, t.pos, size);
       RawOk(r) && ReadAs(dest, t, u, r)
  }

  predicate ReadAs(dest: Path, t: TarState, u: TarState, r: Raw)
    requires RawOk(r)
  {
    if IsEntry(r) then
      var (name, v) := TakeName(t, r.header);
      && name.Ok? && SafeRelativePath(name.value).Ok? && u.paxPath == v.paxPath && u.longName == v.longName
      && SafeRelativePath(name.value).value != []
      && Placed(t.progress, dest, Plain(SafeRelativePath(name.value).value, if IsFile(r) then Some(r.payload) else None))
         == Ok(u.progress)
    else
      && u.progress == t.progress
      && u.paxPath == (if IsPax(r) then ParseFrom(r.payload, 0, None).value else t.paxPath)
      && u.longName == if IsLongName(r) then Some(UntilNul(r.payload)) else t.longName
  }

  lemma PaddingFills(size: nat)
    ensures (size + Padding(size)) % 512 == 0
  {
  }

  lemma EntryIsRead(data: seq<Byte>, dest: Path, limit: nat, t: TarState, h: Header, p: nat, size: nat, flag: Byte)
    requires p <= |data|
    ensures var step := EntryStep(data, dest, limit, t, h, p, size, flag);
      var (name, v) := TakeName(t, h);
      step.Continue? ==>
        && name.Ok? && SafeRelativePath(name.value).Ok? && SafeRelativePath(name.value).value != []
        && (flag == 0 || flag == 48 || flag == 53) && size <= MAX_ENTRY_BYTES
        && step.next.pos == p + size + Padding(size) <= |data|
        && step.next.paxPath == v.paxPath && step.next.longName == v.longName
        && Placed(t.progress, dest, Plain(SafeRelativePath(name.value).value, if flag == 53 then None else Some(data[p..p + size])))
           == Ok(step.next.progress)
  {
    hide SafeRelativePath, HeaderPath, EnsureDirectory, Padding;
    var (name, v) := TakeName(t, h);
    if name.Ok? { SafePathStaysInside(name.value); }
  }

  lemma StepIsRead(data: seq<Byte>, dest: Path, limit: nat, t: TarState) returns (size: nat)
    requires t.pos <= |data| && RecordStep(data, dest, limit, t).Continue?
    ensures Read(data, dest, t, RecordStep(data, dest, limit, t).next, size)
  {
    hide EntryStep, ParseTarNumber, Checksum, ParseFrom, UntilNul, SafeRelativePath, Placed, HeaderPath;
    var p := t.pos + BLOCK;
    var h: Header := data[t.pos..p];
    var fields := ReadHeader(h).value;
    size := fields.0;
    var flag := fields.1;
    PaddingFills(size);
    var u := t.(records := t.records + 1, streamBytes := CountStream(t.streamBytes, size, limit).value);
    if !IsMetadata(flag) { EntryIsRead(data, dest, limit, u, h, p, size, flag); }
    hide Padding;
  }

  // ---- The whole stream

  /** What is pending after a record. */
  function PaxAfter(r: Raw, pax: Option<seq<Byte>>): Option<seq<Byte>>
    requires RawOk(r)
  {
    if IsEntry(r) then None else if IsPax(r) then ParseFrom(r.payload, 0, None).value else pax
  }

  function LongAfter(r: Raw, pax: Option<seq<Byte>>, long: Option<seq<Byte>>): Option<seq<Byte>>
    requires RawOk(r)
  {
    if IsLongName(r) then Some(UntilNul(r.payload)) else if IsEntry(r) && pax.None? then None else long
  }

  lemma {:induction false} PendingShift(r: Raw, rest: seq<Raw>, i: nat, pax: Option<seq<Byte>>, long: Option<seq<Byte>>)
    requires RawOk(r) && (forall q | q in rest :: RawOk(q)) && i <= |rest|
    ensures var rs, p := [r] + rest, PaxAfter(r, pax);
      && PaxBefore(rs, i + 1, pax) == PaxBefore(rest, i, p)
      && LongBefore(rs, i + 1, pax, long) == LongBefore(rest, i, p, LongAfter(r, pax, long))
  {
    hide RawOk, ParseFrom, UntilNul;
    var rs := [r] + rest;
    if i == 0 {
      assert rs[0] == r;
      assert PaxBefore(rs, 0, pax) == pax && LongBefore(rs, 0, pax, long) == long;
    } else {
      assert rs[i] == rest[i - 1];
      PendingShift(r, rest, i - 1, pax, long);
    }
  }

  lemma {:induction false} MeaningShift(r: Raw, rest: seq<Raw>, n: nat, pax: Option<seq<Byte>>, long: Option<seq<Byte>>)
    requires RawOk(r) && (forall q | q in rest :: RawOk(q)) && n <= |rest|
    ensures Meaning([r] + rest, n + 1, pax, long) ==
            Meaning([r], 1, pax, long) + Meaning(rest, n, PaxAfter(r, pax), LongAfter(r, pax, long))
  {
    hide *;
    var rs := [r] + rest;
    MeaningNext(rs, n + 1, pax, long);
    if n == 0 {
      FirstPath(r, rest, pax, long);
      MeaningNext([r], 1, pax, long);
      MeaningOfNone(rs, pax, long);
      MeaningOfNone([r], pax, long);
      MeaningOfNone(rest, PaxAfter(r, pax), LongAfter(r, pax, long));
    } else {
      MeaningNext(rest, n, PaxAfter(r, pax), LongAfter(r, pax, long));
      MeaningShift(r, rest, n - 1, pax, long);
      LaterPath(r, rest, n - 1, pax, long);
      assert rs[n] == rest[n - 1];
    }
  }

  lemma NamedShift(r: Raw, rest: seq<Raw>, n: nat, pax: Option<seq<Byte>>, long: Option<seq<Byte>>)
    requires RawOk(r) && (forall q | q in rest :: RawOk(q)) && n <= |rest|
    requires AllNamed(rest, n, PaxAfter(r, pax), LongAfter(r, pax, long)) && AllNamed([r], 1, pax, long)
    ensures AllNamed([r] + rest, n + 1, pax, long)
  {
    hide RawOk, PathOf, PaxAfter, LongAfter;
    var rs := [r] + rest;
    FirstPath(r, rest, pax, long);
    assert [r][0] == r;
    forall i | 0 <= i < n + 1 && IsEntry(rs[i]) ensures PathOf(rs, i, pax, long).Ok? {
      if i > 0 { LaterPath(r, rest, i - 1, pax, long); }
    }
  }

  lemma FirstPath(r: Raw, rest: seq<Raw>, pax: Option<seq<Byte>>, long: Option<seq<Byte>>)
    requires RawOk(r) && (forall q | q in rest :: RawOk(q))
    ensures PathOf([r] + rest, 0, pax, long) == PathOf([r], 0, pax, long)
  {
    hide RawOk, SafeRelativePath, HeaderPath;
  }

  lemma LaterPath(r: Raw, rest: seq<Raw>, i: nat, pax: Option<seq<Byte>>, long: Option<seq<Byte>>)
    requires RawOk(r) && (forall q | q in rest :: RawOk(q)) && i < |rest|
    ensures PathOf([r] + rest, i + 1, pax, long) == PathOf(rest, i, PaxAfter(r, pax), LongAfter(r, pax, long))
  {
    hide RawOk, PaxBefore, LongBefore, PaxAfter, LongAfter, SafeRelativePath, HeaderPath;
    PendingShift(r, rest, i, pax, long);
    assert ([r] + rest)[i + 1] == rest[i];
  }

  lemma FirstMeaning(dest: Path, t: TarState, u: TarState, r: Raw)
    requires RawOk(r) && ReadAs(dest, t, u, r)
    ensures AllNamed([r], 1, t.paxPath, t.longName)
    ensures u.paxPath == PaxAfter(r, t.paxPath) && u.longName == LongAfter(r, t.paxPath, t.longName)
    ensures var es := Meaning([r], 1, t.paxPath, t.longName);
      if IsEntry(r) then |es| == 1 && es[0].path != [] && Placed(t.progress, dest, es[0]) == Ok(u.progress)
      else es == [] && u.progress == t.progress
  {
    hide RawOk, SafeRelativePath, HeaderPath, Placed, ParseFrom, UntilNul;
    assert Meaning([r], 0, t.paxPath, t.longName) == [];
  }

  lemma PlacedFirst(s: Progress, dest: Path, e: Entry, es: seq<Entry>)
    requires e.path != [] && forall f | f in es :: f.path != []
    ensures PlacedAll(s, dest, [e] + es) ==
            if Placed(s, dest, e).Err? then Placed(s, dest, e) else PlacedAll(Placed(s, dest, e).value, dest, es)
  {
    hide Placed;
    assert ([e] + es)[1..] == es;
  }

  /** The end of a stream that is accepted. */
  lemma EndIsZeros(data: seq<Byte>, dest: Path, limit: nat, t: TarState) returns (tail: nat)
    requires t.pos <= |data|
    requires var step := RecordStep(data, dest, limit, t); step.Stop? && step.result.Ok?
    ensures data[t.pos..] == NulBytes(tail) && 1024 <= tail <= 1024 + 1024 * 1024
    ensures RecordStep(data, dest, limit, t).result.value == t.progress
  {
    StopKeepsProgress(data, dest, limit, t);
    StopIsEnd(data, dest, limit, t);
    var p, rest := t.pos + BLOCK, data[t.pos + BLOCK..];
    tail := |data| - t.pos;
    forall i | 0 <= i < tail ensures data[t.pos..][i] == 0 {
      if i < BLOCK {
        assert data[t.pos..p][i] == 0;
      } else if i < 2 * BLOCK {
        assert rest[..BLOCK][i - BLOCK] == 0;
      } else {
        assert rest[BLOCK..][i - 2 * BLOCK] == 0;
      }
    }
  }

  lemma StopIsEnd(data: seq<Byte>, dest: Path, limit: nat, t: TarState)
    requires t.pos <= |data|
    requires var step := RecordStep(data, dest, limit, t); step.Stop? && step.result.Ok?
    ensures t.pos + BLOCK <= |data| && AllZero(data[t.pos..t.pos + BLOCK]) && EndOfStream(data[t.pos + BLOCK..]).None?
  {
    hide SafeRelativePath, EnsureDirectory, ParseFrom, EndOfStream, ReadHeader, HeaderPath, UntilNul, AllZero;
  }

  /** Extraction succeeds only for an archive: records one after the other, each with a checksum that agrees and of a
      type that is known, then at least two blocks of zeros and at most one mebibyte more. And it has placed exactly
      the entries of these records, under the names that the records give them. */
  lemma {:induction false} ExtractedIsArchive(data: seq<Byte>, dest: Path, limit: nat, t: TarState)
    returns (rs: seq<Raw>, tail: nat)
    requires t.pos <= |data| && Extract(data, dest, limit, t).Ok?
    ensures forall r | r in rs :: RawOk(r)
    ensures data[t.pos..] == Flat(rs) + NulBytes(tail) && 1024 <= tail <= 1024 + 1024 * 1024
    ensures AllNamed(rs, |rs|, t.paxPath, t.longName)
    ensures forall e | e in Meaning(rs, |rs|, t.paxPath, t.longName) :: e.path != []
    ensures Extract(data, dest, limit, t) == PlacedAll(t.progress, dest, Meaning(rs, |rs|, t.paxPath, t.longName))
    decreases |data| - t.pos
  {
    hide RecordStep, Extract, ReadAs, RawOk, AllNamed, Placed, PlacedAll, Meaning, RawAt, Padding, PaxAfter, LongAfter,
      Inside;
    var step := RecordStep(data, dest, limit, t);
    ExtractUnfolded(data, dest, limit, t);
    if step.Stop? {
      tail := EndIsZeros(data, dest, limit, t);
      rs := [];
      NoMeaning(t.progress, dest, t.paxPath, t.longName);
      assert Flat(rs) + NulBytes(tail) == NulBytes(tail);
    } else {
      var u := step.next;
      var size := StepIsRead(data, dest, limit, t);
      var r := RawAt(data, t.pos, size);
      var rest;
      rest, tail := ExtractedIsArchive(data, dest, limit, u);
      rs := [r] + rest;
      MeaningInside(rs, |rs|, t.paxPath, t.longName);
      FirstMeaning(dest, t, u, r);
      NamedShift(r, rest, |rest|, t.paxPath, t.longName);
      MeaningShift(r, rest, |rest|, t.paxPath, t.longName);
      var first, more := Meaning([r], 1, t.paxPath, t.longName), Meaning(rest, |rest|, u.paxPath, u.longName);
      if IsEntry(r) {
        assert first == [first[0]];
        PlacedFirst(t.progress, dest, first[0], more);
      } else {
        assert first + more == more;
      }
      RawAtBytes(data, t.pos, size);
      assert data[t.pos..] == data[t.pos..u.pos] + data[u.pos..];
      FlatFirst(r, rest);
      assert RawBytes(r) + Flat(rest) + NulBytes(tail) == RawBytes(r) + (Flat(rest) + NulBytes(tail));
    }
  }

  lemma ExtractUnfolded(data: seq<Byte>, dest: Path, limit: nat, t: TarState)
    requires t.pos <= |data|
    ensures var step := RecordStep(data, dest, limit, t);
      Extract(data, dest, limit, t) == if step.Stop? then step.result else Extract(data, dest, limit, step.next)
  {
  }

  lemma NoMeaning(s: Progress, dest: Path, pax: Option<seq<Byte>>, long: Option<seq<Byte>>)
    ensures AllNamed([], 0, pax, long) && Meaning([], 0, pax, long) == [] && PlacedAll(s, dest, []) == Ok(s)
  {
  }

  lemma FlatFirst(r: Raw, rest: seq<Raw>)
    ensures Flat([r] + rest) == RawBytes(r) + Flat(rest)
  {
    assert ([r] + rest)[1..] == rest;
  }

  // ---- Damaged headers

  /** A header block whose checksum can be read and does not agree ends the extraction. */
  lemma BadChecksumIsRefused(data: seq<Byte>, dest: Path, limit: nat, t: TarState)
    requires t.pos + 512 <= |data|
    requires var h: Header := data[t.pos..t.pos + 512];
      !AllZero(h) && ParseTarNumber(h[148..156]).Some? && !ChecksumValid(h)
    ensures Extract(data, dest, limit, t) == Err(InvalidData)
  {
    hide ParseTarNumber, Checksum;
  }

  /** What is read in front of a record: entries that are in order and within the limits. */
  lemma {:induction false} PrefixExtracts(data: seq<Byte>, dest: Path, limit: nat, t: TarState, es: seq<Entry>,
                                          records: nat, bytes: nat, content: nat) returns (u: TarState)
    requires (forall e | e in es :: EntryOk(e)) && NoPending(t) && t.pos <= |data| && Spells(data, t.pos, EncodeEntries(es))
    requires t.records + RecordsOf(es) + records <= MAX_ENTRIES
    requires t.streamBytes + |EncodeEntries(es)| + bytes <= limit + STREAM_ALLOWANCE <= U64_MAX
    requires t.progress.bytes + ContentOf(es) + content <= limit
    ensures var s := PlacedAll(t.progress, dest, es);
      if s.Err? then Extract(data, dest, limit, t) == Err(s.error)
      else
        && u.pos == t.pos + |EncodeEntries(es)| <= |data| && NoPending(u) && u.progress == s.value
        && Extract(data, dest, limit, t) == Extract(data, dest, limit, u)
        && u.records + records <= MAX_ENTRIES && u.streamBytes + bytes <= limit + STREAM_ALLOWANCE
        && u.progress.bytes + content <= limit
    decreases |es|
  {
    hide Extract, Placed, EntryBytes, Spells;
    u := t;
    if es != [] {
      var e, rest := es[0], es[1..];
      assert e in es && EntryOk(e);
      hide EntryOk;
      SpellsConcat(data, t.pos, EntryBytes(e), EncodeEntries(rest));
      EntryExtracts(data, dest, limit, t, e);
      var s := Placed(t.progress, dest, e);
      if s.Ok? {
        PlacedBytes(t.progress, dest, e);
        NameBytesLength(e);
        u := PrefixExtracts(data, dest, limit, After(t, s.value, e), rest, records, bytes, content);
      }
    }
  }

  /** The header of an entry's own record, or of the record in front that carries its name. */
  function HeaderAt(e: Entry, own: bool): Header
    requires EntryOk(e) && (own || !e.naming.InHeader?)
  {
    if own then OwnHeader(e)
    else match e.naming
      case InLongName(_, longFields) => HeaderOf(LONG_LINK, [], longFields, |NamePayload(e)|, FLAG_LONG_NAME)
      case InPax(stub, _, paxFields) => HeaderOf(stub, [], paxFields, |NamePayload(e)|, FLAG_PAX)
  }

  /** The bytes of the entry in front of that header. */
  function BytesBefore(e: Entry, own: bool): seq<Byte>
    requires EntryOk(e)
  {
    if own then NameBytes(e) else []
  }

  lemma HeadersValidate(e: Entry, own: bool)
    requires EntryOk(e) && (own || !e.naming.InHeader?)
    ensures ChecksumValid(HeaderAt(e, own))
    ensures |EntryBytes(e)| >= |BytesBefore(e, own)| + 512
    ensures EntryBytes(e)[|BytesBefore(e, own)|..|BytesBefore(e, own)| + 512] == HeaderAt(e, own)
  {
    hide Join, Digits, Power, ChecksumValid, Blank, Sealed, PaxRecords.EncodeAll, LastPath;
    NameBytesLength(e);
    WrittenValidates(e, own);
    if !own { assert NameBytes(e)[..512] == HeaderAt(e, own); }
  }

  lemma WrittenValidates(e: Entry, own: bool)
    requires EntryOk(e) && (own || !e.naming.InHeader?)
    ensures ChecksumValid(HeaderAt(e, own))
  {
    hide Join, Digits, Power, ChecksumValid, Blank, Sealed, PaxRecords.EncodeAll, LastPath;
    assert NUL !in LONG_LINK;
    match (own, e.naming) {
      case (true, InHeader(prefix, name)) => HeaderValidates(name, prefix, e.fields, PayloadSize(e), Flag(e));
      case (true, InLongName(stub, _)) => HeaderValidates(stub, [], e.fields, PayloadSize(e), Flag(e));
      case (true, InPax(stub, _, _)) => HeaderValidates(stub, [], e.fields, PayloadSize(e), Flag(e));
      case (false, InLongName(_, longFields)) =>
        HeaderValidates(LONG_LINK, [], longFields, |NamePayload(e)|, FLAG_LONG_NAME);
      case (false, InPax(stub, _, paxFields)) => HeaderValidates(stub, [], paxFields, |NamePayload(e)|, FLAG_PAX);
    }
  }

  lemma HeaderValidates(name: seq<Byte>, prefix: seq<Byte>, fields: Fields, size: nat, flag: Byte)
    requires HeaderFits(name, prefix, fields) && SizeFits(size)
    ensures ChecksumValid(HeaderOf(name, prefix, fields, size, flag))
  {
    hide ChecksumValid;
    SealedValidates(Blank(name, prefix, fields, size, flag));
  }

  /** The record in front of an entry is read. */
  lemma NameIsRead(data: seq<Byte>, dest: Path, limit: nat, t: TarState, e: Entry)
    requires EntryOk(e) && NoPending(t) && t.pos <= |data| && Spells(data, t.pos, NameBytes(e))
    requires t.records + EntryRecords(e) <= MAX_ENTRIES
    requires t.streamBytes + |NameBytes(e)| <= limit + STREAM_ALLOWANCE <= U64_MAX
    ensures Named(t, e).pos == t.pos + |NameBytes(e)| <= |data|
    ensures Extract(data, dest, limit, t) == Extract(data, dest, limit, Named(t, e))
  {
    hide RecordStep, Extract, EntryOk, Spells, NameBytes, NamePayload;
    NameBytesLength(e);
    SpelledIsThere(data, t.pos, NameBytes(e));
    ExtractStep(data, dest, limit, t);
    match e.naming {
      case InHeader(_, _) =>
      case InLongName(_, _) => LongNameStep(data, dest, limit, t, e);
      case InPax(_, _, _) => PaxStep(data, dest, limit, t, e);
    }
  }

  lemma SpelledIsThere(data: seq<Byte>, i: nat, text: seq<Byte>)
    requires Spells(data, i, text)
    ensures i + |text| <= |data|
  {
  }

  /** An archive in which one byte of a header outside its checksum field has been changed is refused, whatever comes
      behind it and whatever the byte is, as long as the header does not become all zeros. */
  lemma ChangedHeaderIsRefused(es: seq<Entry>, e: Entry, own: bool, i: nat, b: Byte, rest: seq<Byte>,
                               dest: Path, limit: nat, s: Progress)
    requires (forall f | f in es :: EntryOk(f)) && EntryOk(e) && (own || !e.naming.InHeader?)
    requires i < 512 && !(148 <= i < 156) && b != HeaderAt(e, own)[i] && !AllZero(HeaderAt(e, own)[i := b])
    requires RecordsOf(es) + EntryRecords(e) <= MAX_ENTRIES && s.bytes + ContentOf(es) <= limit
    requires |EncodeEntries(es)| + |NameBytes(e)| <= limit + STREAM_ALLOWANCE <= U64_MAX
    ensures var data := EncodeEntries(es) + BytesBefore(e, own) + HeaderAt(e, own)[i := b] + rest;
      Extract(data, dest, limit, Begin(s)) ==
      if PlacedAll(s, dest, es).Err? then Err(PlacedAll(s, dest, es).error) else Err(InvalidData)
  {
    hide Extract, PlacedAll, EntryOk, HeaderAt, NameBytes, EncodeEntries, AllZero, ChecksumValid, ParseTarNumber, Checksum;
    EntriesHavePaths(es);
    var h, front, name := HeaderAt(e, own), EncodeEntries(es), BytesBefore(e, own);
    var g: Header := h[i := b];
    HeadersValidate(e, own);
    OneByteChangeIsCaught(h, i, b);
    FieldKept(h, i, b);
    var data := front + name + g + rest;
    assert Spells(data, 0, front) by { assert data[0..|front|] == front; }
    assert Spells(data, |front|, name) by { assert data[|front|..|front| + |name|] == name; }
    assert data[|front| + |name|..|front| + |name| + 512] == g;
    hide Spells;
    var u := PrefixExtracts(data, dest, limit, Begin(s), es, EntryRecords(e), |NameBytes(e)|, 0);
    if PlacedAll(s, dest, es).Ok? {
      if own {
        NameIsRead(data, dest, limit, u, e);
        BadChecksumIsRefused(data, dest, limit, Named(u, e));
      } else {
        BadChecksumIsRefused(data, dest, limit, u);
      }
    }
  }

  lemma EntriesHavePaths(es: seq<Entry>)
    requires forall f | f in es :: EntryOk(f)
    ensures forall f | f in es :: f.path != []
  {
    forall f | f in es ensures f.path != [] { assert EntryOk(f); }
  }

  lemma FieldKept(h: Header, i: nat, b: Byte)
    requires i < 512 && !(148 <= i < 156) && ChecksumValid(h)
    ensures ParseTarNumber(h[i := b][148..156]).Some?
  {
    hide ParseTarNumber, Checksum;
    assert h[i := b][148..156] == h[148..156];
  }
}

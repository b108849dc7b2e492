/** Writing a tar archive (ustar Interchange Format of POSIX.1-2017 pax, with GNU long names and pax
    extended headers), and that extracting what was written gives what was meant. */
module TarRoundTrip {
  import opened Basics
  import opened Paths
  import opened Numerals
  import opened TarHeader
  import opened PaxRecords
  import opened ArchivePaths
  import opened ExtractionTree
  import opened TarStream

  // ---- Headers

  /** The header fields that extraction does not look at. */
  datatype Fields = Fields(owner: seq<Byte>, time: seq<Byte>, middle: seq<Byte>, end: seq<Byte>) {
    predicate Fit() { |owner| == 24 && |time| == 12 && |middle| == 188 && |end| == 12 }
  }

  function NulBytes(n: nat): (s: seq<Byte>)
    ensures |s| == n && AllZero(s)
  {
    seq(n, _ => 0)
  }

  function PadTo(s: seq<Byte>, n: nat): (r: seq<Byte>)
    requires |s| <= n
    ensures |r| == n
  {
    s + NulBytes(n - |s|)
  }

  /** A size of at most eleven octal digits. */
  predicate SizeFits(size: nat) { size < 0x2_0000_0000 }

  lemma SizeDigits(size: nat)
    requires SizeFits(size)
    ensures size < Power(8, 11) && |Digits(size, 8)| <= 11
  {
    EightToTheSeventh();
    assert Power(8, 8) == 8 * Power(8, 7) == 16777216;
    assert Power(8, 9) == 8 * Power(8, 8) == 134217728;
    assert Power(8, 10) == 8 * Power(8, 9) == 1073741824;
    assert Power(8, 11) == 8 * Power(8, 10) == 0x2_0000_0000;
    DigitsFit(size, 8, 11);
  }

  predicate HeaderFits(name: seq<Byte>, prefix: seq<Byte>, fields: Fields) {
    |name| <= 100 && |prefix| <= 155 && NUL !in name && NUL !in prefix && fields.Fit()
  }

  /** A header before its checksum is written. */
  function Blank(name: seq<Byte>, prefix: seq<Byte>, fields: Fields, size: nat, flag: Byte): Header
    requires HeaderFits(name, prefix, fields) && SizeFits(size)
  {
    SizeDigits(size);
    PadTo(name, 100) + fields.owner + WriteTarOctal(12, size) + fields.time
    + NulBytes(8) + [flag] + fields.middle + PadTo(prefix, 155) + fields.end
  }

  function HeaderOf(name: seq<Byte>, prefix: seq<Byte>, fields: Fields, size: nat, flag: Byte): Header
    requires HeaderFits(name, prefix, fields) && SizeFits(size)
  {
    var blank := Blank(name, prefix, fields, size, flag);
    ChecksumFits(blank);
    Sealed(blank)
  }

  lemma BlankSlices(name: seq<Byte>, prefix: seq<Byte>, fields: Fields, size: nat, flag: Byte)
    requires HeaderFits(name, prefix, fields) && SizeFits(size)
    ensures |Digits(size, 8)| <= 12
    ensures var h := Blank(name, prefix, fields, size, flag);
      && h[0..100] == PadTo(name, 100) && h[124..136] == WriteTarOctal(12, size)
      && h[156] == flag && h[345..500] == PadTo(prefix, 155)
  {
    SizeDigits(size);
    hide WriteTarOctal, Power, Digits;
  }

  lemma SealedSlices(h: Header)
    ensures |Digits(Checksum(h), 8)| <= 7
    ensures var s := Sealed(h);
      && s[0..100] == h[0..100] && s[124..136] == h[124..136]
      && s[156] == h[156] && s[345..500] == h[345..500]
  {
    hide WriteTarOctal, Checksum;
    ChecksumFits(h);
    SealedValidates(h);
    var s := Sealed(h);
    assert s[0..100] == s[..148][0..100] && s[124..136] == s[..148][124..136];
    assert h[0..100] == h[..148][0..100] && h[124..136] == h[..148][124..136];
    assert s[156] == s[156..][0] && h[156] == h[156..][0];
    assert s[345..500] == s[156..][189..344] && h[345..500] == h[156..][189..344];
  }

  lemma {:induction false} UntilNulOfPadded(s: seq<Byte>, n: nat)
    requires |s| <= n && NUL !in s
    ensures UntilNul(PadTo(s, n)) == s
    decreases |s|
  {
    if s != [] {
      assert s[0] in s && PadTo(s, n)[1..] == PadTo(s[1..], n - 1);
      UntilNulOfPadded(s[1..], n - 1);
    }
  }

  lemma UntilNulOfEnded(s: seq<Byte>)
    requires NUL !in s
    ensures UntilNul(s + [NUL]) == s
  {
    UntilNulOfPadded(s, |s| + 1);
    assert PadTo(s, |s| + 1) == s + [NUL];
  }

  /** The name that a prefix and a name field spell together. */
  function FieldName(name: seq<Byte>, prefix: seq<Byte>): seq<Byte> {
    (if prefix == [] then [] else prefix + [SLASH]) + name
  }

  /** A written header is read back: its size, its flag and its name. */
  lemma HeaderReads(name: seq<Byte>, prefix: seq<Byte>, fields: Fields, size: nat, flag: Byte)
    requires HeaderFits(name, prefix, fields) && SizeFits(size)
    ensures var h := HeaderOf(name, prefix, fields, size, flag);
      && !AllZero(h) && ReadHeader(h) == Ok((size, flag))
      && HeaderPath(h) == if FieldName(name, prefix) == [] then Err(UnsafeEntry) else Ok(FieldName(name, prefix))
  {
    var blank := Blank(name, prefix, fields, size, flag);
    var h := HeaderOf(name, prefix, fields, size, flag);
    SealedSlices(blank);
    SealedValidates(blank);
    BlankSlices(name, prefix, fields, size, flag);
    hide ParseTarNumber, WriteTarOctal, Checksum, Sealed, Blank;
    SizeDigits(size);
    OctalRoundTrip(12, size);
    UntilNulOfPadded(name, 100);
    UntilNulOfPadded(prefix, 155);
    assert ParseTarNumber(h[148..156]) == Some(Checksum(h));
    if AllZero(h) {
      ZeroField(h);
    }
  }

  lemma ZeroField(h: Header)
    requires AllZero(h)
    ensures !ChecksumValid(h)
  {
    var field := h[148..156];
    assert AllZero(field);
    TrimZeros(field);
    assert ParseTarNumber(field) == Some(0);
    assert Checksum(h) >= 256;
  }

  lemma {:induction false} TrimZeros(s: seq<Byte>)
    requires AllZero(s)
    ensures TrimLeft(s) == []
  {
    if s != [] { TrimZeros(s[1..]); }
  }

  // ---- Records

  function RecordBytes(h: Header, payload: seq<Byte>): seq<Byte> {
    h + (payload + NulBytes(Padding(|payload|)))
  }

  function RecordLength(size: nat): nat { BLOCK + size + Padding(size) }

  lemma RecordSpelled(data: seq<Byte>, pos: nat, h: Header, payload: seq<Byte>)
    requires Spells(data, pos, RecordBytes(h, payload))
    ensures var p := pos + BLOCK;
      && pos + RecordLength(|payload|) <= |data|
      && data[pos..p] == h && data[p..p + |payload|] == payload
  {
    SpellsConcat(data, pos, h, payload + NulBytes(Padding(|payload|)));
    SpellsConcat(data, pos + BLOCK, payload, NulBytes(Padding(|payload|)));
  }

  // ---- Entries

  datatype Naming =
    | InHeader(prefix: seq<Byte>, name: seq<Byte>)
    | InLongName(stub: seq<Byte>, longFields: Fields)
    | InPax(stub: seq<Byte>, records: seq<Record>, paxFields: Fields)

  /** A folder (no content) or a file; `slash` puts a slash behind its name, and `early` gives a file the type of the
      format before ustar. */
  datatype Entry = Entry(path: Path, slash: bool, early: bool, content: Option<seq<Byte>>, naming: Naming, fields: Fields)

  const LONG_LINK: seq<Byte> := [46, 47, 46, 47, 64, 76, 111, 110, 103, 76, 105, 110, 107]  // "././@LongLink"

  function RawName(e: Entry): seq<Byte>
    requires e.path != []
  {
    Join(e.path, e.slash)
  }

  predicate EntryOk(e: Entry) {
    && Inside(e.path) && NUL !in RawName(e)
    && (e.content.Some? ==> |e.content.value| <= MAX_ENTRY_BYTES) && SizeFits(PayloadSize(e))
    && match e.naming
       case InHeader(prefix, name) => HeaderFits(name, prefix, e.fields) && FieldName(name, prefix) == RawName(e)
       case InLongName(stub, longFields) =>
         && HeaderFits(stub, [], e.fields) && longFields.Fit()
         && |RawName(e)| + 1 <= MAX_METADATA_BYTES && SizeFits(|RawName(e)| + 1)
       case InPax(stub, records, paxFields) =>
         && HeaderFits(stub, [], e.fields) && HeaderFits(stub, [], paxFields)
         && |PaxRecords.EncodeAll(records)| <= MAX_METADATA_BYTES && SizeFits(|PaxRecords.EncodeAll(records)|)
         && (forall r | r in records :: EQUALS !in r.key) && LastPath(records, None) == Some(RawName(e))
  }

  function Payload(e: Entry): seq<Byte> { if e.content.Some? then e.content.value else [] }

  function PayloadSize(e: Entry): nat { |Payload(e)| }

  function Flag(e: Entry): Byte {
    if e.content.None? then FLAG_FOLDER else if e.early then FLAG_OLD_FILE else FLAG_FILE
  }

  /** The payload of the record in front of the entry's own that carries its name, if there is one. */
  function NamePayload(e: Entry): seq<Byte>
    requires EntryOk(e)
  {
    match e.naming
    case InHeader(_, _) => []
    case InLongName(_, _) => RawName(e) + [NUL]
    case InPax(_, records, _) => PaxRecords.EncodeAll(records)
  }

  function NameBytes(e: Entry): seq<Byte>
    requires EntryOk(e)
  {
    match e.naming
    case InHeader(_, _) => []
    case InLongName(_, longFields) =>
      RecordBytes(HeaderOf(LONG_LINK, [], longFields, |NamePayload(e)|, FLAG_LONG_NAME), NamePayload(e))
    case InPax(stub, _, paxFields) =>
      RecordBytes(HeaderOf(stub, [], paxFields, |NamePayload(e)|, FLAG_PAX), NamePayload(e))
  }

  function OwnHeader(e: Entry): Header
    requires EntryOk(e)
  {
    match e.naming
    case InHeader(prefix, name) => HeaderOf(name, prefix, e.fields, PayloadSize(e), Flag(e))
    case InLongName(stub, _) => HeaderOf(stub, [], e.fields, PayloadSize(e), Flag(e))
    case InPax(stub, _, _) => HeaderOf(stub, [], e.fields, PayloadSize(e), Flag(e))
  }

  function EntryBytes(e: Entry): seq<Byte>
    requires EntryOk(e)
  {
    NameBytes(e) + RecordBytes(OwnHeader(e), Payload(e))
  }

  function EncodeEntries(es: seq<Entry>): seq<Byte>
    requires forall e | e in es :: EntryOk(e)
  {
    if es == [] then [] else EntryBytes(es[0]) + EncodeEntries(es[1..])
  }

  /** An archive: its entries, two zero blocks, and any further zeros a writer adds to fill its last record. */
  function EncodeArchive(es: seq<Entry>, filler: nat): seq<Byte>
    requires forall e | e in es :: EntryOk(e)
  {
    EncodeEntries(es) + NulBytes(2 * BLOCK + filler)
  }

  // ---- What extracting an entry means

  /** The entry put below the destination; it fails only where something else is in its way. */
  function Placed(s: Progress, dest: Path, e: Entry): Result<Progress, ArchiveError>
    requires e.path != []
  {
    if e.content.None? then
      var r := EnsureDirectory(s, dest, e.path);
      if r.Err? then r else Ok(r.value.(entries := r.value.entries + 1))
    else
      var output := dest + e.path;
      var r := EnsureDirectory(s.(bytes := s.bytes + |e.content.value|), dest, e.path[..|e.path| - 1]);
      if r.Err? then r
      else if output in r.value.tree then Err(AlreadyExists)
      else
        var u := WithPath(r.value, output, Regular(e.content.value));
        Ok(u.(entries := u.entries + 1))
  }

  function PlacedAll(s: Progress, dest: Path, es: seq<Entry>): Result<Progress, ArchiveError>
    requires forall e | e in es :: e.path != []
    decreases |es|
  {
    if es == [] then Ok(s)
    else
      assert es[0] in es;
      var r := Placed(s, dest, es[0]);
      if r.Err? then r else PlacedAll(r.value, dest, es[1..])
  }

  // ---- Limits

  function EntryRecords(e: Entry): nat { if e.naming.InHeader? then 1 else 2 }

  function RecordsOf(es: seq<Entry>): nat {
    if es == [] then 0 else EntryRecords(es[0]) + RecordsOf(es[1..])
  }

  function ContentOf(es: seq<Entry>): nat {
    if es == [] then 0 else PayloadSize(es[0]) + ContentOf(es[1..])
  }

  /** The entries still to come stay within the limits from this state on. */
  predicate StaysWithin(t: TarState, es: seq<Entry>, limit: nat)
    requires forall e | e in es :: EntryOk(e)
  {
    && t.records + RecordsOf(es) <= MAX_ENTRIES
    && t.streamBytes + |EncodeEntries(es)| <= limit + STREAM_ALLOWANCE <= U64_MAX
    && t.progress.bytes + ContentOf(es) <= limit
  }

  // ---- One record

  lemma CountRecord(streamBytes: nat, size: nat, limit: nat)
    requires streamBytes + RecordLength(size) <= limit + STREAM_ALLOWANCE <= U64_MAX
    ensures CountStream(streamBytes, size, limit) == Some(streamBytes + RecordLength(size))
  {
    PaddingAgrees(size);
  }

  /** The state in which a record of this size is handled. */
  function Counted(u: TarState, size: nat): TarState {
    u.(records := u.records + 1, streamBytes := u.streamBytes + RecordLength(size))
  }

  /** A record spelled at the state's position is handled by the step for its header. */
  lemma StepAtRecord(data: seq<Byte>, dest: Path, limit: nat, t: TarState, h: Header, payload: seq<Byte>, flag: Byte)
    requires t.pos <= |data| && Spells(data, t.pos, RecordBytes(h, payload))
    requires !AllZero(h) && ReadHeader(h) == Ok((|payload|, flag))
    requires t.records + 1 <= MAX_ENTRIES
    requires t.streamBytes + RecordLength(|payload|) <= limit + STREAM_ALLOWANCE <= U64_MAX
    ensures var p := t.pos + BLOCK;
      var u := Counted(t, |payload|);
      && p + |payload| + Padding(|payload|) <= |data| && data[p..p + |payload|] == payload
      && RecordStep(data, dest, limit, t) ==
         if IsMetadata(flag) then MetadataStep(data, u, p, |payload|, flag)
         else EntryStep(data, dest, limit, u, h, p, |payload|, flag)
  {
    hide EntryStep, MetadataStep, ReadHeader, CountStream, AllZero;
    RecordSpelled(data, t.pos, h, payload);
    CountRecord(t.streamBytes, |payload|, limit);
  }

  /** A global pax header is passed over. */
  lemma GlobalIsSkipped(data: seq<Byte>, dest: Path, limit: nat, t: TarState, h: Header, payload: seq<Byte>)
    requires t.pos <= |data| && Spells(data, t.pos, RecordBytes(h, payload))
    requires !AllZero(h) && ReadHeader(h) == Ok((|payload|, FLAG_GLOBAL)) && |payload| <= MAX_METADATA_BYTES
    requires t.records + 1 <= MAX_ENTRIES
    requires t.streamBytes + RecordLength(|payload|) <= limit + STREAM_ALLOWANCE <= U64_MAX
    ensures RecordStep(data, dest, limit, t) ==
            Continue(Counted(t, |payload|).(pos := t.pos + RecordLength(|payload|)))
  {
    hide EntryStep, ReadHeader, CountStream, AllZero, Spells, RecordBytes, Padding, RecordStep;
    StepAtRecord(data, dest, limit, t, h, payload, FLAG_GLOBAL);
  }

  predicate NoPending(t: TarState) { t.longName.None? && t.paxPath.None? }

  /** The state after the record in front of an entry that carries its name. */
  function Named(t: TarState, e: Entry): TarState
    requires EntryOk(e)
  {
    var n := RecordLength(|NamePayload(e)|);
    match e.naming
    case InHeader(_, _) => t
    case InLongName(_, _) =>
      t.(pos := t.pos + n, records := t.records + 1, streamBytes := t.streamBytes + n, longName := Some(RawName(e)))
    case InPax(_, _, _) =>
      t.(pos := t.pos + n, records := t.records + 1, streamBytes := t.streamBytes + n, paxPath := Some(RawName(e)))
  }

  lemma LongNameIsTaken(data: seq<Byte>, t: TarState, e: Entry, h: Header, payload: seq<Byte>)
    requires EntryOk(e) && e.naming.InLongName? && payload == NamePayload(e)
    requires t.pos <= |data| && Spells(data, t.pos, RecordBytes(h, payload))
    ensures t.pos + BLOCK <= |data|
    ensures MetadataStep(data, Counted(t, |payload|), t.pos + BLOCK, |payload|, FLAG_LONG_NAME) == Continue(Named(t, e))
  {
    hide Spells, RecordBytes, UntilNul, Padding, HeaderFits, SizeFits, RawName;
    RecordSpelled(data, t.pos, h, payload);
    UntilNulOfEnded(RawName(e));
  }

  lemma LongNameStep(data: seq<Byte>, dest: Path, limit: nat, t: TarState, e: Entry)
    requires EntryOk(e) && e.naming.InLongName? && NoPending(t)
    requires t.pos <= |data| && Spells(data, t.pos, NameBytes(e))
    requires t.records + 1 <= MAX_ENTRIES && t.streamBytes + |NameBytes(e)| <= limit + STREAM_ALLOWANCE <= U64_MAX
    ensures RecordStep(data, dest, limit, t) == Continue(Named(t, e))
  {
    hide RecordStep, HeaderOf, ReadHeader, RecordBytes, Spells, AllZero, Padding, NameBytes, NamePayload, EntryOk,
      MetadataStep, HeaderFits, SizeFits, Named;
    NameBytesLength(e);
    LongNameRecord(e);
    var h := HeaderOf(LONG_LINK, [], e.naming.longFields, |NamePayload(e)|, FLAG_LONG_NAME);
    HeaderReads(LONG_LINK, [], e.naming.longFields, |NamePayload(e)|, FLAG_LONG_NAME);
    StepAtRecord(data, dest, limit, t, h, NamePayload(e), FLAG_LONG_NAME);
    LongNameIsTaken(data, t, e, h, NamePayload(e));
  }

  /** The record in front of an entry with a long name. */
  lemma LongNameRecord(e: Entry)
    requires EntryOk(e) && e.naming.InLongName?
    ensures HeaderFits(LONG_LINK, [], e.naming.longFields) && SizeFits(|NamePayload(e)|)
    ensures NameBytes(e) ==
            RecordBytes(HeaderOf(LONG_LINK, [], e.naming.longFields, |NamePayload(e)|, FLAG_LONG_NAME), NamePayload(e))
  {
    hide HeaderOf, RecordBytes;
    assert NUL !in LONG_LINK;
  }

  lemma PaxStep(data: seq<Byte>, dest: Path, limit: nat, t: TarState, e: Entry)
    requires EntryOk(e) && e.naming.InPax? && NoPending(t)
    requires t.pos <= |data| && Spells(data, t.pos, NameBytes(e))
    requires t.records + 1 <= MAX_ENTRIES && t.streamBytes + |NameBytes(e)| <= limit + STREAM_ALLOWANCE <= U64_MAX
    ensures RecordStep(data, dest, limit, t) == Continue(Named(t, e))
  {
    hide RecordStep, HeaderOf, ReadHeader, RecordBytes, Spells, AllZero, Join, Digits, Power, ParseFrom,
      PaxRecords.EncodeAll, LastPath, Padding;
    NameBytesLength(e);
    var payload := PaxRecords.EncodeAll(e.naming.records);
    var h := HeaderOf(e.naming.stub, [], e.naming.paxFields, |payload|, FLAG_PAX);
    HeaderReads(e.naming.stub, [], e.naming.paxFields, |payload|, FLAG_PAX);
    StepAtRecord(data, dest, limit, t, h, payload, FLAG_PAX);
    PaxRoundTrip(e.naming.records, None);
  }

  lemma RawNameIsSome(e: Entry)
    requires Inside(e.path)
    ensures RawName(e) != []
  {
    assert e.path[0] in e.path;
  }

  lemma OwnHeaderReads(e: Entry)
    requires EntryOk(e)
    ensures !AllZero(OwnHeader(e)) && ReadHeader(OwnHeader(e)) == Ok((PayloadSize(e), Flag(e)))
    ensures e.naming.InHeader? ==> HeaderPath(OwnHeader(e)) == Ok(RawName(e))
  {
    hide HeaderOf, ReadHeader, AllZero, HeaderPath, Join, Digits, Power;
    RawNameIsSome(e);
    match e.naming {
      case InHeader(prefix, name) => HeaderReads(name, prefix, e.fields, PayloadSize(e), Flag(e));
      case InLongName(stub, _) => HeaderReads(stub, [], e.fields, PayloadSize(e), Flag(e));
      case InPax(stub, _, _) => HeaderReads(stub, [], e.fields, PayloadSize(e), Flag(e));
    }
  }

  /** The name taken in this state is that of the entry, and none stays pending. */
  predicate OwnName(v: TarState, h: Header, e: Entry)
    requires e.path != []
  {
    TakeName(v, h) == (Ok(RawName(e)), v.(longName := None, paxPath := None))
  }

  /** Whatever carries it, the name that an entry takes is its own, and none stays pending. */
  lemma TakesItsName(t: TarState, e: Entry)
    requires EntryOk(e) && NoPending(t)
    ensures OwnName(Counted(Named(t, e), PayloadSize(e)), OwnHeader(e), e)
  {
    hide HeaderPath, OwnHeader;
    OwnHeaderReads(e);
  }

  /** The step over an entry's own record, which starts at u: on with what it left, or its error. */
  function Concluded(u: TarState, s: Result<Progress, ArchiveError>, size: nat): TarStep {
    var n := RecordLength(size);
    if s.Err? then Stop(Err(s.error))
    else Continue(TarState(u.pos + n, s.value, None, None, u.records + 1, u.streamBytes + n))
  }

  /** With a safe name and a payload that is all there, an entry step places the entry. */
  lemma EntryStepPlaces(data: seq<Byte>, dest: Path, limit: nat, u: TarState, h: Header, e: Entry)
    requires Inside(e.path) && PayloadSize(e) <= MAX_ENTRY_BYTES && u.pos + BLOCK <= |data|
    requires OwnName(Counted(u, PayloadSize(e)), h, e)
    requires Spells(data, u.pos, RecordBytes(h, Payload(e)))
    requires u.progress.bytes + PayloadSize(e) <= limit <= U64_MAX
    ensures EntryStep(data, dest, limit, Counted(u, PayloadSize(e)), h, u.pos + BLOCK, PayloadSize(e), Flag(e)) ==
            Concluded(u, Placed(u.progress, dest, e), PayloadSize(e))
  {
    hide EnsureDirectory, SafeRelativePath, TakeName, Join, Padding, Spells, RecordBytes;
    RecordSpelled(data, u.pos, h, Payload(e));
    SafePathRoundTrip(e.path, e.slash);
    EnsureDirectoryCounts(u.progress.(bytes := u.progress.bytes + PayloadSize(e)), dest, e.path[..|e.path| - 1]);
  }

  lemma OwnRecordIsEntry(data: seq<Byte>, dest: Path, limit: nat, u: TarState, e: Entry)
    requires EntryOk(e) && u.pos <= |data| && Spells(data, u.pos, RecordBytes(OwnHeader(e), Payload(e)))
    requires u.records + 1 <= MAX_ENTRIES
    requires u.streamBytes + RecordLength(PayloadSize(e)) <= limit + STREAM_ALLOWANCE <= U64_MAX
    ensures u.pos + BLOCK <= |data|
    ensures RecordStep(data, dest, limit, u) ==
            EntryStep(data, dest, limit, Counted(u, PayloadSize(e)), OwnHeader(e), u.pos + BLOCK, PayloadSize(e), Flag(e))
  {
    hide HeaderOf, ReadHeader, RecordStep, RecordBytes, Spells, AllZero, EntryStep, OwnHeader, Padding;
    OwnHeaderReads(e);
    StepAtRecord(data, dest, limit, u, OwnHeader(e), Payload(e), Flag(e));
  }

  /** Reading an entry's own record places it. */
  lemma OwnRecordStep(data: seq<Byte>, dest: Path, limit: nat, t: TarState, e: Entry)
    requires EntryOk(e) && NoPending(t)
    requires Named(t, e).pos <= |data| && Spells(data, Named(t, e).pos, RecordBytes(OwnHeader(e), Payload(e)))
    requires Named(t, e).records + 1 <= MAX_ENTRIES
    requires Named(t, e).streamBytes + RecordLength(PayloadSize(e)) <= limit + STREAM_ALLOWANCE <= U64_MAX
    requires t.progress.bytes + PayloadSize(e) <= limit
    ensures RecordStep(data, dest, limit, Named(t, e)) ==
            Concluded(Named(t, e), Placed(Named(t, e).progress, dest, e), PayloadSize(e))
  {
    assert Named(t, e).progress == t.progress && Inside(e.path) && PayloadSize(e) <= MAX_ENTRY_BYTES;
    hide *;
    OwnRecordIsEntry(data, dest, limit, Named(t, e), e);
    TakesItsName(t, e);
    EntryStepPlaces(data, dest, limit, Named(t, e), OwnHeader(e), e);
  }

  /** The state after an entry. */
  function After(t: TarState, s: Progress, e: Entry): TarState
    requires EntryOk(e)
  {
    var u := Named(t, e);
    var n := RecordLength(PayloadSize(e));
    TarState(u.pos + n, s, None, None, u.records + 1, u.streamBytes + n)
  }

  lemma ExtractStep(data: seq<Byte>, dest: Path, limit: nat, t: TarState)
    requires t.pos <= |data|
    ensures var step := RecordStep(data, dest, limit, t);
      Extract(data, dest, limit, t) == if step.Stop? then step.result else Extract(data, dest, limit, step.next)
  {
  }

  lemma NameBytesLength(e: Entry)
    requires EntryOk(e)
    ensures |NameBytes(e)| == if e.naming.InHeader? then 0 else RecordLength(|NamePayload(e)|)
    ensures |EntryBytes(e)| == |NameBytes(e)| + RecordLength(PayloadSize(e))
  {
  }

  lemma EntryExtracts(data: seq<Byte>, dest: Path, limit: nat, t: TarState, e: Entry)
    requires EntryOk(e) && NoPending(t) && t.pos <= |data| && Spells(data, t.pos, EntryBytes(e))
    requires t.records + EntryRecords(e) <= MAX_ENTRIES
    requires t.streamBytes + |EntryBytes(e)| <= limit + STREAM_ALLOWANCE <= U64_MAX
    requires t.progress.bytes + PayloadSize(e) <= limit
    ensures var s := Placed(t.progress, dest, e);
      s.Ok? ==> t.pos + |EntryBytes(e)| == After(t, s.value, e).pos <= |data|
    ensures var s := Placed(t.progress, dest, e);
      Extract(data, dest, limit, t) ==
      if s.Err? then Err(s.error) else Extract(data, dest, limit, After(t, s.value, e))
  {
    hide RecordStep, RecordBytes, HeaderOf, EnsureDirectory, Extract, EntryOk, Placed;
    NameBytesLength(e);
    SpellsConcat(data, t.pos, NameBytes(e), RecordBytes(OwnHeader(e), Payload(e)));
    var u := Named(t, e);
    ExtractStep(data, dest, limit, t);
    match e.naming {
      case InHeader(_, _) =>
      case InLongName(_, _) => LongNameStep(data, dest, limit, t, e);
      case InPax(_, _, _) => PaxStep(data, dest, limit, t, e);
    }
    ExtractStep(data, dest, limit, u);
    OwnRecordStep(data, dest, limit, t, e);
  }

  lemma PlacedBytes(s: Progress, dest: Path, e: Entry)
    requires e.path != []
    ensures var r := Placed(s, dest, e); r.Ok? ==> r.value.bytes == s.bytes + PayloadSize(e)
  {
    EnsureDirectoryCounts(s, dest, e.path);
    EnsureDirectoryCounts(s.(bytes := s.bytes + PayloadSize(e)), dest, e.path[..|e.path| - 1]);
  }

  lemma {:induction false} EnsureDirectoryCounts(s: Progress, base: Path, names: Path)
    ensures var r := EnsureDirectory(s, base, names); r.Ok? ==> r.value.bytes == s.bytes && r.value.entries == s.entries
    decreases |names|
  {
    if names != [] {
      var current := base + [names[0]];
      EnsureDirectoryCounts(WithPath(s, current, Folder), current, names[1..]);
      EnsureDirectoryCounts(s, current, names[1..]);
    }
  }

  lemma EndExtracts(data: seq<Byte>, dest: Path, limit: nat, t: TarState, filler: nat)
    requires t.pos <= |data| && data[t.pos..] == NulBytes(2 * BLOCK + filler) && filler <= MAX_METADATA_BYTES
    ensures Extract(data, dest, limit, t) == Ok(t.progress)
  {
    hide HeaderStep;
    var zeros := NulBytes(2 * BLOCK + filler);
    assert data[t.pos..t.pos + BLOCK] == zeros[..BLOCK];
    assert data[t.pos + BLOCK..] == zeros[BLOCK..];
    assert AllZero(zeros[BLOCK..][..BLOCK]) && AllZero(zeros[BLOCK..][BLOCK..]);
  }

  /** What follows the first entry is the archive of the others. */
  lemma FirstSpelled(data: seq<Byte>, pos: nat, es: seq<Entry>, filler: nat)
    requires es != [] && (forall e | e in es :: EntryOk(e))
    requires pos <= |data| && data[pos..] == EncodeArchive(es, filler)
    ensures var next := pos + |EntryBytes(es[0])|;
      Spells(data, pos, EntryBytes(es[0])) && next <= |data| && data[next..] == EncodeArchive(es[1..], filler)
  {
    hide EntryBytes;
    assert es[0] in es && EntryOk(es[0]);
    hide EntryOk;
    var first := EntryBytes(es[0]);
    var whole := first + EncodeArchive(es[1..], filler);
    assert data[pos..] == whole by {
      assert EncodeEntries(es) + NulBytes(2 * BLOCK + filler) == whole;
    }
    assert data[pos..pos + |first|] == whole[..|first|];
    assert data[pos + |first|..] == whole[|first|..];
  }

  lemma {:induction false} EntriesExtract(data: seq<Byte>, dest: Path, limit: nat, t: TarState, es: seq<Entry>,
          filler: nat)
    requires (forall e | e in es :: EntryOk(e)) && filler <= MAX_METADATA_BYTES
    requires NoPending(t) && t.pos <= |data| && data[t.pos..] == EncodeArchive(es, filler) && StaysWithin(t, es, limit)
    ensures Extract(data, dest, limit, t) == PlacedAll(t.progress, dest, es)
    decreases |es|
  {
    hide Extract, Placed, EntryBytes;
    if es == [] {
      assert EncodeArchive(es, filler) == NulBytes(2 * BLOCK + filler);
      EndExtracts(data, dest, limit, t, filler);
    } else {
      var e, rest := es[0], es[1..];
      assert e in es && EntryOk(e);
      hide EntryOk, EncodeArchive;
      FirstSpelled(data, t.pos, es, filler);
      EntryExtracts(data, dest, limit, t, e);
      var s := Placed(t.progress, dest, e);
      if s.Ok? {
        PlacedBytes(t.progress, dest, e);
        NameBytesLength(e);
        var u := After(t, s.value, e);
        EntriesExtract(data, dest, limit, u, rest, filler);
      }
    }
  }

  /** Round trip: extracting an encoded archive places its entries, whichever of the three ways carries each
      name, whatever the other header fields hold and however many zeros fill the end; and it fails exactly
      where an entry is in another's way. */
  lemma ArchiveRoundTrip(es: seq<Entry>, filler: nat, dest: Path, limit: nat, s: Progress)
    requires (forall e | e in es :: EntryOk(e)) && filler <= MAX_METADATA_BYTES
    requires StaysWithin(Begin(s), es, limit)
    ensures Extract(EncodeArchive(es, filler), dest, limit, Begin(s)) == PlacedAll(s, dest, es)
  {
    var data := EncodeArchive(es, filler);
    assert data[0..] == data;
    EntriesExtract(data, dest, limit, Begin(s), es, filler);
  }
}

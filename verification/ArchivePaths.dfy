/** Paths of archive entries: splitting a raw path and refusing what would leave the destination. */
module ArchivePaths {
  import opened Basics
  import opened Paths

  const SLASH: Byte := 47
  const DOT: Name := [46]
  const DOT_DOT: Name := [46, 46]
  const MAX_PATH_DEPTH: nat := 64

  /** The reasons for which an extraction stops. */
  datatype ArchiveError =
    | UnsafeEntry
    | LimitExceeded
    | InvalidData
    | AlreadyExists
    | Cancelled
    | Truncated
    | OsError      // any other failure of the file system or of the reader

  function SlashIndex(raw: seq<Byte>): (n: nat)
    ensures n <= |raw|
    ensures SLASH !in raw[..n] && (n < |raw| ==> raw[n] == SLASH)
  {
    if raw == [] || raw[0] == SLASH then 0
    else
      var n := 1 + SlashIndex(raw[1..]);
      assert raw[..n] == [raw[0]] + raw[1..][..n - 1];
      n
  }

  /** The segments between slashes. */
  function Segments(raw: seq<Byte>): (s: seq<Name>)
    ensures s != [] && forall name | name in s :: SLASH !in name
    decreases |raw|
  {
    var n := SlashIndex(raw);
    if n == |raw| then
      assert raw[..n] == raw;
      [raw]
    else [raw[..n]] + Segments(raw[n + 1..])
  }

  /** Walks the segments of a relative path; `safe` holds the names kept so far. */
  function Walk(segments: seq<Name>, safe: Path): Result<Path, ArchiveError> {
    if segments == [] then (if safe == [] then Err(UnsafeEntry) else Ok(safe))
    else if segments[0] == [] || segments[0] == DOT then Walk(segments[1..], safe)
    else if segments[0] == DOT_DOT then Err(UnsafeEntry)
    else if |safe| + 1 > MAX_PATH_DEPTH then Err(LimitExceeded)
    else Walk(segments[1..], safe + [segments[0]])
  }

  function SafeRelativePath(raw: seq<Byte>): Result<Path, ArchiveError> {
    if raw != [] && raw[0] == SLASH then Err(UnsafeEntry) else Walk(Segments(raw), [])
  }

  predicate NameOk(name: Name) {
    name != [] && name != DOT && name != DOT_DOT && SLASH !in name
  }

  /** A path that stays below the directory it is joined to. */
  predicate Inside(p: Path) {
    1 <= |p| <= MAX_PATH_DEPTH && forall name | name in p :: NameOk(name)
  }

  lemma {:induction false} WalkStaysInside(segments: seq<Name>, safe: Path)
    requires forall name | name in segments :: SLASH !in name
    requires |safe| <= MAX_PATH_DEPTH && forall name | name in safe :: NameOk(name)
    ensures var r := Walk(segments, safe); r.Ok? ==> Inside(r.value)
  {
    if segments != [] {
      assert segments[0] in segments;
      if segments[0] == [] || segments[0] == DOT {
        WalkStaysInside(segments[1..], safe);
      } else if segments[0] != DOT_DOT && |safe| + 1 <= MAX_PATH_DEPTH {
        WalkStaysInside(segments[1..], safe + [segments[0]]);
      }
    }
  }

  /** Whatever an entry is called, an accepted path has 1 to 64 ordinary names: no root, no parent, no slash. */
  lemma SafePathStaysInside(raw: seq<Byte>)
    ensures var r := SafeRelativePath(raw); r.Ok? ==> Inside(r.value)
  {
    WalkStaysInside(Segments(raw), []);
  }

  /** The segments that name something. */
  function Ordinary(segments: seq<Name>): seq<Name> {
    if segments == [] then []
    else (if segments[0] == [] || segments[0] == [46] then [] else [segments[0]]) + Ordinary(segments[1..])
  }

  lemma {:induction false} WalkIsOrdinary(segments: seq<Name>, safe: Path)
    requires |safe| <= 64
    ensures var names := Ordinary(segments); var r := Walk(segments, safe);
      && (r.Ok? <==> [46, 46] !in names && 1 <= |safe| + |names| <= 64)
      && (r.Ok? ==> r.value == safe + names)
      && (r.Err? ==>
            if r.error.LimitExceeded? then |safe| + |names| > 64
            else r.error.UnsafeEntry? && ([46, 46] in names || |safe| + |names| == 0))
    decreases |segments|
  {
    if segments == [] {
      assert safe + [] == safe;
    } else {
      var rest := segments[1..];
      if segments[0] == [] || segments[0] == DOT {
        WalkIsOrdinary(rest, safe);
        assert [] + Ordinary(rest) == Ordinary(rest);
      } else {
        assert Ordinary(segments)[0] == segments[0];
        if segments[0] != DOT_DOT && |safe| + 1 <= 64 {
          WalkIsOrdinary(rest, safe + [segments[0]]);
          assert safe + [segments[0]] + Ordinary(rest) == safe + Ordinary(segments);
        }
      }
    }
  }

  /** Which paths are accepted, and as what: relative ones without a parent segment and with 1 to 64 names, empty
      segments and single dots left out. The others are too deep or unsafe, as the error says. */
  lemma SafePathExactly(raw: seq<Byte>)
    ensures var names := Ordinary(Segments(raw)); var r := SafeRelativePath(raw);
      && (r.Ok? <==> (raw == [] || raw[0] != 47) && [46, 46] !in names && 1 <= |names| <= 64)
      && (r.Ok? ==> r.value == names)
      && (r.Err? ==>
            if r.error.LimitExceeded? then |names| > 64
            else r.error.UnsafeEntry? && ((raw != [] && raw[0] == 47) || [46, 46] in names || names == []))
  {
    WalkIsOrdinary(Segments(raw), []);
    assert [] + Ordinary(Segments(raw)) == Ordinary(Segments(raw));
  }

  // ---- Writing a path

  /** The names with a slash between them, and one behind the last if `slash`. */
  function Join(p: Path, slash: bool): seq<Byte>
    requires p != []
  {
    if |p| == 1 then p[0] + (if slash then [SLASH] else []) else p[0] + [SLASH] + Join(p[1..], slash)
  }

  lemma {:induction false} SlashIndexOf(name: Name, rest: seq<Byte>)
    requires SLASH !in name
    ensures SlashIndex(name + [SLASH] + rest) == |name| && SlashIndex(name) == |name|
  {
    var raw := name + [SLASH] + rest;
    if name == [] {
      assert raw[0] == SLASH;
    } else {
      assert raw[0] == name[0] && name[0] in name;
      assert raw[1..] == name[1..] + [SLASH] + rest;
      SlashIndexOf(name[1..], rest);
    }
  }

  lemma SegmentsCons(name: Name, rest: seq<Byte>)
    requires SLASH !in name
    ensures Segments(name + [SLASH] + rest) == [name] + Segments(rest)
  {
    var raw := name + [SLASH] + rest;
    SlashIndexOf(name, rest);
    assert raw[..|name|] == name && raw[|name| + 1..] == rest;
  }

  lemma SegmentsOfName(name: Name)
    requires SLASH !in name
    ensures Segments(name) == [name] && Segments([]) == [[]]
  {
    SlashIndexOf(name, []);
  }

  lemma {:induction false} SegmentsOfJoin(p: Path, slash: bool)
    requires p != [] && forall name | name in p :: NameOk(name)
    ensures Segments(Join(p, slash)) == p + (if slash then [[]] else [])
  {
    hide Segments;
    assert p[0] in p && NameOk(p[0]);
    SegmentsOfName(p[0]);
    if |p| == 1 {
      assert p[0] + [] == p[0] && p + [] == p == [p[0]];
      if slash {
        SegmentsCons(p[0], []);
        assert p[0] + [SLASH] + [] == Join(p, true);
      }
    } else {
      SegmentsOfJoin(p[1..], slash);
      SegmentsCons(p[0], Join(p[1..], slash));
      assert p == [p[0]] + p[1..];
    }
  }

  lemma {:induction false} WalkOrdinary(names: Path, tail: seq<Name>, safe: Path)
    requires |safe| + |names| <= MAX_PATH_DEPTH && forall name | name in names :: NameOk(name)
    ensures Walk(names + tail, safe) == Walk(tail, safe + names)
  {
    if names == [] {
      assert [] + tail == tail && safe + [] == safe;
    } else {
      assert names[0] in names;
      assert (names + tail)[0] == names[0] && (names + tail)[1..] == names[1..] + tail;
      WalkOrdinary(names[1..], tail, safe + [names[0]]);
      assert safe + [names[0]] + names[1..] == safe + names;
    }
  }

  /** A path inside is accepted as it was written, with or without a slash at its end. */
  lemma SafePathRoundTrip(p: Path, slash: bool)
    requires Inside(p)
    ensures SafeRelativePath(Join(p, slash)) == Ok(p)
  {
    SegmentsOfJoin(p, slash);
    assert p[0] in p && NameOk(p[0]);
    assert Join(p, slash)[0] == p[0][0] && p[0][0] in p[0];
    var tail: seq<Name> := if slash then [[]] else [];
    WalkOrdinary(p, tail, []);
    assert [] + p == p;
    assert slash ==> tail[1..] == [] && Walk(tail, p) == Walk(tail[1..], p);
  }
}

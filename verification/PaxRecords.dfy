/** Extended header records (pax Extended Header of POSIX.1-2017 pax): "LENGTH KEY=VALUE\n", where LENGTH
    counts the whole record, its own digits included. */
module PaxRecords {
  import opened Basics
  import opened Numerals

  const BLANK: Byte := 32
  const NEWLINE: Byte := 10
  const EQUALS: Byte := 61
  const PATH_KEY: seq<Byte> := [112, 97, 116, 104]

  datatype PaxError = Malformed

  /** The index of the first blank at or after i. */
  function FindBlank(data: seq<Byte>, i: nat): (j: Option<nat>)
    requires i <= |data|
    ensures j.Some? ==> i <= j.value < |data| && data[j.value] == BLANK
    decreases |data| - i
  {
    if i == |data| then None else if data[i] == BLANK then Some(i) else FindBlank(data, i + 1)
  }

  /** The value of a `path` record, given the bytes between the blank and the record's end. */
  function PathOf(record: seq<Byte>): Option<seq<Byte>> {
    var r := if record != [] && record[|record| - 1] == NEWLINE then record[..|record| - 1] else record;
    if |r| >= 5 && r[..5] == PATH_KEY + [EQUALS] then Some(r[5..]) else None
  }

  /** Where the record at offset ends; none when it is malformed. */
  function RecordEnd(data: seq<Byte>, offset: nat): (r: Option<(nat, nat)>)
    requires offset < |data|
    ensures r.Some? ==> offset <= r.value.0 < r.value.0 + 1 < r.value.1 <= |data|
  {
    var space := FindBlank(data, offset);
    if space.None? then None
    else
      var length := Parse(data[offset..space.value], 10);
      if length.None? || length.value == 0 || offset + length.value > |data| || space.value + 1 >= offset + length.value
      then None
      else Some((space.value, offset + length.value))
  }

  function ParseFrom(data: seq<Byte>, offset: nat, path: Option<seq<Byte>>): Result<Option<seq<Byte>>, PaxError>
    requires offset <= |data|
    decreases |data| - offset
  {
    if offset == |data| then Ok(path)
    else
      var end := RecordEnd(data, offset);
      if end.None? then Err(Malformed)
      else
        var found := PathOf(data[end.value.0 + 1..end.value.1]);
        ParseFrom(data, end.value.1, if found.Some? then found else path)
  }

  method ParsePaxPath(data: seq<Byte>) returns (r: Result<Option<seq<Byte>>, PaxError>)
    ensures r == ParseFrom(data, 0, None)
  {
    hide Parse, PathOf, FindBlank;
    var offset := 0;
    var path: Option<seq<Byte>> := None;
    while offset < |data|
      invariant 0 <= offset <= |data|
      invariant ParseFrom(data, 0, None) == ParseFrom(data, offset, path)
      decreases |data| - offset
    {
      var space := FindBlank(data, offset);
      if space.None? { return Err(Malformed); }
      var length := Parse(data[offset..space.value], 10);
      if length.None? { return Err(Malformed); }
      if length.value == 0 || offset + length.value > |data| || space.value + 1 >= offset + length.value {
        return Err(Malformed);
      }
      var found := PathOf(data[space.value + 1..offset + length.value]);
      if found.Some? { path := found; }
      offset := offset + length.value;
    }
    r := Ok(path);
  }

  // ---- The encoder

  datatype Record = Record(key: seq<Byte>, value: seq<Byte>)

  function Body(r: Record): seq<Byte> { r.key + [EQUALS] + r.value + [NEWLINE] }

  /** A length that counts itself, for a record whose other bytes are m. */
  function OwnLength(m: nat): (n: nat)
    ensures n == |Digits(n, 10)| + m
  {
    var d := |Digits(m, 10)|;
    OwnLengthExists(m);
    if |Digits(m + d, 10)| == d then m + d else m + d + 1
  }

  lemma PowerExceeds(k: nat)
    ensures Power(10, k) >= k + 1
  {
    if k > 0 { PowerExceeds(k - 1); }
  }

  lemma OwnLengthExists(m: nat)
    ensures var d := |Digits(m, 10)|;
      |Digits(m + d, 10)| == d || |Digits(m + d + 1, 10)| == d + 1
  {
    var d := |Digits(m, 10)|;
    PowerExceeds(d);
    DigitsFit(m, 10, d);
    DigitsFit(m + d, 10, d);
    DigitsFit(m + d + 1, 10, d);
    DigitsFit(m + d + 1, 10, d + 1);
    assert Power(10, d + 1) == 10 * Power(10, d);
    if d > 1 {
      DigitsFit(m, 10, d - 1);
      DigitsFit(m + d, 10, d - 1);
    }
  }

  function Encode(r: Record): seq<Byte> {
    Digits(OwnLength(|Body(r)| + 1), 10) + [BLANK] + Body(r)
  }

  function EncodeAll(rs: seq<Record>): seq<Byte> {
    if rs == [] then [] else Encode(rs[0]) + EncodeAll(rs[1..])
  }

  /** The value of the last `path` record, or else `before`. */
  function LastPath(rs: seq<Record>, before: Option<seq<Byte>>): Option<seq<Byte>> {
    if rs == [] then before
    else LastPath(rs[1..], if rs[0].key == PATH_KEY then Some(rs[0].value) else before)
  }

  // ---- Round trip

  lemma {:induction false} FindBlankAfter(data: seq<Byte>, i: nat, j: nat)
    requires i <= j < |data| && data[j] == BLANK
    requires forall k | i <= k < j :: data[k] != BLANK
    ensures FindBlank(data, i) == Some(j)
    decreases j - i
  {
    if i < j { FindBlankAfter(data, i + 1, j); }
  }

  lemma PathOfBody(r: Record)
    requires EQUALS !in r.key
    ensures PathOf(Body(r)) == if r.key == PATH_KEY then Some(r.value) else None
  {
    var record := Body(r);
    var text := r.key + [EQUALS] + r.value;
    assert record[..|record| - 1] == text;
    assert forall k | 0 <= k < |r.key| :: text[k] == r.key[k] && r.key[k] != EQUALS;
    assert text[|r.key|] == EQUALS;
    if r.key == PATH_KEY {
      assert text[..5] == PATH_KEY + [EQUALS] && text[5..] == r.value;
    } else if |text| >= 5 {
      assert |r.key| < 4 ==> text[..5][|r.key|] == EQUALS;
      assert |r.key| > 4 ==> text[..5][4] == r.key[4];
      assert |r.key| == 4 ==> text[..5][..4] == r.key;
      assert (PATH_KEY + [EQUALS])[..4] == PATH_KEY;
    }
  }

  /** The first record of a stream that begins with an encoded record. */
  lemma RecordEndOfEncoded(r: Record, rest: seq<Byte>)
    requires |Encode(r)| <= U64_MAX
    ensures var data := Encode(r) + rest; var n := |Encode(r)|;
      data != [] && RecordEnd(data, 0) == Some((n - |Body(r)| - 1, n)) && data[n - |Body(r)|..n] == Body(r)
  {
    var data := Encode(r) + rest;
    var n := OwnLength(|Body(r)| + 1);
    var digits := Digits(n, 10);
    assert |Encode(r)| == n;
    forall k | 0 <= k < |digits| ensures data[k] != BLANK { assert IsDigitIn(digits[k], 10); }
    FindBlankAfter(data, 0, |digits|);
    assert data[0..|digits|] == digits;
    ParseDigits(n, 10);
  }

  /** Reading from an offset is reading what is left. */
  lemma {:induction false} ParseSuffix(a: seq<Byte>, b: seq<Byte>, i: nat, path: Option<seq<Byte>>)
    requires i <= |b|
    ensures ParseFrom(a + b, |a| + i, path) == ParseFrom(b, i, path)
    decreases |b| - i
  {
    hide RecordEnd, PathOf;
    if i < |b| {
      RecordEndSuffix(a, b, i);
      var end := RecordEnd(b, i);
      if end.Some? {
        var (s, e) := end.value;
        assert (a + b)[|a| + s + 1..|a| + e] == b[s + 1..e];
        var found := PathOf(b[s + 1..e]);
        ParseSuffix(a, b, e, if found.Some? then found else path);
      }
    }
  }

  lemma {:induction false} FindSuffix(a: seq<Byte>, b: seq<Byte>, i: nat)
    requires i <= |b|
    ensures var f, g := FindBlank(b, i), FindBlank(a + b, |a| + i);
      if f.Some? then g == Some(|a| + f.value) else g.None?
    decreases |b| - i
  {
    if i < |b| { FindSuffix(a, b, i + 1); }
  }

  lemma RecordEndSuffix(a: seq<Byte>, b: seq<Byte>, i: nat)
    requires i < |b|
    ensures var f, g := RecordEnd(b, i), RecordEnd(a + b, |a| + i);
      if f.Some? then g == Some((|a| + f.value.0, |a| + f.value.1)) else g.None?
  {
    hide Parse, FindBlank;
    FindSuffix(a, b, i);
    var space := FindBlank(b, i);
    if space.Some? {
      assert (a + b)[|a| + i..|a| + space.value] == b[i..space.value];
    }
  }

  /** Reading encoded records gives the value of the last `path` record, and none when there is none. */
  lemma {:induction false} PaxRoundTrip(rs: seq<Record>, before: Option<seq<Byte>>)
    requires |EncodeAll(rs)| <= U64_MAX
    requires forall r | r in rs :: EQUALS !in r.key
    ensures ParseFrom(EncodeAll(rs), 0, before) == Ok(LastPath(rs, before))
  {
    if rs != [] {
      var r, rest := rs[0], EncodeAll(rs[1..]);
      var n := |Encode(r)|;
      RecordEndOfEncoded(r, rest);
      assert r in rs;
      PathOfBody(r);
      var after := if r.key == PATH_KEY then Some(r.value) else before;
      assert ParseFrom(EncodeAll(rs), 0, before) == ParseFrom(EncodeAll(rs), n, after);
      ParseSuffix(Encode(r), rest, 0, after);
      PaxRoundTrip(rs[1..], after);
    }
  }

  // ---- What is accepted

  /** A record as it lies in the payload: the text of its length, a blank, and the rest. */
  datatype RawRecord = RawRecord(length: seq<Byte>, rest: seq<Byte>)

  predicate RawRecordOk(r: RawRecord) {
    BLANK !in r.length && r.rest != [] && Parse(r.length, 10) == Some(|r.length| + 1 + |r.rest|)
  }

  function FlatRecords(rs: seq<RawRecord>): seq<Byte> {
    if rs == [] then [] else rs[0].length + [32] + rs[0].rest + FlatRecords(rs[1..])
  }

  /** The path that the last record with one gives. */
  function LastRawPath(rs: seq<RawRecord>, before: Option<seq<Byte>>): Option<seq<Byte>> {
    if rs == [] then before
    else
      var found := PathOf(rs[|rs| - 1].rest);
      if found.Some? then found else LastRawPath(rs[..|rs| - 1], before)
  }

  lemma {:induction false} LastRawPathFirst(r: RawRecord, rs: seq<RawRecord>, before: Option<seq<Byte>>)
    ensures LastRawPath([r] + rs, before) == LastRawPath(rs, if PathOf(r.rest).Some? then PathOf(r.rest) else before)
  {
    hide PathOf;
    var all := [r] + rs;
    if rs == [] {
      assert all[..0] == [] && all == [r];
    } else {
      assert all[..|all| - 1] == [r] + rs[..|rs| - 1];
      LastRawPathFirst(r, rs[..|rs| - 1], before);
    }
  }

  lemma {:induction false} FoundBlankIsFirst(data: seq<Byte>, i: nat)
    requires i <= |data|
    ensures var j := FindBlank(data, i); j.Some? ==> BLANK !in data[i..j.value]
    decreases |data| - i
  {
    if i < |data| && data[i] != BLANK {
      FoundBlankIsFirst(data, i + 1);
      var j := FindBlank(data, i);
      if j.Some? { assert data[i..j.value] == [data[i]] + data[i + 1..j.value]; }
    }
  }

  /** A payload is accepted only when it is records one after the other, each as long as it says; and then its path is
      that of the last record which has one. */
  lemma {:induction false} ParsedIsRecords(data: seq<Byte>, offset: nat, path: Option<seq<Byte>>) returns (rs: seq<RawRecord>)
    requires offset <= |data| && ParseFrom(data, offset, path).Ok?
    ensures (forall r | r in rs :: RawRecordOk(r)) && data[offset..] == FlatRecords(rs)
    ensures ParseFrom(data, offset, path) == Ok(LastRawPath(rs, path))
    decreases |data| - offset
  {
    hide Parse, PathOf, FindBlank, LastRawPath;
    if offset == |data| {
      rs := [];
      NoRecords(path);
    } else {
      var (space, end) := RecordEnd(data, offset).value;
      FoundBlankIsFirst(data, offset);
      var r := RawRecord(data[offset..space], data[space + 1..end]);
      var found := PathOf(r.rest);
      var more := ParsedIsRecords(data, end, if found.Some? then found else path);
      rs := [r] + more;
      LastRawPathFirst(r, more, path);
      assert rs[1..] == more;
      assert data[offset..] == r.length + [32] + r.rest + data[end..];
    }
  }

  lemma NoRecords(path: Option<seq<Byte>>)
    ensures LastRawPath([], path) == path
  {
  }
}

/** What rendering makes of the lines of a text, and where it cuts, told without its loop. */
module TerminalLayout {
  import opened Basics
  import opened TerminalEscapes
  import opened TerminalOutput

  // ---- The lines, before any limit

  predicate HasContent(raw: string) { exists i :: 0 <= i < |raw| && !IsSpace(raw[i]) }

  lemma {:induction false} StartOfBlank(s: string)
    ensures TrimStart(s) == "" <==> !HasContent(s)
  {
    hide IsSpace;
    if s != "" {
      if IsSpace(s[0]) {
        StartOfBlank(s[1..]);
        if HasContent(s) {
          var i :| 0 <= i < |s| && !IsSpace(s[i]);
          assert !IsSpace(s[1..][i - 1]);
        }
        if HasContent(s[1..]) {
          var i :| 0 <= i < |s| - 1 && !IsSpace(s[1..][i]);
          assert !IsSpace(s[i + 1]);
        }
      }
    }
  }

  lemma {:induction false} EndKeepsContent(s: string)
    ensures HasContent(TrimEnd(s)) <==> HasContent(s)
  {
    hide IsSpace;
    if s != "" && IsSpace(s[|s| - 1]) {
      var t := s[..|s| - 1];
      EndKeepsContent(t);
      if HasContent(s) {
        var i :| 0 <= i < |s| && !IsSpace(s[i]);
        assert !IsSpace(t[i]);
      }
      if HasContent(t) {
        var i :| 0 <= i < |t| && !IsSpace(t[i]);
        assert !IsSpace(s[i]);
      }
    }
  }

  lemma BlankIsContentless(raw: string)
    ensures IsBlankLine(TrimEnd(raw)) <==> !HasContent(raw)
  {
    StartOfBlank(TrimEnd(raw));
    EndKeepsContent(raw);
  }

  /** A line is kept when it has content, or when it is the last of the blank lines between two that have. */
  predicate KeptAt(raws: seq<string>, i: nat)
    requires i < |raws|
  {
    HasContent(raws[i]) || (i + 1 < |raws| && HasContent(raws[i + 1]) && exists j :: 0 <= j < i && HasContent(raws[j]))
  }

  /** Blanks at the end of a line are dropped. */
  function KeptLine(raws: seq<string>, i: nat): seq<string>
    requires i < |raws|
  {
    if !KeptAt(raws, i) then [] else if HasContent(raws[i]) then [TrimEnd(raws[i])] else [""]
  }

  /** The lines kept among the first n. */
  function Kept(raws: seq<string>, n: nat): seq<string>
    requires n <= |raws|
  {
    if n == 0 then []
    else Kept(raws, n - 1) + KeptLine(raws, n - 1)
  }

  function Collapsed(raws: seq<string>): seq<string> { Kept(raws, |raws|) }

  predicate SomeContent(raws: seq<string>) { exists j :: 0 <= j < |raws| && HasContent(raws[j]) }

  lemma {:induction false} KeptOfPrefix(raws: seq<string>, raw: string, n: nat)
    requires n < |raws| || n == 0
    ensures Kept(raws + [raw], n) == Kept(raws, n)
  {
    hide HasContent;
    if n > 0 {
      KeptOfPrefix(raws, raw, n - 1);
      var more := raws + [raw];
      assert forall i | 0 <= i < |raws| :: more[i] == raws[i];
    }
  }

  lemma {:induction false} SomeKept(raws: seq<string>, n: nat)
    requires n <= |raws|
    ensures Kept(raws, n) != [] <==> SomeContent(raws[..n])
  {
    hide HasContent;
    if n > 0 {
      SomeKept(raws, n - 1);
      var before, upTo := raws[..n - 1], raws[..n];
      assert upTo == before + [raws[n - 1]];
      if SomeContent(before) {
        var j :| 0 <= j < |before| && HasContent(before[j]);
        assert HasContent(upTo[j]);
      }
      if HasContent(raws[n - 1]) { assert HasContent(upTo[n - 1]); }
      if SomeContent(upTo) && !HasContent(raws[n - 1]) {
        var j :| 0 <= j < |upTo| && HasContent(upTo[j]);
        assert HasContent(before[j]);
      }
      if KeptAt(raws, n - 1) && !HasContent(raws[n - 1]) {
        var j :| 0 <= j < n - 1 && HasContent(raws[j]);
        assert HasContent(before[j]);
      }
    }
  }

  /** One more line. */
  lemma CollapsedNext(raws: seq<string>, raw: string)
    ensures var c := Collapsed(raws); var d := Collapsed(raws + [raw]);
      if !HasContent(raw) then d == c
      else if raws != [] && !HasContent(raws[|raws| - 1]) && c != [] then d == c + [""] + [TrimEnd(raw)]
      else d == c + [TrimEnd(raw)]
  {
    hide HasContent, Kept, KeptAt;
    var n, more := |raws|, raws + [raw];
    KeptNext(more, n + 1);
    assert more[n] == raw;
    LastLine(more);
    if n == 0 {
      KeptNone(raws);
      KeptNone(more);
    } else {
      SomeKept(raws, n);
      assert raws[..n] == raws;
      KeptOfPrefix(raws, raw, n - 1);
      KeptNext(more, n);
      KeptNext(raws, n);
      if HasContent(raws[n - 1]) { ContentIsKept(raws, raw); } else { BlankIsKept(raws, raw); }
    }
  }

  lemma KeptNone(raws: seq<string>)
    ensures Kept(raws, 0) == []
  {
  }

  lemma KeptNext(raws: seq<string>, n: nat)
    requires 0 < n <= |raws|
    ensures Kept(raws, n) == Kept(raws, n - 1) + KeptLine(raws, n - 1)
  {
    hide KeptAt, HasContent;
  }

  lemma LastLine(raws: seq<string>)
    requires raws != []
    ensures KeptLine(raws, |raws| - 1) == if HasContent(raws[|raws| - 1]) then [TrimEnd(raws[|raws| - 1])] else []
  {
    hide HasContent;
  }

  lemma ContentIsKept(raws: seq<string>, raw: string)
    requires raws != [] && HasContent(raws[|raws| - 1])
    ensures KeptLine(raws + [raw], |raws| - 1) == KeptLine(raws, |raws| - 1)
  {
    hide HasContent;
  }

  lemma BlankIsKept(raws: seq<string>, raw: string)
    requires raws != [] && !HasContent(raws[|raws| - 1])
    ensures KeptLine(raws, |raws| - 1) == []
    ensures KeptLine(raws + [raw], |raws| - 1) == if HasContent(raw) && SomeContent(raws) then [""] else []
  {
    hide HasContent;
    var n, more := |raws|, raws + [raw];
    assert more[n] == raw && more[n - 1] == raws[n - 1];
    assert forall j | 0 <= j < n :: more[j] == raws[j];
    if SomeContent(raws) {
      var j :| 0 <= j < n && HasContent(raws[j]);
      assert HasContent(more[j]) && j < n - 1;
    }
  }

  // ---- The cut

  /** The bytes of these lines when printed. */
  function Size(lines: seq<string>): nat { Utf8Length(Unlines(lines)) }

  /** Behind j lines neither limit has been reached. */
  predicate Goes(all: seq<string>, j: nat)
    requires j <= |all|
  {
    j < 128 && Size(all[..j]) < 8192
  }

  /** k is where the first 128 lines or 8192 bytes are reached, or the number of all lines. */
  predicate CutAt(all: seq<string>, k: nat) {
    && k <= |all|
    && (forall j | 0 <= j < k :: Goes(all, j))
    && (k < |all| ==> !Goes(all, k))
  }

  /** The page of these lines: all of them, or cut. */
  predicate PageOf(p: Page, all: seq<string>) {
    && |p.lines| <= |all| && p.lines == all[..|p.lines|] && CutAt(all, |p.lines|)
    && (p.truncated <==> |p.lines| < |all|)
  }

  lemma PrefixCut(all: seq<string>, more: seq<string>, k: nat)
    requires CutAt(all, k) && all <= more && (k == |all| < |more| ==> !Goes(all, k))
    ensures CutAt(more, k)
  {
    hide Size;
    forall j | 0 <= j <= k ensures Goes(more, j) <==> Goes(all, j) {
      assert more[..j] == all[..j];
    }
  }

  lemma GrownCut(all: seq<string>, line: string)
    requires CutAt(all, |all|) && !Full(all)
    ensures CutAt(all + [line], |all| + 1)
  {
    hide Size;
    var more := all + [line];
    forall j | 0 <= j <= |all| ensures Goes(more, j) {
      assert more[..j] == all[..j];
      if j == |all| { FullOrGoes(all); } else { assert Goes(all, j); }
    }
  }

  lemma FullOrGoes(all: seq<string>)
    ensures Full(all) <==> !Goes(all, |all|)
  {
    assert all[..|all|] == all;
  }

  /** The page of the first lines, and whether a blank line waits. */
  lemma {:induction false} LayoutIsCut(raws: seq<string>)
    ensures var p := Layout(EMPTY_PAGE, raws);
      && PageOf(p, Collapsed(raws))
      && (!p.truncated ==>
            (p.pending <==> raws != [] && !HasContent(raws[|raws| - 1]) && Collapsed(raws) != []))
    decreases |raws|
  {
    hide Goes, Full, HasContent, TrimEnd, Collapsed;
    if raws == [] {
      NothingCollapsed();
    } else {
      var n := |raws| - 1;
      var before, raw := raws[..n], raws[n];
      assert raws == before + [raw];
      LayoutIsCut(before);
      LayoutNext(before, raw);
      CollapsedNext(before, raw);
      BlankIsContentless(raw);
      var c, d, p := Collapsed(before), Collapsed(raws), Layout(EMPTY_PAGE, before);
      if p.truncated {
        PrefixCut(c, d, |p.lines|);
        assert d[..|p.lines|] == c[..|p.lines|];
      } else {
        assert c[..|c|] == c;
        if HasContent(raw) { PushIsCut(p, raw, c, d); }
      }
    }
  }

  lemma NothingCollapsed()
    ensures Collapsed([]) == [] && Layout(EMPTY_PAGE, []) == EMPTY_PAGE
  {
  }

  lemma LayoutNext(raws: seq<string>, raw: string)
    ensures Layout(EMPTY_PAGE, raws + [raw]) == Push(Layout(EMPTY_PAGE, raws), raw)
  {
    assert (raws + [raw])[..|raws|] == raws;
  }

  lemma PushIsCut(p: Page, raw: string, c: seq<string>, d: seq<string>)
    requires !p.truncated && p.lines == c && CutAt(c, |c|) && !IsBlankLine(TrimEnd(raw))
    requires d == if p.pending then c + [""] + [TrimEnd(raw)] else c + [TrimEnd(raw)]
    ensures var q := Push(p, raw); PageOf(q, d) && (!q.truncated ==> !q.pending)
  {
    hide Full, Goes, Size, TrimEnd, IsBlankLine;
    var line := TrimEnd(raw);
    FullOrGoes(c);
    if Full(c) {
      PrefixCut(c, d, |c|);
      assert d[..|c|] == c;
    } else if p.pending {
      var blanked := c + [""];
      GrownCut(c, "");
      FullOrGoes(blanked);
      if Full(blanked) {
        PrefixCut(blanked, d, |blanked|);
        assert d[..|blanked|] == blanked;
      } else {
        GrownCut(blanked, line);
        assert d[..|d|] == d;
      }
    } else {
      GrownCut(c, line);
      assert d[..|d|] == d;
    }
  }

  /** The first k lines and, when these are not all, the marker. */
  predicate PrintedAs(output: string, all: seq<string>, k: nat) {
    k <= |all| && output == Unlines(all[..k]) + if k < |all| then "\n[output truncated]\n" else ""
  }

  lemma TextIsPrinted(p: Page, all: seq<string>)
    requires PageOf(p, all)
    ensures PrintedAs(p.Text(), all, |p.lines|)
  {
    hide Unlines, CutAt;
    assert "\n" + MARKER + "\n" == "\n[output truncated]\n";
  }

  /** All lines of a reply, before any limit. */
  function AllLines(content: string): seq<string> { Collapsed(Lines(Normalized(content))) }

  /** What is printed, for every reply: its lines with content, one blank line between two of them where there was one
      or more, cut behind the first place where 128 lines or 8192 bytes of UTF-8 are reached, and marked exactly when
      something was cut. So there are at most 128 lines, and all but the last of them are shorter than 8192 bytes. */
  lemma RenderedIsCut(content: string)
    ensures exists k: nat :: k <= 128 && CutAt(AllLines(content), k) && PrintedAs(Rendered(content), AllLines(content), k)
  {
    var raws := Lines(Normalized(content));
    LaidOutIsCut(raws);
    var k: nat :| k <= 128 && CutAt(Collapsed(raws), k) && PrintedAs(Layout(EMPTY_PAGE, raws).Text(), Collapsed(raws), k);
    assert AllLines(content) == Collapsed(raws);
    assert Rendered(content) == Layout(EMPTY_PAGE, raws).Text();
    assert CutAt(AllLines(content), k);
    assert PrintedAs(Rendered(content), AllLines(content), k);
  }

  lemma LaidOutIsCut(raws: seq<string>)
    ensures var all := Collapsed(raws);
      exists k: nat :: k <= 128 && CutAt(all, k) && PrintedAs(Layout(EMPTY_PAGE, raws).Text(), all, k)
  {
    hide Size, Collapsed;
    LayoutIsCut(raws);
    var all, p := Collapsed(raws), Layout(EMPTY_PAGE, raws);
    var k := |p.lines|;
    if k > 0 { assert Goes(all, k - 1); }
    TextIsPrinted(p, all);
  }

  // ---- Line separators

  lemma {:induction false} SeparatorsConcat(a: string, b: string)
    ensures NormalizeSeparators(a + b) == NormalizeSeparators(a) + NormalizeSeparators(b)
  {
    if a == "" {
      assert a + b == b;
    } else {
      assert (a + b)[0] == a[0] && (a + b)[1..] == a[1..] + b;
      SeparatorsConcat(a[1..], b);
    }
  }

  /** U+2028 and U+2029 break a line, as a newline does. */
  lemma SeparatorsBreakLines(a: string, c: char, b: string)
    requires StateAfter(Ground, a) == Ground && (c == '\U{2028}' || c == '\U{2029}')
    ensures Rendered(a + [c] + b) == Rendered(a + "\n" + b)
  {
    StrippedAround(a, c, b);
    StrippedAround(a, '\n', b);
    var x, y := Strip(a), Strip(b);
    assert NormalizeSeparators([c]) == "\n" == NormalizeSeparators("\n") by {
      assert [c][1..] == "" && "\n"[1..] == "";
    }
    SeparatorsConcat(x + [c], y);
    SeparatorsConcat(x, [c]);
    SeparatorsConcat(x + "\n", y);
    SeparatorsConcat(x, "\n");
    assert Normalized(a + [c] + b) == Normalized(a + "\n" + b);
  }

  /** A carriage return, a vertical tab, a form feed and U+0085 do not: they are dropped with the other controls. */
  lemma ControlsAreDropped(a: string, c: char, b: string)
    requires StateAfter(Ground, a) == Ground
    requires c == '\r' || c == '\U{0B}' || c == '\U{0C}' || c == '\U{85}'
    ensures Rendered(a + [c] + b) == Rendered(a + b)
  {
    StrippedAround(a, c, b);
    StripSplits(Ground, a, b);
    assert Strip(a) + "" + Strip(b) == Strip(a) + Strip(b);
  }

  /** A character in the ground state is kept or dropped by itself. */
  lemma StrippedAround(a: string, c: char, b: string)
    requires StateAfter(Ground, a) == Ground && c != ESC
    ensures Strip(a + [c] + b) ==
            Strip(a) + (if c == '\n' || c == '\t' || !IsControl(c) then [c] else "") + Strip(b)
  {
    assert [c][1..] == "";
    assert StripFrom(Ground, [c]) == (if c == '\n' || c == '\t' || !IsControl(c) then [c] else "");
    assert StateAfter(Ground, [c]) == Ground;
    StripSplits(Ground, a, [c]);
    StripSplits(Ground, a + [c], b);
  }

  // ---- The bytes that are counted

  /** The bytes of a character (section 3 of RFC 3629). */
  function Utf8(c: char): seq<Byte> {
    var n := c as int;
    if n < 0x80 then [n]
    else if n < 0x800 then [0xC0 + n / 0x40, 0x80 + n % 0x40]
    else if n < 0x10000 then [0xE0 + n / 0x1000, 0x80 + n / 0x40 % 0x40, 0x80 + n % 0x40]
    else [0xF0 + n / 0x40000, 0x80 + n / 0x1000 % 0x40, 0x80 + n / 0x40 % 0x40, 0x80 + n % 0x40]
  }

  function Encoded(s: string): seq<Byte> {
    if s == "" then [] else Utf8(s[0]) + Encoded(s[1..])
  }

  /** What is counted is the number of bytes. */
  lemma {:induction false} CountsBytes(s: string)
    ensures |Encoded(s)| == Utf8Length(s)
  {
    if s != "" { CountsBytes(s[1..]); }
  }

  /** The character that starts a text of such bytes. */
  function Decoded(b: seq<Byte>): int
    requires b != []
  {
    var n: int := b[0];
    if n < 0x80 || |b| < 2 then n
    else if n < 0xE0 || |b| < 3 then (n - 0xC0) * 0x40 + Tail(b[1])
    else if n < 0xF0 || |b| < 4 then (n - 0xE0) * 0x1000 + Tail(b[1]) * 0x40 + Tail(b[2])
    else (n - 0xF0) * 0x40000 + Tail(b[1]) * 0x1000 + Tail(b[2]) * 0x40 + Tail(b[3])
  }

  function Tail(n: int): int { n - 0x80 }

  /** No text of bytes stands for two characters, whatever follows. */
  lemma Utf8IsRead(c: char, rest: seq<Byte>)
    ensures Utf8(c) + rest != [] && Decoded(Utf8(c) + rest) == c as int
  {
    var n := c as int;
    assert n == n / 0x40 * 0x40 + n % 0x40;
    assert n / 0x40 == n / 0x1000 * 0x40 + n / 0x40 % 0x40 by { assert n / 0x40 / 0x40 == n / 0x1000; }
    assert n / 0x1000 == n / 0x40000 * 0x40 + n / 0x1000 % 0x40 by { assert n / 0x1000 / 0x40 == n / 0x40000; }
  }
}

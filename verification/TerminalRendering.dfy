/** What rendered model output looks like, and that rendering it again changes nothing. */
module TerminalRendering {
  import opened Basics
  import opened TerminalEscapes
  import opened TerminalOutput

  // ---- Characters that rendering leaves alone

  predicate Plain(c: char) {
    (c == '\n' || c == '\t' || !IsControl(c)) && !IsSeparator(c)
  }

  predicate PlainText(s: string) { forall i | 0 <= i < |s| :: Plain(s[i]) }

  lemma {:induction false} SeparatorsOfPlain(s: string)
    requires PlainText(s)
    ensures NormalizeSeparators(s) == s && ReplaceCrLf(s) == s && ReplaceCr(s) == s
  {
    if s != "" {
      assert Plain(s[0]);
      SeparatorsOfPlain(s[1..]);
      assert s == [s[0]] + s[1..];
    }
  }

  lemma {:induction false} NormalizeHarmless(s: string)
    requires Harmless(s)
    ensures PlainText(NormalizeSeparators(s))
  {
    if s != "" {
      assert s[0] == '\n' || s[0] == '\t' || !IsControl(s[0]);
      NormalizeHarmless(s[1..]);
    }
  }

  /** The handling of carriage returns behind the escape filter never acts: the filter has already removed
      every one, so a lone carriage return is dropped and does not become a line break. */
  lemma CarriageReturnsAreAlreadyGone(content: string)
    ensures Normalized(content) == Trim(NormalizeSeparators(Strip(content)))
    ensures PlainText(NormalizeSeparators(Strip(content)))
  {
    StripIsHarmless(Ground, content);
    NormalizeHarmless(Strip(content));
    SeparatorsOfPlain(NormalizeSeparators(Strip(content)));
  }

  // ---- Trimming

  lemma {:induction false} TrimEndShape(s: string)
    ensures var t := TrimEnd(s);
      && t <= s && TrimEnd(t) == t && (t != "" ==> !IsSpace(t[|t| - 1]))
      && (s != "" && !IsSpace(s[0]) ==> t != "")
    decreases |s|
  {
    if s != "" && IsSpace(s[|s| - 1]) { TrimEndShape(s[..|s| - 1]); }
  }

  lemma {:induction false} TrimStartShape(s: string)
    ensures var t := TrimStart(s);
      && (t != "" ==> !IsSpace(t[0])) && |t| <= |s| && t == s[|s| - |t|..]
      && (s != "" && !IsSpace(s[|s| - 1]) ==> t != "")
  {
    if s != "" && IsSpace(s[0]) { TrimStartShape(s[1..]); }
  }

  lemma TrimShape(s: string)
    ensures var t := Trim(s); (t != "" ==> !IsSpace(t[0])) && (PlainText(s) ==> PlainText(t))
  {
    var u := TrimStart(s);
    TrimStartShape(s);
    TrimEndShape(u);
    var t := Trim(s);
    if t != "" { assert t[0] == u[0]; }
    if PlainText(s) {
      forall i | 0 <= i < |t| ensures Plain(t[i]) {
        assert t[i] == u[i] == s[|s| - |u| + i];
      }
    }
  }

  // ---- Lines

  predicate OneLine(s: string) { PlainText(s) && '\n' !in s }

  /** A line that is pushed: it ends in a character that is not blank. */
  predicate Solid(line: string) {
    OneLine(line) && line != "" && !IsSpace(line[|line| - 1])
  }

  lemma SolidLine(line: string)
    requires Solid(line)
    ensures TrimEnd(line) == line && !IsBlankLine(line)
  {
    TrimEndShape(line);
    TrimStartShape(line);
  }

  lemma {:induction false} NewlineIndexShape(s: string)
    ensures var n := NewlineIndex(s); '\n' !in s[..n] && (n < |s| ==> s[n] == '\n')
  {
    if s != "" && s[0] != '\n' {
      NewlineIndexShape(s[1..]);
      var n := NewlineIndex(s);
      assert s[..n] == [s[0]] + s[1..][..n - 1];
    }
  }

  lemma {:induction false} LinesShape(s: string)
    requires PlainText(s)
    ensures forall line | line in Lines(s) :: OneLine(line)
    ensures s != "" && s[0] != '\n' ==> Lines(s) != [] && Lines(s)[0] != "" && Lines(s)[0][0] == s[0]
    decreases |s|
  {
    if s != "" {
      var n := NewlineIndex(s);
      NewlineIndexShape(s);
      if n == |s| {
        assert s[..n] == s;
      } else {
        assert n > 0 ==> Plain(s[n - 1]);
        LinesShape(s[n + 1..]);
        assert OneLine(s[..n]);
      }
    }
  }

  lemma {:induction false} NewlineIndexOf(line: string, rest: string)
    requires '\n' !in line
    ensures NewlineIndex(line + ("\n" + rest)) == |line|
    ensures NewlineIndex(line) == |line|
  {
    if line == "" {
      assert line + ("\n" + rest) == "\n" + rest;
    } else {
      assert line[0] in line;
      NewlineIndexOf(line[1..], rest);
      assert (line + ("\n" + rest))[1..] == line[1..] + ("\n" + rest);
    }
  }

  /** Lines, each ended by a newline, with the last newline cut off. */
  function Joined(lines: seq<string>): string
    requires lines != []
  {
    if |lines| == 1 then lines[0] else lines[0] + ("\n" + Joined(lines[1..]))
  }

  lemma {:induction false} UnlinesJoined(lines: seq<string>)
    requires lines != []
    ensures Unlines(lines) == Joined(lines) + "\n"
    ensures lines[0] <= Joined(lines)
    ensures var last := lines[|lines| - 1];
      last != "" ==> Joined(lines) != "" && Joined(lines)[|Joined(lines)| - 1] == last[|last| - 1]
  {
    if |lines| == 1 {
      assert lines[1..] == [];
    } else {
      UnlinesJoined(lines[1..]);
      assert lines[0] + "\n" + Unlines(lines[1..]) == lines[0] + ("\n" + Joined(lines[1..])) + "\n";
    }
  }

  /** The first line of a text, and the lines of what follows it. */
  lemma LinesCons(line: string, rest: string)
    requires OneLine(line) && rest != ""
    ensures Lines(line + ("\n" + rest)) == [line] + Lines(rest)
  {
    var s := line + ("\n" + rest);
    NewlineIndexOf(line, rest);
    assert s[|line| + 1..] == rest && s[..|line|] == line;
    if line != "" { assert Plain(line[|line| - 1]); }
  }

  lemma {:induction false} LinesOfJoined(lines: seq<string>)
    requires lines != [] && lines[|lines| - 1] != ""
    requires forall line | line in lines :: OneLine(line)
    ensures Lines(Joined(lines)) == lines && Joined(lines) != ""
  {
    hide Lines;
    assert lines[0] in lines;
    if |lines| == 1 {
      LinesOfOne(lines[0]);
    } else {
      LinesOfJoined(lines[1..]);
      LinesCons(lines[0], Joined(lines[1..]));
      assert lines == [lines[0]] + lines[1..];
    }
  }

  lemma LinesOfOne(line: string)
    requires OneLine(line) && line != ""
    ensures Lines(line) == [line]
  {
    NewlineIndexOf(line, "");
  }

  // ---- Pages that a layout can reach

  /** Laying the lines out again gives them back. */
  predicate Replays(lines: seq<string>) {
    Layout(EMPTY_PAGE, lines) == Page(lines, false, false)
  }

  predicate LinesOk(lines: seq<string>) {
    && |lines| <= MAX_LINES
    && (forall i | 0 <= i < |lines| :: lines[i] == "" || Solid(lines[i]))
    && (forall i | 0 <= i < |lines| - 1 :: lines[i] != "" || lines[i + 1] != "")
    && (lines != [] ==> lines[0] != "")
  }

  predicate Good(p: Page) {
    && LinesOk(p.lines)
    && (p.truncated || p.pending ==> p.lines != [])
    && if !p.truncated then (p.lines != [] ==> p.lines[|p.lines| - 1] != "") && Replays(p.lines)
       else
         var n := |p.lines| - 1;
         && Full(p.lines)
         && if p.lines[n] != "" then Replays(p.lines)
            else n > 0 && Replays(p.lines[..n]) && !Full(p.lines[..n])
  }

  lemma LayoutSnoc(p: Page, raws: seq<string>, raw: string)
    ensures Layout(p, raws + [raw]) == Push(Layout(p, raws), raw)
  {
    assert (raws + [raw])[..|raws|] == raws;
  }

  lemma ReplaysSolid(lines: seq<string>, line: string)
    requires Replays(lines) && !Full(lines) && Solid(line)
    ensures Replays(lines + [line])
  {
    LayoutSnoc(EMPTY_PAGE, lines, line);
    SolidLine(line);
  }

  lemma LayoutBlank(lines: seq<string>)
    requires Replays(lines) && lines != []
    ensures Layout(EMPTY_PAGE, lines + [""]) == Page(lines, true, false)
  {
    LayoutSnoc(EMPTY_PAGE, lines, "");
  }

  lemma ReplaysBlankSolid(lines: seq<string>, line: string)
    requires Replays(lines) && lines != [] && !Full(lines) && !Full(lines + [""]) && Solid(line)
    ensures Replays(lines + [""] + [line])
  {
    LayoutBlank(lines);
    LayoutSnoc(EMPTY_PAGE, lines + [""], line);
    SolidLine(line);
  }

  lemma NothingIsNotFull()
    ensures !Full([])
  {
    assert Unlines([]) == "" && Utf8Length("") == 0;
  }

  lemma TrimmedIsSolid(raw: string)
    requires OneLine(raw) && !IsBlankLine(TrimEnd(raw))
    ensures Solid(TrimEnd(raw))
  {
    var line := TrimEnd(raw);
    TrimEndShape(raw);
    forall i | 0 <= i < |line| ensures Plain(line[i]) && line[i] != '\n' {
      assert line[i] == raw[i];
    }
  }

  lemma GrownGood(lines: seq<string>, line: string)
    requires LinesOk(lines) && !Full(lines) && Solid(line) && Replays(lines + [line])
    ensures Good(Page(lines + [line], false, false))
  {
  }

  lemma PushGood(p: Page, raw: string)
    requires Good(p) && OneLine(raw)
    ensures Good(Push(p, raw))
  {
    hide Layout, Utf8Length, Unlines, Replays;
    var line := TrimEnd(raw);
    NothingIsNotFull();
    if !p.truncated && !IsBlankLine(line) && !Full(p.lines) {
      TrimmedIsSolid(raw);
      if p.pending {
        var blanked := p.lines + [""];
        assert blanked[..|blanked| - 1] == p.lines;
        if !Full(blanked) {
          ReplaysBlankSolid(p.lines, line);
          GrownGood(blanked, line);
        }
      } else {
        ReplaysSolid(p.lines, line);
        GrownGood(p.lines, line);
      }
    }
  }

  lemma {:induction false} LayoutGood(raws: seq<string>)
    requires forall raw | raw in raws :: OneLine(raw)
    ensures Good(Layout(EMPTY_PAGE, raws))
    decreases |raws|
  {
    if raws != [] {
      var n := |raws| - 1;
      LayoutGood(raws[..n]);
      assert raws[n] in raws;
      PushGood(Layout(EMPTY_PAGE, raws[..n]), raws[n]);
    }
  }

  lemma {:induction false} LayoutStartsSolid(raws: seq<string>)
    requires raws != [] && raws[0] != "" && !IsSpace(raws[0][0])
    ensures var lines := Layout(EMPTY_PAGE, raws).lines;
      lines != [] && lines[0] != "" && lines[0][0] == raws[0][0]
    decreases |raws|
  {
    var n := |raws| - 1;
    if n == 0 {
      assert Layout(EMPTY_PAGE, raws[..0]) == EMPTY_PAGE;
      TrimEndShape(raws[0]);
      TrimStartShape(TrimEnd(raws[0]));
      assert Layout(EMPTY_PAGE, raws) == Push(EMPTY_PAGE, raws[0]);
      assert Unlines([]) == "" && Utf8Length("") == 0 && !Full([]);
    } else {
      assert raws[..n][0] == raws[0];
      LayoutStartsSolid(raws[..n]);
    }
  }

  /** The lines of the text of a page. */
  function View(p: Page): seq<string> {
    if p.truncated then p.lines + [""] + [MARKER] else p.lines
  }

  lemma TextOfView(p: Page)
    ensures p.Text() == Unlines(View(p))
  {
    if p.truncated {
      UnlinesSnoc(p.lines, "");
      UnlinesSnoc(p.lines + [""], MARKER);
      assert Unlines(p.lines) + "" == Unlines(p.lines);
    }
  }

  lemma MarkerIsSolid()
    ensures Solid(MARKER)
  {
  }

  lemma ViewOneLine(p: Page)
    requires Good(p)
    ensures forall line | line in View(p) :: OneLine(line)
    ensures p.lines != [] ==> Solid(View(p)[|View(p)| - 1])
  {
    MarkerIsSolid();
  }

  /** Laying out the lines of a page's text gives a page with the same text. */
  lemma LayoutView(p: Page)
    requires Good(p)
    ensures Layout(EMPTY_PAGE, View(p)).lines == p.lines
    ensures Layout(EMPTY_PAGE, View(p)).truncated == p.truncated
  {
    if p.truncated {
      var n := |p.lines| - 1;
      MarkerIsSolid();
      SolidLine(MARKER);
      if p.lines[n] != "" {
        LayoutBlank(p.lines);
      } else {
        var kept := p.lines[..n];
        assert p.lines == kept + [""];
        LayoutBlank(kept);
        LayoutSnoc(EMPTY_PAGE, kept + [""], "");
      }
      LayoutSnoc(EMPTY_PAGE, p.lines + [""], MARKER);
    }
  }

  lemma {:induction false} PlainUnlines(lines: seq<string>)
    requires forall line | line in lines :: OneLine(line)
    ensures PlainText(Unlines(lines))
  {
    if lines != [] {
      assert OneLine(lines[0]);
      PlainUnlines(lines[1..]);
    }
  }

  /** The lines that are read back from the text of a page. */
  lemma TextReadsBack(p: Page)
    requires Good(p) && p.lines != [] && !IsSpace(p.lines[0][0])
    ensures Lines(Normalized(p.Text())) == View(p)
  {
    hide Trim, Lines, Strip, NormalizeSeparators, ReplaceCr, ReplaceCrLf, Unlines;
    var view, text := View(p), p.Text();
    TextOfView(p);
    ViewOneLine(p);
    PlainUnlines(view);
    assert Harmless(text) by {
      forall i | 0 <= i < |text| ensures text[i] == '\n' || text[i] == '\t' || !IsControl(text[i]) {
        assert Plain(text[i]);
      }
    }
    StripKeepsHarmless(text);
    SeparatorsOfPlain(text);
    UnlinesJoined(view);
    var joined := Joined(view);
    assert view[0] == p.lines[0] && joined != "";
    TrimJoined(joined);
    LinesOfJoined(view);
  }

  lemma TrimJoined(joined: string)
    requires joined != "" && !IsSpace(joined[0]) && !IsSpace(joined[|joined| - 1])
    ensures Trim(joined + "\n") == joined
  {
    var text := joined + "\n";
    assert TrimStart(text) == text;
    assert text[..|text| - 1] == joined;
    assert TrimEnd(text) == TrimEnd(joined) == joined;
  }

  lemma RenderedPageGood(content: string)
    ensures var p := RenderedPage(content);
      Good(p) && (p.lines != [] ==> p.lines[0] != "" && !IsSpace(p.lines[0][0]))
  {
    CarriageReturnsAreAlreadyGone(content);
    var text := Normalized(content);
    TrimShape(NormalizeSeparators(Strip(content)));
    LinesShape(text);
    LayoutGood(Lines(text));
    if text != "" {
      LayoutStartsSolid(Lines(text));
    }
  }

  /** Rendering is idempotent on every input, truncated or not. */
  lemma RenderIsIdempotent(content: string)
    ensures Rendered(Rendered(content)) == Rendered(content)
  {
    var p := RenderedPage(content);
    RenderedPageGood(content);
    if p.lines == [] {
      assert Rendered(content) == "" by { assert Unlines([]) + "" == ""; }
      assert Normalized("") == "";
      assert Lines("") == [];
      assert RenderedPage("") == EMPTY_PAGE;
    } else {
      TextReadsBack(p);
      LayoutView(p);
      assert RenderedPage(p.Text()).lines == p.lines && RenderedPage(p.Text()).truncated == p.truncated;
    }
  }

  /** The shape of every rendered text: at most 130 lines; within them, up to the marker, no blank line at
      either edge and no two in a row. */
  lemma RenderedShape(content: string)
    ensures var p := RenderedPage(content);
      && Rendered(content) == Unlines(View(p)) && |View(p)| <= MAX_LINES + 2
      && (forall line | line in View(p) :: OneLine(line))
      && (forall i | 0 <= i < |p.lines| - 1 :: p.lines[i] != "" || p.lines[i + 1] != "")
      && (p.lines != [] ==> p.lines[0] != "" && !IsSpace(p.lines[0][0]))
      && (forall line | line in p.lines && line != "" :: !IsSpace(line[|line| - 1]))
      && (!p.truncated && p.lines != [] ==> p.lines[|p.lines| - 1] != "")
      && (p.truncated <==> View(p) != p.lines)
  {
    var p := RenderedPage(content);
    RenderedPageGood(content);
    TextOfView(p);
    ViewOneLine(p);
  }

  // ---- Nothing but blank lines and trailing blanks is lost

  function SolidLines(raws: seq<string>): seq<string> {
    if raws == [] then []
    else
      var line := TrimEnd(raws[|raws| - 1]);
      SolidLines(raws[..|raws| - 1]) + if IsBlankLine(line) then [] else [line]
  }

  lemma SolidLinesSnoc(raws: seq<string>, raw: string)
    ensures SolidLines(raws + [raw]) == SolidLines(raws) + if IsBlankLine(TrimEnd(raw)) then [] else [TrimEnd(raw)]
  {
    assert (raws + [raw])[..|raws|] == raws;
  }

  lemma PushKeepsSolid(p: Page, raw: string)
    requires !p.truncated && !Push(p, raw).truncated
    ensures SolidLines(Push(p, raw).lines) == SolidLines(p.lines) + if IsBlankLine(TrimEnd(raw)) then [] else [TrimEnd(raw)]
  {
    var line := TrimEnd(raw);
    TrimEndShape(raw);
    if !IsBlankLine(line) {
      if p.pending {
        SolidLinesSnoc(p.lines, "");
        SolidLinesSnoc(p.lines + [""], line);
      } else {
        SolidLinesSnoc(p.lines, line);
      }
    }
  }

  lemma TruncatingKeepsSolid(p: Page, raw: string)
    requires !p.truncated && Push(p, raw).truncated
    ensures SolidLines(Push(p, raw).lines) == SolidLines(p.lines)
  {
    SolidLinesSnoc(p.lines, "");
  }

  /** The lines of the page that are not blank are those of the text, in order: all of them when the output
      is not cut, the first ones when it is. */
  lemma {:induction false} LayoutKeepsSolid(raws: seq<string>)
    ensures var p := Layout(EMPTY_PAGE, raws);
      if p.truncated then SolidLines(p.lines) <= SolidLines(raws) else SolidLines(p.lines) == SolidLines(raws)
    decreases |raws|
  {
    if raws != [] {
      var n := |raws| - 1;
      var before := Layout(EMPTY_PAGE, raws[..n]);
      LayoutKeepsSolid(raws[..n]);
      if !before.truncated {
        if Push(before, raws[n]).truncated {
          TruncatingKeepsSolid(before, raws[n]);
        } else {
          PushKeepsSolid(before, raws[n]);
        }
      }
    }
  }
}

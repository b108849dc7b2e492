/** The layout of model output for the terminal: blank runs collapsed, edges trimmed, size bounded. */
module TerminalOutput {
  import opened Basics
  import opened TerminalEscapes

  const MAX_LINES: nat := 128
  const MAX_BYTES: nat := 8 * 1024
  const MARKER: string := "[output truncated]"

  /** The Unicode property White_Space, as in `char::is_whitespace`. */
  predicate IsSpace(c: char) {
    var n := c as int;
    || 9 <= n <= 13 || n == 0x20 || n == 0x85 || n == 0xA0 || n == 0x1680 || 0x2000 <= n <= 0x200A
    || n == 0x2028 || n == 0x2029 || n == 0x202F || n == 0x205F || n == 0x3000
  }

  predicate IsSeparator(c: char) {
    var n := c as int;
    n == 0x85 || n == 0x2028 || n == 0x2029 || n == 0x0B || n == 0x0C
  }

  function NormalizeLineSeparator(c: char): char {
    if IsSeparator(c) then '\n' else c
  }

  function NormalizeSeparators(s: string): string {
    if s == "" then "" else [NormalizeLineSeparator(s[0])] + NormalizeSeparators(s[1..])
  }

  /** `replace("\r\n", "\n")`. */
  function ReplaceCrLf(s: string): string {
    if s == "" then ""
    else if |s| >= 2 && s[0] == '\r' && s[1] == '\n' then "\n" + ReplaceCrLf(s[2..])
    else [s[0]] + ReplaceCrLf(s[1..])
  }

  /** `replace('\r', "\n")`. */
  function ReplaceCr(s: string): string {
    if s == "" then "" else [if s[0] == '\r' then '\n' else s[0]] + ReplaceCr(s[1..])
  }

  function TrimStart(s: string): string {
    if s != "" && IsSpace(s[0]) then TrimStart(s[1..]) else s
  }

  function TrimEnd(s: string): string {
    if s != "" && IsSpace(s[|s| - 1]) then TrimEnd(s[..|s| - 1]) else s
  }

  function Trim(s: string): string { TrimEnd(TrimStart(s)) }

  function NewlineIndex(s: string): (n: nat)
    ensures n <= |s|
  {
    if s == "" || s[0] == '\n' then 0 else 1 + NewlineIndex(s[1..])
  }

  /** `str::lines`: a last line need not be ended, and a carriage return before a line's end is dropped. */
  function Lines(s: string): seq<string>
    decreases |s|
  {
    if s == "" then []
    else
      var n := NewlineIndex(s);
      if n == |s| then [s]
      else [if n > 0 && s[n - 1] == '\r' then s[..n - 1] else s[..n]] + Lines(s[n + 1..])
  }

  /** The number of bytes of a text in UTF-8. */
  function Utf8Length(s: string): nat {
    if s == "" then 0
    else
      var n := s[0] as int;
      (if n < 0x80 then 1 else if n < 0x800 then 2 else if n < 0x10000 then 3 else 4) + Utf8Length(s[1..])
  }

  function Unlines(lines: seq<string>): string {
    if lines == [] then "" else lines[0] + "\n" + Unlines(lines[1..])
  }

  predicate IsBlankLine(line: string) { TrimStart(line) == "" }

  /** The lines pushed so far, whether a blank line waits, and whether the output was cut. */
  datatype Page = Page(lines: seq<string>, pending: bool, truncated: bool) {
    function Text(): string {
      Unlines(lines) + if truncated then "\n" + MARKER + "\n" else ""
    }
  }

  const EMPTY_PAGE := Page([], false, false)

  predicate Full(lines: seq<string>) {
    |lines| >= MAX_LINES || Utf8Length(Unlines(lines)) >= MAX_BYTES
  }

  function Push(p: Page, raw: string): Page {
    var line := TrimEnd(raw);
    if p.truncated then p
    else if IsBlankLine(line) then p.(pending := |p.lines| > 0)
    else if Full(p.lines) then Page(p.lines, p.pending, true)
    else
      var lines := if p.pending then p.lines + [""] else p.lines;
      if Full(lines) then Page(lines, false, true) else Page(lines + [line], false, false)
  }

  function Layout(p: Page, raws: seq<string>): Page {
    if raws == [] then p else Push(Layout(p, raws[..|raws| - 1]), raws[|raws| - 1])
  }

  function Normalized(content: string): string {
    Trim(ReplaceCr(ReplaceCrLf(NormalizeSeparators(Strip(content)))))
  }

  function RenderedPage(content: string): Page {
    Layout(EMPTY_PAGE, Lines(Normalized(content)))
  }

  function Rendered(content: string): string {
    RenderedPage(content).Text()
  }

  // ---- The loop

  lemma {:induction false} UnlinesSnoc(lines: seq<string>, line: string)
    ensures Unlines(lines + [line]) == Unlines(lines) + line + "\n"
  {
    if lines == [] {
      assert [line][1..] == [];
      assert [] + [line] == [line];
    } else {
      assert (lines + [line])[1..] == lines[1..] + [line];
      UnlinesSnoc(lines[1..], line);
    }
  }

  lemma {:induction false} TruncatedStays(p: Page, raws: seq<string>, i: nat)
    requires i <= |raws| && Layout(p, raws[..i]).truncated
    ensures Layout(p, raws) == Layout(p, raws[..i])
    decreases |raws| - i
  {
    if i == |raws| {
      assert raws[..i] == raws;
    } else {
      assert raws[..i + 1][..i] == raws[..i];
      TruncatedStays(p, raws, i + 1);
    }
  }

  lemma LayoutStep(raws: seq<string>, i: nat)
    requires i < |raws|
    ensures Layout(EMPTY_PAGE, raws[..i + 1]) == Push(Layout(EMPTY_PAGE, raws[..i]), raws[i])
  {
    assert raws[..i + 1][..i] == raws[..i];
  }

  /** What one line does to a page that is not truncated, said of the text and the counters of the loop. */
  lemma PushText(p: Page, raw: string)
    requires !p.truncated
    ensures var line, q := TrimEnd(raw), Push(p, raw);
      var blanked := if p.pending then p.lines + [""] else p.lines;
      && Unlines(blanked) == Unlines(p.lines) + (if p.pending then "\n" else "")
      && if TrimStart(line) == "" then q == p.(pending := |p.lines| > 0)
         else if Full(p.lines) then q.truncated && q.Text() == Unlines(p.lines) + ("\n" + MARKER + "\n")
         else if Full(blanked) then q.truncated && q.Text() == Unlines(blanked) + ("\n" + MARKER + "\n")
         else
           && q == Page(blanked + [line], false, false)
           && Unlines(q.lines) == Unlines(blanked) + line + "\n"
  {
    UnlinesSnoc(p.lines, "");
    assert Unlines(p.lines) + "" + "\n" == Unlines(p.lines) + "\n";
    assert Unlines(p.lines) + "" == Unlines(p.lines);
    UnlinesSnoc(if p.pending then p.lines + [""] else p.lines, TrimEnd(raw));
  }

  method RenderAiOutput(content: string) returns (output: string)
    ensures output == Rendered(content)
  {
    hide Utf8Length, Unlines, TrimEnd, TrimStart, Push, Layout, Lines, IsBlankLine;
    var stripped := StripTerminalSequences(content);
    var normalized := Trim(ReplaceCr(ReplaceCrLf(NormalizeSeparators(stripped))));
    var lines := Lines(normalized);
    output := "";
    var lineCount, pendingBlankLine := 0, false;
    ghost var page := EMPTY_PAGE;
    NothingLaidOut(lines);
    for i := 0 to |lines|
      invariant page == Layout(EMPTY_PAGE, lines[..i]) && !page.truncated
      invariant output == Unlines(page.lines) && lineCount == |page.lines| && pendingBlankLine == page.pending
    {
      LayoutStep(lines, i);
      PushText(page, lines[i]);
      ghost var next := Push(page, lines[i]);
      if next.truncated { TruncatedStays(EMPTY_PAGE, lines, i + 1); }
      var line := TrimEnd(lines[i]);
      if TrimStart(line) == "" {
        pendingBlankLine := lineCount > 0;
        page := next;
        continue;
      }
      if pendingBlankLine {
        if lineCount >= MAX_LINES || Utf8Length(output) >= MAX_BYTES {
          return output + ("\n" + MARKER + "\n");
        }
        output := output + "\n";
        lineCount := lineCount + 1;
        pendingBlankLine := false;
      }
      if lineCount >= MAX_LINES || Utf8Length(output) >= MAX_BYTES {
        return output + ("\n" + MARKER + "\n");
      }
      output := output + line;
      output := output + "\n";
      lineCount := lineCount + 1;
      page := next;
    }
    assert lines[..|lines|] == lines;
    assert output + "" == output;
  }

  lemma NothingLaidOut(raws: seq<string>)
    ensures Layout(EMPTY_PAGE, raws[..0]) == EMPTY_PAGE && Unlines([]) == ""
  {
  }
}

/** The removal of terminal escape sequences from model output, as a finite transducer. */
module TerminalEscapes {
  import opened Basics

  const ESC: char := '\U{1B}'
  const BEL: char := '\U{7}'

  /** The Unicode category Cc, as in `char::is_control`. */
  predicate IsControl(c: char) {
    (c as int) < 0x20 || 0x7F <= (c as int) < 0xA0
  }

  /** What the reader of the text is in the middle of. */
  datatype State =
    | Ground
    | Escape     // just after ESC
    | Csi        // inside a control sequence, before its final byte
    | Osc        // inside an operating system command
    | OscEscape  // inside an operating system command, just after ESC

  function Next(q: State, c: char): State {
    match q
    case Ground => if c == ESC then Escape else Ground
    case Escape => if c == '[' then Csi else if c == ']' then Osc else Ground
    case Csi => if '@' <= c <= '~' then Ground else Csi
    case Osc => if c == BEL then Ground else if c == ESC then OscEscape else Osc
    case OscEscape => if c == BEL || c == '\\' then Ground else if c == ESC then OscEscape else Osc
  }

  predicate Shown(q: State, c: char) {
    q.Ground? && (c == '\n' || c == '\t' || !IsControl(c))
  }

  function StateAfter(q: State, s: string): State
    decreases |s|
  {
    if s == "" then q else StateAfter(Next(q, s[0]), s[1..])
  }

  function StripFrom(q: State, s: string): string
    decreases |s|
  {
    if s == "" then "" else (if Shown(q, s[0]) then [s[0]] else "") + StripFrom(Next(q, s[0]), s[1..])
  }

  function Strip(s: string): string { StripFrom(Ground, s) }

  // ---- The transducer is compositional

  lemma {:induction false} StripSplits(q: State, a: string, b: string)
    ensures StripFrom(q, a + b) == StripFrom(q, a) + StripFrom(StateAfter(q, a), b)
    ensures StateAfter(q, a + b) == StateAfter(StateAfter(q, a), b)
    decreases |a|
  {
    if a == "" {
      assert a + b == b;
    } else {
      hide Shown, Next;
      var next := Next(q, a[0]);
      var head := if Shown(q, a[0]) then [a[0]] else "";
      assert (a + b)[0] == a[0] && (a + b)[1..] == a[1..] + b;
      StripSplits(next, a[1..], b);
      var x, y := StripFrom(next, a[1..]), StripFrom(StateAfter(next, a[1..]), b);
      assert head + (x + y) == (head + x) + y;
    }
  }

  /** Cutting a text after a is harmless for every continuation exactly when a ends in the ground state. */
  lemma CutIsHarmlessInGround(a: string)
    ensures (forall b :: Strip(a + b) == Strip(a) + Strip(b)) <==> StateAfter(Ground, a) == Ground
  {
    forall b | StateAfter(Ground, a) == Ground ensures Strip(a + b) == Strip(a) + Strip(b) {
      StripSplits(Ground, a, b);
    }
    if forall b :: Strip(a + b) == Strip(a) + Strip(b) {
      StripSplits(Ground, a, "1");
      assert Strip(a + "1") == Strip(a) + Strip("1");
      assert |StripFrom(StateAfter(Ground, a), "1")| == |Strip("1")| == 1;
    }
  }

  function Flatten(chunks: seq<string>): string {
    if chunks == [] then "" else chunks[0] + Flatten(chunks[1..])
  }

  /** What a stream prints: every delta is stripped on its own. */
  function StripEach(chunks: seq<string>): string {
    if chunks == [] then "" else Strip(chunks[0]) + StripEach(chunks[1..])
  }

  /** Every delta but the last leaves the transducer in its ground state. */
  predicate EndsInGround(chunks: seq<string>) {
    forall i | 0 <= i < |chunks| - 1 :: StateAfter(Ground, chunks[i]) == Ground
  }

  lemma {:induction false} StreamingStripsTheWhole(chunks: seq<string>)
    requires EndsInGround(chunks)
    ensures StripEach(chunks) == Strip(Flatten(chunks))
  {
    if chunks != [] {
      StripSplits(Ground, chunks[0], Flatten(chunks[1..]));
      if |chunks| > 1 {
        assert forall i | 0 <= i < |chunks[1..]| - 1 :: chunks[1..][i] == chunks[i + 1];
        assert StateAfter(Ground, chunks[0]) == Ground;
      } else {
        assert chunks[1..] == [];
      }
      StreamingStripsTheWhole(chunks[1..]);
    }
  }

  /** A sequence cut in two by the stream leaks its tail onto the terminal. */
  lemma CutSequenceLeaks()
    ensures Strip("\U{1B}[3" + "1m") == "" && StripEach(["\U{1B}[3", "1m"]) == "1m"
  {
    assert "\U{1B}[3" + "1m" == "\U{1B}[31m";
    assert "\U{1B}[31m"[1..] == "[31m" && "[31m"[1..] == "31m" && "31m"[1..] == "1m" && "1m"[1..] == "m";
    assert "\U{1B}[3"[1..] == "[3" && "[3"[1..] == "3";
    assert StripFrom(Ground, "1m") == "1" + StripFrom(Ground, "m");
    assert ["\U{1B}[3", "1m"][1..] == ["1m"];
    assert ["1m"][1..] == [];
  }

  // ---- What is left

  /** Nothing the terminal acts on but newline and tab. */
  predicate Harmless(s: string) {
    forall i | 0 <= i < |s| :: s[i] == '\n' || s[i] == '\t' || ' ' <= s[i] <= '~' || s[i] >= '\U{A0}'
  }

  lemma {:induction false} StripIsHarmless(q: State, s: string)
    ensures Harmless(StripFrom(q, s)) && ESC !in StripFrom(q, s)
    decreases |s|
  {
    if s != "" {
      StripIsHarmless(Next(q, s[0]), s[1..]);
    }
  }

  lemma {:induction false} StripKeepsHarmless(s: string)
    requires Harmless(s)
    ensures Strip(s) == s
  {
    if s != "" {
      assert !IsControl(s[0]) || s[0] == '\n' || s[0] == '\t';
      StripKeepsHarmless(s[1..]);
      assert s == [s[0]] + s[1..];
    }
  }

  /** Every character that is left was there, in the same order. */
  ghost predicate Subsequence(a: string, b: string)
    decreases |b|
  {
    a == "" || (b != "" && ((a[0] == b[0] && Subsequence(a[1..], b[1..])) || Subsequence(a, b[1..])))
  }

  lemma {:induction false} StripOnlyRemoves(q: State, s: string)
    ensures Subsequence(StripFrom(q, s), s)
    decreases |s|
  {
    if s != "" {
      StripOnlyRemoves(Next(q, s[0]), s[1..]);
      var rest := StripFrom(Next(q, s[0]), s[1..]);
      if Shown(q, s[0]) {
        assert StripFrom(q, s)[1..] == rest;
      } else {
        assert StripFrom(q, s) == rest;
      }
    }
  }

  // ---- Sequences of ECMA-48

  predicate Between(s: string, low: char, high: char) {
    forall i | 0 <= i < |s| :: low <= s[i] <= high
  }

  /** A control sequence of section 5.4: parameter bytes, intermediate bytes, one final byte. */
  predicate IsControlSequence(s: string, parameters: string, intermediates: string, final: char) {
    && Between(parameters, '0', '?') && Between(intermediates, ' ', '/') && '@' <= final <= '~'
    && s == [ESC, '['] + (parameters + intermediates) + [final]
  }

  lemma {:induction false} StaysInCsi(s: string)
    requires forall i | 0 <= i < |s| :: s[i] < '@'
    ensures StateAfter(Csi, s) == Csi && StripFrom(Csi, s) == ""
  {
    if s != "" { StaysInCsi(s[1..]); }
  }

  /** Control sequences vanish, and what surrounds them stays. */
  lemma ControlSequenceVanishes(before: string, s: string, after: string, parameters: string, intermediates: string,
          final: char)
    requires StateAfter(Ground, before) == Ground && IsControlSequence(s, parameters, intermediates, final)
    ensures Strip(before + (s + after)) == Strip(before) + Strip(after)
  {
    var body := parameters + intermediates;
    StaysInCsi(body);
    StripSplits(Csi, body, [final]);
    assert s[1..] == ['['] + body + [final] && s[1..][1..] == body + [final];
    assert [final][1..] == "";
    assert StripFrom(Ground, s) == "" && StateAfter(Ground, s) == Ground;
    StripSplits(Ground, s, after);
    StripSplits(Ground, before, s + after);
  }

  lemma {:induction false} StaysInOsc(s: string)
    requires BEL !in s && ESC !in s
    ensures StateAfter(Osc, s) == Osc && StripFrom(Osc, s) == ""
  {
    if s != "" {
      assert s[0] in s;
      StaysInOsc(s[1..]);
    }
  }

  /** Operating system commands (the control strings of section 5.6 opened by OSC) vanish, ended by BEL or by ST. */
  lemma OscVanishes(before: string, text: string, bel: bool, after: string)
    requires StateAfter(Ground, before) == Ground && BEL !in text && ESC !in text
    ensures var terminator := if bel then [BEL] else [ESC, '\\'];
      Strip(before + ([ESC, ']'] + text + terminator + after)) == Strip(before) + Strip(after)
  {
    var terminator := if bel then [BEL] else [ESC, '\\'];
    var s := [ESC, ']'] + text + terminator;
    OscIsStripped(text, terminator);
    StripSplits(Ground, s, after);
    StripSplits(Ground, before, s + after);
  }

  lemma OscIsStripped(text: string, terminator: string)
    requires BEL !in text && ESC !in text && (terminator == [BEL] || terminator == [ESC, '\\'])
    ensures var s := [ESC, ']'] + text + terminator; StripFrom(Ground, s) == "" && StateAfter(Ground, s) == Ground
  {
    OscOpens();
    OscCloses(terminator);
    hide StripFrom, StateAfter;
    StaysInOsc(text);
    StripSplits(Osc, text, terminator);
    StripSplits(Ground, [ESC, ']'], text + terminator);
    assert [ESC, ']'] + text + terminator == [ESC, ']'] + (text + terminator);
  }

  lemma OscOpens()
    ensures StripFrom(Ground, [ESC, ']']) == "" && StateAfter(Ground, [ESC, ']']) == Osc
  {
    assert [ESC, ']'][1..] == [']'] && [']'][1..] == "";
  }

  lemma OscCloses(terminator: string)
    requires terminator == [BEL] || terminator == [ESC, '\\']
    ensures StripFrom(Osc, terminator) == "" && StateAfter(Osc, terminator) == Ground
  {
    if terminator == [BEL] {
      assert terminator[1..] == "";
    } else {
      assert terminator[1..] == "\\" && "\\"[1..] == "";
    }
  }

  /** Other sequences of ECMA-48 lose only ESC and the character behind it: a character set selection
      leaves its final byte, a device control string its text. */
  lemma OtherSequencesLeak(c: char, rest: string)
    requires c != '[' && c != ']'
    ensures Strip([ESC, c] + rest) == Strip(rest)
  {
    assert ([ESC, c] + rest)[1..] == [c] + rest && ([c] + rest)[1..] == rest;
    assert StripFrom(Escape, [c] + rest) == StripFrom(Ground, rest);
  }

  // ---- The loop

  method StripTerminalSequences(input: string) returns (output: string)
    ensures output == Strip(input)
  {
    hide StripFrom, IsControl, Shown;
    output := "";
    var i := 0;
    assert input[0..] == input;
    NothingLeft(input);
    while i < |input|
      invariant 0 <= i <= |input|
      invariant Strip(input) == output + StripFrom(Ground, input[i..])
    {
      var ch := input[i];
      Unfold(input, i, Ground);
      i := i + 1;
      if ch == ESC {
        if i < |input| && input[i] == '[' {
          Unfold(input, i, Escape);
          i := i + 1;
          var ended := false;
          while i < |input| && !ended
            invariant i <= |input|
            invariant Strip(input) == output + StripFrom(if ended then Ground else Csi, input[i..])
            decreases |input| - i
          {
            Unfold(input, i, Csi);
            ended := '@' <= input[i] <= '~';
            i := i + 1;
          }
        } else if i < |input| && input[i] == ']' {
          Unfold(input, i, Escape);
          i := i + 1;
          var ended := false;
          while i < |input| && !ended
            invariant i <= |input|
            invariant Strip(input) == output + StripFrom(if ended then Ground else Osc, input[i..])
            decreases |input| - i
          {
            var next := input[i];
            Unfold(input, i, Osc);
            i := i + 1;
            if next == BEL {
              ended := true;
            } else if next == ESC {
              if i < |input| && input[i] == '\\' {
                Unfold(input, i, OscEscape);
                i := i + 1;
                ended := true;
              } else {
                OscEscapeIsOsc(input[i..]);
              }
            }
          }
        } else if i < |input| {
          Unfold(input, i, Escape);
          i := i + 1;
        }
      } else if ch == '\n' || ch == '\t' || !IsControl(ch) {
        output := output + [ch];
      }
    }
  }

  lemma NothingLeft(s: string)
    ensures forall q :: StripFrom(q, s[|s|..]) == ""
  {
  }

  lemma Unfold(s: string, i: nat, q: State)
    requires i < |s|
    ensures !q.Ground? || s[i] == ESC ==> StripFrom(q, s[i..]) == StripFrom(Next(q, s[i]), s[i + 1..])
    ensures q.Ground? && s[i] != ESC ==>
              StripFrom(q, s[i..]) ==
              (if s[i] == '\n' || s[i] == '\t' || !IsControl(s[i]) then [s[i]] else "") + StripFrom(Ground, s[i + 1..])
  {
    assert s[i..][1..] == s[i + 1..];
  }

  /** After ESC a command goes on as if the ESC had not been there, unless a backslash follows. */
  lemma OscEscapeIsOsc(s: string)
    requires s == "" || s[0] != '\\'
    ensures StripFrom(OscEscape, s) == StripFrom(Osc, s)
  {
  }
}

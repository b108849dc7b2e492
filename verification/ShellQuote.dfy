/** Quoting a path for the chooser command line, and how a shell reads words. */
module ShellQuote {
  import opened Basics

  // ---- The quoting rules of a shell, sections 2.2.1 to 2.2.3 of POSIX.1-2017 XCU

  datatype Quoting = Unquoted | Single | Double

  /** Characters that are not themselves when unquoted: operators, expansions, patterns. */
  predicate IsSpecial(c: char) { c in "|&;<>()$`\n*?[]#~=%!{}" }

  predicate IsBlank(c: char) { c == ' ' || c == '\t' }

  /** The words of a text, its quotes removed. `word` is the word being read. None for what the rules leave
      open, give another meaning, or do not end. */
  function Words(s: string, quoting: Quoting, word: Option<string>): Option<seq<string>>
    decreases |s|
  {
    if s == [] then
      if quoting != Unquoted then None else Some(if word.Some? then [word.value] else [])
    else
      var c, rest := s[0], s[1..];
      var read := if word.Some? then word.value else [];
      match quoting
      case Unquoted =>
        if IsBlank(c) then
          if word.None? then Words(rest, Unquoted, None) else
          match Words(rest, Unquoted, None)
          case None => None
          case Some(words) => Some([word.value] + words)
        else if c == '\'' then Words(rest, Single, Some(read))
        else if c == '"' then Words(rest, Double, Some(read))
        else if c == '\\' then
          if rest == [] || rest[0] == '\n' then None else Words(rest[1..], Unquoted, Some(read + [rest[0]]))
        else if IsSpecial(c) then None
        else Words(rest, Unquoted, Some(read + [c]))
      case Single =>
        if c == '\'' then Words(rest, Unquoted, Some(read)) else Words(rest, Single, Some(read + [c]))
      case Double =>
        if c == '"' then Words(rest, Unquoted, Some(read))
        else if c in "$`\\" then None
        else Words(rest, Double, Some(read + [c]))
  }

  // ---- shell_quote

  predicate IsPlain(c: char) {
    'a' <= c <= 'z' || 'A' <= c <= 'Z' || '0' <= c <= '9' || c in "/._-"
  }

  /** Every quote becomes: end of quotes, a quote in double quotes, quotes again. */
  function Escaped(s: string): string {
    if s == [] then [] else (if s[0] == '\'' then "'\"'\"'" else [s[0]]) + Escaped(s[1..])
  }

  function Quoted(s: string): string {
    if s == [] then "''"
    else if All(s, IsPlain) then s
    else "'" + Escaped(s) + "'"
  }

  lemma {:induction false} PlainIsRead(s: string, word: string)
    requires All(s, IsPlain)
    ensures Words(s, Unquoted, Some(word)) == Some([word + s])
    decreases |s|
  {
    if s == [] {
      assert word + s == word;
    } else {
      assert IsPlain(s[0]);
      assert All(s[1..], IsPlain) by {
        forall i | 0 <= i < |s| - 1 ensures IsPlain(s[1..][i]) { assert s[1..][i] == s[i + 1]; }
      }
      PlainIsRead(s[1..], word + [s[0]]);
      assert word + [s[0]] + s[1..] == word + s;
    }
  }

  lemma QuoteIsRead(rest: string, word: string)
    ensures Words("'\"'\"'" + rest, Single, Some(word)) == Words(rest, Single, Some(word + "'"))
  {
    var s := "'\"'\"'" + rest;
    assert s[1..] == "\"'\"'" + rest;
    assert s[1..][1..] == "'\"'" + rest;
    assert s[1..][1..][1..] == "\"'" + rest;
    assert s[1..][1..][1..][1..] == "'" + rest;
    assert s[1..][1..][1..][1..][1..] == rest;
    assert Words(s[1..], Unquoted, Some(word)) == Words(s[1..][1..], Double, Some(word));
    assert Words(s[1..][1..], Double, Some(word)) == Words(s[1..][1..][1..], Double, Some(word + "'"));
    assert Words(s[1..][1..][1..], Double, Some(word + "'")) == Words(s[1..][1..][1..][1..], Unquoted, Some(word + "'"));
  }

  lemma {:induction false} EscapedIsRead(s: string, word: string)
    ensures Words(Escaped(s) + "'", Single, Some(word)) == Some([word + s])
    decreases |s|
  {
    if s == [] {
      assert Escaped(s) + "'" == "'" && ("'")[1..] == [];
      assert word + s == word;
    } else {
      var rest := Escaped(s[1..]) + "'";
      EscapedIsRead(s[1..], word + [s[0]]);
      assert word + [s[0]] + s[1..] == word + s;
      if s[0] == '\'' {
        assert Escaped(s) + "'" == "'\"'\"'" + rest;
        QuoteIsRead(rest, word);
      } else {
        assert Escaped(s) + "'" == [s[0]] + rest;
        assert ([s[0]] + rest)[1..] == rest;
      }
    }
  }

  lemma {:induction false} EscapedIsNotShorter(s: string)
    ensures |Escaped(s)| >= |s|
  {
    if s != [] { EscapedIsNotShorter(s[1..]); }
  }

  /** Only a text of letters, digits, slashes, dots, underscores and hyphens goes without quotes. */
  lemma UnquotedExactlyWhenPlain(s: string)
    ensures Quoted(s) == s <==>
            s != "" && forall i | 0 <= i < |s| ::
              'a' <= s[i] <= 'z' || 'A' <= s[i] <= 'Z' || '0' <= s[i] <= '9'
              || s[i] == '/' || s[i] == '.' || s[i] == '_' || s[i] == '-'
  {
    EscapedIsNotShorter(s);
    assert forall c: char :: c in "/._-" <==> c == '/' || c == '.' || c == '_' || c == '-';
  }

  /** A shell reads a quoted text as one word, the text itself. */
  lemma QuotedIsOneWord(s: string)
    ensures Words(Quoted(s), Unquoted, None) == Some([s])
  {
    if s == [] {
      assert ("''")[1..] == "'" && ("'")[1..] == [];
    } else if All(s, IsPlain) {
      assert IsPlain(s[0]);
      PlainIsRead(s, []);
      assert [] + s == s;
      assert Words(s, Unquoted, None) == Words(s, Unquoted, Some([]));
    } else {
      EscapedIsRead(s, []);
      assert [] + s == s;
      assert ("'" + Escaped(s) + "'")[1..] == Escaped(s) + "'";
    }
  }

  lemma QuotedIsInjective(s: string, t: string)
    requires Quoted(s) == Quoted(t)
    ensures s == t
  {
    QuotedIsOneWord(s);
    QuotedIsOneWord(t);
    assert [s][0] == [t][0];
  }
}

/** Reading a tree from a text, and that reading inverts writing on every well-formed tree. */
module CalculatorReading {
  import opened Basics
  import opened CalculatorGrammar

  /** A tree and the index just after its last byte. */
  datatype Read<+T> = Read(tree: T, next: nat)

  function SkipBlank(s: seq<Byte>, i: nat): (j: nat)
    requires i <= |s|
    ensures i <= j <= |s|
    decreases |s| - i
  {
    if i < |s| && IsBlank(s[i]) then SkipBlank(s, i + 1) else i
  }

  /** The end of the longest numeral that starts at i, given whether a dot was already taken. */
  function SkipNumeral(s: seq<Byte>, i: nat, dot: bool): (j: nat)
    requires i <= |s|
    ensures i <= j <= |s|
    decreases |s| - i
  {
    if i < |s| && (IsDigit(s[i]) || (s[i] == DOT && !dot)) then SkipNumeral(s, i + 1, dot || s[i] == DOT) else i
  }

  function ReadFactor(s: seq<Byte>, i: nat): (r: Option<Read<Factor>>)
    requires i <= |s|
    ensures r.Some? ==> i < r.value.next <= |s|
    decreases |s| - i, 0
  {
    var k := SkipBlank(s, i);
    if k == |s| then None
    else if s[k] == PLUS || s[k] == MINUS then
      var operand := ReadFactor(s, k + 1);
      if operand.None? then None
      else Some(Read(Signed(s[i..k], if s[k] == PLUS then Plus else Minus, operand.value.tree), operand.value.next))
    else if s[k] == OPEN then
      var inner := ReadSum(s, k + 1);
      if inner.None? then None
      else
        var c := SkipBlank(s, inner.value.next);
        if c < |s| && s[c] == CLOSE then Some(Read(Group(s[i..k], inner.value.tree, s[inner.value.next..c]), c + 1))
        else None
    else
      var j := SkipNumeral(s, k, false);
      if j == k then None else Some(Read(Literal(s[i..k], s[k..j]), j))
  }

  function ReadProduct(s: seq<Byte>, i: nat): (r: Option<Read<Product>>)
    requires i <= |s|
    ensures r.Some? ==> i < r.value.next <= |s|
    decreases |s| - i, 1
  {
    var f := ReadFactor(s, i);
    if f.None? then None else ReadProductFrom(s, f.value.next, OneFactor(f.value.tree))
  }

  /** Continues a product whose left part, already read, ends at i. */
  function ReadProductFrom(s: seq<Byte>, i: nat, left: Product): (r: Option<Read<Product>>)
    requires i <= |s|
    ensures r.Some? ==> i <= r.value.next <= |s|
    decreases |s| - i, 1
  {
    var k := SkipBlank(s, i);
    if k < |s| && (s[k] == STAR || s[k] == SLASH) then
      var f := ReadFactor(s, k + 1);
      if f.None? then None
      else ReadProductFrom(s, f.value.next,
                           Scaled(left, s[i..k], if s[k] == STAR then Times else Over, f.value.tree))
    else Some(Read(left, i))
  }

  function ReadSum(s: seq<Byte>, i: nat): (r: Option<Read<Sum>>)
    requires i <= |s|
    ensures r.Some? ==> i < r.value.next <= |s|
    decreases |s| - i, 2
  {
    var p := ReadProduct(s, i);
    if p.None? then None else ReadSumFrom(s, p.value.next, OneProduct(p.value.tree))
  }

  /** Continues a sum whose left part, already read, ends at i. */
  function ReadSumFrom(s: seq<Byte>, i: nat, left: Sum): (r: Option<Read<Sum>>)
    requires i <= |s|
    ensures r.Some? ==> i <= r.value.next <= |s|
    decreases |s| - i, 2
  {
    var k := SkipBlank(s, i);
    if k < |s| && (s[k] == PLUS || s[k] == MINUS) then
      var p := ReadProduct(s, k + 1);
      if p.None? then None
      else ReadSumFrom(s, p.value.next,
                       Added(left, s[i..k], if s[k] == PLUS then Plus else Minus, p.value.tree))
    else Some(Read(left, i))
  }

  lemma Join(s: seq<Byte>, i: nat, j: nat, k: nat)
    requires i <= j <= k <= |s|
    ensures s[i..k] == s[i..j] + s[j..k]
  {
  }

  lemma Join3(s: seq<Byte>, i: nat, k: nat, n: nat)
    requires i <= k < n <= |s|
    ensures s[i..n] == s[i..k] + ([s[k]] + s[k + 1..n])
  {
  }

  lemma {:induction false} SkipBlankSound(s: seq<Byte>, i: nat)
    requires i <= |s|
    ensures var j := SkipBlank(s, i); Blank(s[i..j]) && (j < |s| ==> !IsBlank(s[j]))
    decreases |s| - i
  {
    if i < |s| && IsBlank(s[i]) {
      SkipBlankSound(s, i + 1);
      assert s[i..SkipBlank(s, i)] == [s[i]] + s[i + 1..SkipBlank(s, i)];
    }
  }

  lemma {:induction false} SkipNumeralSound(s: seq<Byte>, i: nat, dot: bool)
    requires i <= |s|
    ensures var text := s[i..SkipNumeral(s, i, dot)];
      Numeric(text) && Dots(text) <= if dot then 0 else 1
    decreases |s| - i
  {
    if i < |s| && (IsDigit(s[i]) || (s[i] == DOT && !dot)) {
      SkipNumeralSound(s, i + 1, dot || s[i] == DOT);
      assert s[i..SkipNumeral(s, i, dot)] == [s[i]] + s[i + 1..SkipNumeral(s, i, dot)];
    }
  }

  // ---- Soundness: what is read is well formed and is spelled where it was read

  lemma LiteralText(s: seq<Byte>, i: nat, k: nat, j: nat)
    requires i <= k < j <= |s| && Blank(s[i..k]) && IsNumeral(s[k..j])
    ensures FactorOk(Literal(s[i..k], s[k..j])) && s[i..j] == FactorText(Literal(s[i..k], s[k..j]))
  {
    Join(s, i, k, j);
  }

  lemma SignedText(s: seq<Byte>, i: nat, k: nat, operand: Read<Factor>)
    requires i <= k < operand.next <= |s| && Blank(s[i..k]) && (s[k] == PLUS || s[k] == MINUS)
    requires FactorOk(operand.tree) && s[k + 1..operand.next] == FactorText(operand.tree)
    ensures var f := Signed(s[i..k], if s[k] == PLUS then Plus else Minus, operand.tree);
      FactorOk(f) && s[i..operand.next] == FactorText(f)
  {
    Join3(s, i, k, operand.next);
  }

  lemma GroupText(s: seq<Byte>, i: nat, k: nat, inner: Read<Sum>, c: nat)
    requires i <= k < inner.next <= c < |s| && s[k] == OPEN && s[c] == CLOSE
    requires s[k + 1..inner.next] == SumText(inner.tree) && SumOk(inner.tree)
    requires Blank(s[i..k]) && Blank(s[inner.next..c])
    ensures FactorOk(Group(s[i..k], inner.tree, s[inner.next..c]))
    ensures s[i..c + 1] == FactorText(Group(s[i..k], inner.tree, s[inner.next..c]))
  {
    GroupSpelled(s[i..k], inner.tree, s[inner.next..c]);
    hide SumText, SumOk, Blank, FactorText, FactorOk;
    assert s[inner.next..c + 1] == s[inner.next..c] + [CLOSE];
    Join(s, k + 1, inner.next, c + 1);
    Join3(s, i, k, c + 1);
  }

  lemma GroupSpelled(before: seq<Byte>, inner: Sum, after: seq<Byte>)
    ensures FactorOk(Group(before, inner, after)) <==> Blank(before) && SumOk(inner) && Blank(after)
    ensures FactorText(Group(before, inner, after)) == before + ([OPEN] + (SumText(inner) + (after + [CLOSE])))
  {
    hide SumText, SumOk, Blank;
  }

  lemma {:induction false} ReadFactorSound(s: seq<Byte>, i: nat)
    requires i <= |s| && ReadFactor(s, i).Some?
    ensures var r := ReadFactor(s, i).value;
      FactorOk(r.tree) && s[i..r.next] == FactorText(r.tree)
    decreases |s| - i, 0
  {
    hide ReadSum, SkipBlank, SkipNumeral, Blank, Numeric, SumText, SumOk, FactorText, FactorOk;
    var k := SkipBlank(s, i);
    SkipBlankSound(s, i);
    if s[k] == PLUS || s[k] == MINUS {
      ReadFactorSound(s, k + 1);
      SignedText(s, i, k, ReadFactor(s, k + 1).value);
    } else if s[k] == OPEN {
      ReadSumSound(s, k + 1);
      var inner := ReadSum(s, k + 1).value;
      SkipBlankSound(s, inner.next);
      GroupText(s, i, k, inner, SkipBlank(s, inner.next));
    } else {
      SkipNumeralSound(s, k, false);
      LiteralText(s, i, k, SkipNumeral(s, k, false));
    }
  }

  lemma {:induction false} ReadProductSound(s: seq<Byte>, i: nat)
    requires i <= |s| && ReadProduct(s, i).Some?
    ensures var r := ReadProduct(s, i).value;
      ProductOk(r.tree) && s[i..r.next] == ProductText(r.tree)
    decreases |s| - i, 1
  {
    ReadFactorSound(s, i);
    var f := ReadFactor(s, i).value;
    ReadProductFromSound(s, i, f.next, OneFactor(f.tree));
  }

  lemma {:induction false} ReadProductFromSound(s: seq<Byte>, i: nat, m: nat, left: Product)
    requires i < m <= |s| && ReadProductFrom(s, m, left).Some?
    requires ProductOk(left) && s[i..m] == ProductText(left)
    ensures var r := ReadProductFrom(s, m, left).value;
      ProductOk(r.tree) && s[i..r.next] == ProductText(r.tree)
    decreases |s| - m, 1
  {
    hide ReadFactor, SkipBlank, Blank, FactorText, FactorOk;
    var k := SkipBlank(s, m);
    if k < |s| && (s[k] == STAR || s[k] == SLASH) {
      SkipBlankSound(s, m);
      ReadFactorSound(s, k + 1);
      var f := ReadFactor(s, k + 1).value;
      Join(s, i, m, f.next);
      Join3(s, m, k, f.next);
      ReadProductFromSound(s, i, f.next, Scaled(left, s[m..k], if s[k] == STAR then Times else Over, f.tree));
    }
  }

  lemma {:induction false} ReadSumSound(s: seq<Byte>, i: nat)
    requires i <= |s| && ReadSum(s, i).Some?
    ensures var r := ReadSum(s, i).value;
      SumOk(r.tree) && s[i..r.next] == SumText(r.tree)
    decreases |s| - i, 2
  {
    ReadProductSound(s, i);
    var p := ReadProduct(s, i).value;
    ReadSumFromSound(s, i, p.next, OneProduct(p.tree));
  }

  lemma {:induction false} ReadSumFromSound(s: seq<Byte>, i: nat, m: nat, left: Sum)
    requires i < m <= |s| && ReadSumFrom(s, m, left).Some?
    requires SumOk(left) && s[i..m] == SumText(left)
    ensures var r := ReadSumFrom(s, m, left).value;
      SumOk(r.tree) && s[i..r.next] == SumText(r.tree)
    decreases |s| - m, 2
  {
    hide ReadProduct, SkipBlank, Blank, ProductText, ProductOk;
    var k := SkipBlank(s, m);
    if k < |s| && (s[k] == PLUS || s[k] == MINUS) {
      SkipBlankSound(s, m);
      ReadProductSound(s, k + 1);
      var p := ReadProduct(s, k + 1).value;
      Join(s, i, m, p.next);
      Join3(s, m, k, p.next);
      ReadSumFromSound(s, i, p.next, Added(left, s[m..k], if s[k] == PLUS then Plus else Minus, p.tree));
    }
  }

  // ---- Completeness: a well-formed tree spelled in the input is the tree that is read there

  /** A numeral cannot go on at j. */
  predicate NumeralEnds(s: seq<Byte>, j: nat) {
    j < |s| ==> !IsDigit(s[j]) && s[j] != DOT
  }

  /** After blanks from j there is no operator in ops. */
  predicate NoOperator(s: seq<Byte>, j: nat, ops: set<Byte>)
    requires j <= |s|
  {
    var k := SkipBlank(s, j);
    k < |s| ==> s[k] !in ops
  }

  lemma {:induction false} SkipBlankOver(s: seq<Byte>, i: nat, blank: seq<Byte>)
    requires Blank(blank) && Spells(s, i, blank)
    requires i + |blank| < |s| ==> !IsBlank(s[i + |blank|])
    ensures SkipBlank(s, i) == i + |blank| && s[i..i + |blank|] == blank
    decreases |blank|
  {
    if blank != [] {
      assert s[i] == s[i..i + |blank|][0] && IsBlank(blank[0]);
      assert s[i + 1..i + 1 + |blank[1..]|] == s[i..i + |blank|][1..];
      SkipBlankOver(s, i + 1, blank[1..]);
    }
  }

  lemma {:induction false} SkipNumeralOver(s: seq<Byte>, i: nat, text: seq<Byte>, dot: bool)
    requires Numeric(text) && Dots(text) <= if dot then 0 else 1
    requires Spells(s, i, text) && NumeralEnds(s, i + |text|)
    ensures SkipNumeral(s, i, dot) == i + |text|
    decreases |text|
  {
    if text != [] {
      assert s[i] == s[i..i + |text|][0];
      assert s[i + 1..i + 1 + |text[1..]|] == s[i..i + |text|][1..];
      SkipNumeralOver(s, i + 1, text[1..], dot || s[i] == DOT);
    }
  }

  /** Blanks, one byte that is not blank, and a rest, spelled at i: where each part lies. */
  lemma SpellsToken(s: seq<Byte>, i: nat, blank: seq<Byte>, c: Byte, rest: seq<Byte>)
    requires Blank(blank) && !IsBlank(c) && Spells(s, i, blank + ([c] + rest))
    ensures SkipBlank(s, i) == i + |blank| < |s| && s[i + |blank|] == c && s[i..i + |blank|] == blank
    ensures Spells(s, i + |blank| + 1, rest)
    ensures s[i] == c || IsBlank(s[i])
  {
    SpellsConcat(s, i, blank, [c] + rest);
    SpellsConcat(s, i + |blank|, [c], rest);
    assert s[i + |blank|] == s[i + |blank|..i + |blank| + 1][0];
    SkipBlankOver(s, i, blank);
    if blank != [] {
      assert s[i] == s[i..i + |blank|][0] && IsBlank(blank[0]);
    }
  }

  lemma ReadLiteralComplete(s: seq<Byte>, i: nat, blank: seq<Byte>, text: seq<Byte>)
    requires Blank(blank) && IsNumeral(text) && Spells(s, i, blank + text)
    requires NumeralEnds(s, i + |blank| + |text|)
    ensures ReadFactor(s, i) == Some(Read(Literal(blank, text), i + |blank| + |text|))
  {
    hide SkipBlank, Dots;
    var k := i + |blank|;
    assert text == [text[0]] + text[1..];
    SpellsToken(s, i, blank, text[0], text[1..]);
    SpellsConcat(s, i, blank, text);
    SkipNumeralOver(s, k, text, false);
  }

  lemma ReadSignedStep(s: seq<Byte>, i: nat, sign: Sign, operand: Read<Factor>)
    requires i <= |s| && SkipBlank(s, i) < |s| && s[SkipBlank(s, i)] == SignByte(sign)
    requires ReadFactor(s, SkipBlank(s, i) + 1) == Some(operand)
    ensures ReadFactor(s, i) == Some(Read(Signed(s[i..SkipBlank(s, i)], sign, operand.tree), operand.next))
  {
  }

  lemma ReadGroupStep(s: seq<Byte>, i: nat, inner: Read<Sum>)
    requires i <= |s| && SkipBlank(s, i) < |s| && s[SkipBlank(s, i)] == OPEN
    requires ReadSum(s, SkipBlank(s, i) + 1) == Some(inner) && inner.next <= |s|
    requires SkipBlank(s, inner.next) < |s| && s[SkipBlank(s, inner.next)] == CLOSE
    ensures var k, c := SkipBlank(s, i), SkipBlank(s, inner.next);
      ReadFactor(s, i) == Some(Read(Group(s[i..k], inner.tree, s[inner.next..c]), c + 1))
  {
  }

  lemma ReadOneFactorStep(s: seq<Byte>, i: nat, f: Read<Factor>)
    requires i <= |s| && ReadFactor(s, i) == Some(f)
    ensures ReadProduct(s, i) == ReadProductFrom(s, f.next, OneFactor(f.tree))
  {
  }

  lemma ReadOneProductStep(s: seq<Byte>, i: nat, p: Read<Product>)
    requires i <= |s| && ReadProduct(s, i) == Some(p)
    ensures ReadSum(s, i) == ReadSumFrom(s, p.next, OneProduct(p.tree))
  {
  }

  lemma ReadAddedStep(s: seq<Byte>, m: nat, left: Sum, op: Sign, right: Read<Product>)
    requires m <= |s| && SkipBlank(s, m) < |s| && s[SkipBlank(s, m)] == SignByte(op)
    requires ReadProduct(s, SkipBlank(s, m) + 1) == Some(right)
    ensures ReadSumFrom(s, m, left) == ReadSumFrom(s, right.next, Added(left, s[m..SkipBlank(s, m)], op, right.tree))
  {
  }

  /** A product ends where no multiplication or division follows. */
  lemma ProductStops(s: seq<Byte>, i: nat, p: Product)
    requires i + |ProductText(p)| <= |s| && NoOperator(s, i + |ProductText(p)|, {STAR, SLASH})
    ensures ReadProductFrom(s, i + |ProductText(p)|, p) == Some(Read(p, i + |ProductText(p)|))
  {
  }

  lemma OperatorAt(s: seq<Byte>, m: nat, c: Byte, ops: set<Byte>)
    requires m <= |s| && SkipBlank(s, m) < |s| && s[SkipBlank(s, m)] == c && c !in ops
    ensures NoOperator(s, m, ops)
  {
  }

  lemma ReadScaledStep(s: seq<Byte>, m: nat, left: Product, op: Scale, right: Read<Factor>)
    requires m <= |s| && SkipBlank(s, m) < |s| && s[SkipBlank(s, m)] == ScaleByte(op)
    requires ReadFactor(s, SkipBlank(s, m) + 1) == Some(right)
    ensures ReadProductFrom(s, m, left) == ReadProductFrom(s, right.next, Scaled(left, s[m..SkipBlank(s, m)], op, right.tree))
  {
  }

  /** A group spelled at i: where its parts lie, and that no sum goes on at its closing bracket. */
  lemma SpellsGroup(s: seq<Byte>, i: nat, blank: seq<Byte>, inner: seq<Byte>, close: seq<Byte>)
    requires Blank(blank) && Blank(close) && Spells(s, i, blank + ([OPEN] + (inner + (close + [CLOSE]))))
    ensures var k, m := i + |blank|, i + |blank| + 1 + |inner|;
      && SkipBlank(s, i) == k < |s| && s[k] == OPEN && s[i..k] == blank && Spells(s, k + 1, inner)
      && SkipBlank(s, m) == m + |close| < |s| && s[m + |close|] == CLOSE && s[m..m + |close|] == close
      && NumeralEnds(s, m) && NoOperator(s, m, {STAR, SLASH, PLUS, MINUS})
  {
    var k, m := i + |blank|, i + |blank| + 1 + |inner|;
    SpellsToken(s, i, blank, OPEN, inner + (close + [CLOSE]));
    SpellsConcat(s, k + 1, inner, close + [CLOSE]);
    assert [CLOSE] + [] == [CLOSE];
    SpellsToken(s, m, close, CLOSE, []);
  }

  lemma {:induction false} ReadFactorComplete(s: seq<Byte>, i: nat, f: Factor)
    requires FactorOk(f) && Spells(s, i, FactorText(f)) && NumeralEnds(s, i + |FactorText(f)|)
    ensures ReadFactor(s, i) == Some(Read(f, i + |FactorText(f)|))
    decreases f, 0
  {
    hide ReadFactor, ReadSum, ReadProduct, Spells, Blank, SkipBlank, IsNumeral, NoOperator, SumText, SumOk;
    match f
    case Literal(blank, text) => ReadLiteralComplete(s, i, blank, text);
    case Signed(blank, sign, operand) =>
      SpellsToken(s, i, blank, SignByte(sign), FactorText(operand));
      ReadFactorComplete(s, i + |blank| + 1, operand);
      ReadSignedStep(s, i, sign, Read(operand, i + |FactorText(f)|));
    case Group(blank, inner, close) =>
      var k := i + |blank|;
      var m := k + 1 + |SumText(inner)|;
      SpellsGroup(s, i, blank, SumText(inner), close);
      ReadSumComplete(s, k + 1, inner);
      ReadGroupStep(s, i, Read(inner, m));
  }

  /** A product spelled at i has been read up to its end, whatever follows. */
  lemma {:induction false} ReadProductReaches(s: seq<Byte>, i: nat, p: Product)
    requires ProductOk(p) && Spells(s, i, ProductText(p)) && NumeralEnds(s, i + |ProductText(p)|)
    ensures ReadProduct(s, i) == ReadProductFrom(s, i + |ProductText(p)|, p)
    decreases p, 1
  {
    hide ReadFactor, ReadProduct, ReadProductFrom, Spells, Blank, SkipBlank, IsNumeral;
    match p
    case OneFactor(f) =>
      ReadFactorComplete(s, i, f);
      ReadOneFactorStep(s, i, Read(f, i + |FactorText(f)|));
    case Scaled(left, blank, op, right) =>
      var m := i + |ProductText(left)|;
      SpellsConcat(s, i, ProductText(left), blank + ([ScaleByte(op)] + FactorText(right)));
      SpellsToken(s, m, blank, ScaleByte(op), FactorText(right));
      ReadProductReaches(s, i, left);
      ReadFactorComplete(s, m + |blank| + 1, right);
      ReadScaledStep(s, m, left, op, Read(right, i + |ProductText(p)|));
  }

  /** A sum spelled at i has been read up to its end, whatever follows. */
  lemma {:induction false} ReadSumReaches(s: seq<Byte>, i: nat, e: Sum)
    requires SumOk(e) && Spells(s, i, SumText(e)) && NumeralEnds(s, i + |SumText(e)|)
    requires NoOperator(s, i + |SumText(e)|, {STAR, SLASH})
    ensures ReadSum(s, i) == ReadSumFrom(s, i + |SumText(e)|, e)
    decreases e, 2
  {
    hide ReadProduct, ReadSum, ReadSumFrom, Spells, Blank, SkipBlank, ProductText, ProductOk;
    match e
    case OneProduct(p) =>
      ReadProductReaches(s, i, p);
      ProductStops(s, i, p);
      ReadOneProductStep(s, i, Read(p, i + |ProductText(p)|));
    case Added(left, blank, op, right) =>
      var m := i + |SumText(left)|;
      SpellsConcat(s, i, SumText(left), blank + ([SignByte(op)] + ProductText(right)));
      SpellsToken(s, m, blank, SignByte(op), ProductText(right));
      OperatorAt(s, m, SignByte(op), {STAR, SLASH});
      ReadSumReaches(s, i, left);
      ReadProductReaches(s, m + |blank| + 1, right);
      ProductStops(s, m + |blank| + 1, right);
      ReadAddedStep(s, m, left, op, Read(right, i + |SumText(e)|));
  }

  lemma {:induction false} ReadSumComplete(s: seq<Byte>, i: nat, e: Sum)
    requires SumOk(e) && Spells(s, i, SumText(e)) && NumeralEnds(s, i + |SumText(e)|)
    requires NoOperator(s, i + |SumText(e)|, {STAR, SLASH, PLUS, MINUS})
    ensures ReadSum(s, i) == Some(Read(e, i + |SumText(e)|))
    decreases e, 3
  {
    hide SumText, SumOk, ReadSum, Spells;
    ReadSumReaches(s, i, e);
  }

  /** Reading a whole input: the tree, when the rest of the input is blank. */
  function ReadWhole(s: seq<Byte>): Option<Sum> {
    var r := ReadSum(s, 0);
    if r.Some? && SkipBlank(s, r.value.next) == |s| then Some(r.value.tree) else None
  }

  /** The grammar is unambiguous and reading decides it: a text derives a tree exactly when reading gives it. */
  lemma {:induction false} ReadingInvertsWriting(s: seq<Byte>, e: Sum)
    ensures Derives(s, e) <==> ReadWhole(s) == Some(e)
  {
    if Derives(s, e) {
      var n := |SumText(e)|;
      assert s[0..0 + n] == SumText(e);
      assert s[n..n + |s[n..]|] == s[n..];
      SkipBlankOver(s, n, s[n..]);
      if n < |s| { assert IsBlank(s[n..][0]); }
      ReadSumComplete(s, 0, e);
    }
    if ReadWhole(s) == Some(e) {
      ReadSumSound(s, 0);
      var n := ReadSum(s, 0).value.next;
      SkipBlankSound(s, n);
      assert s[..n] == s[0..n];
      assert s[n..|s|] == s[n..];
      assert |s[0..n]| == |SumText(e)|;
    }
  }
}

/** The parser of the launcher, which evaluates while it reads, and what it computes. */
module Calculator {
  import opened Basics
  import opened CalculatorGrammar
  import opened CalculatorReading

  // ---- What the methods of the parser compute, said of the trees

  function FactorResult<V>(a: Arithmetic<V>, s: seq<Byte>, i: nat): Option<V>
    requires i <= |s|
  {
    var r := ReadFactor(s, i);
    if r.None? then None else FactorValue(a, r.value.tree)
  }

  function ProductResult<V>(a: Arithmetic<V>, s: seq<Byte>, i: nat): Option<V>
    requires i <= |s|
  {
    var r := ReadProduct(s, i);
    if r.None? then None else ProductValue(a, r.value.tree)
  }

  function SumResult<V>(a: Arithmetic<V>, s: seq<Byte>, i: nat): Option<V>
    requires i <= |s|
  {
    var r := ReadSum(s, i);
    if r.None? then None else SumValue(a, r.value.tree)
  }

  function Finite<V>(a: Arithmetic<V>, v: Option<V>): Option<V> {
    if v.Some? && a.isFinite(v.value) then v else None
  }

  /** The value of an input: that of the tree it derives, when there is one and it is finite. */
  function Evaluated<V>(a: Arithmetic<V>, s: seq<Byte>): Option<V> {
    var e := ReadWhole(s);
    if e.None? then None else Finite(a, SumValue(a, e.value))
  }

  lemma {:induction false} SkipBlankTwice(s: seq<Byte>, i: nat)
    requires i <= |s|
    ensures SkipBlank(s, SkipBlank(s, i)) == SkipBlank(s, i)
    decreases |s| - i
  {
    if i < |s| && IsBlank(s[i]) {
      SkipBlankTwice(s, i + 1);
    }
  }

  /** A product with a part that has no value has none, whatever is chained to it. */
  lemma {:induction false} NoProductValue<V>(a: Arithmetic<V>, s: seq<Byte>, m: nat, left: Product)
    requires m <= |s| && ProductValue(a, left).None?
    ensures var r := ReadProductFrom(s, m, left); r.Some? ==> ProductValue(a, r.value.tree).None?
    decreases |s| - m
  {
    hide ReadFactor, FactorValue, SkipBlank;
    var k := SkipBlank(s, m);
    if k < |s| && (s[k] == STAR || s[k] == SLASH) {
      var f := ReadFactor(s, k + 1);
      if f.Some? {
        NoProductValue(a, s, f.value.next,
                       Scaled(left, s[m..k], if s[k] == STAR then Times else Over, f.value.tree));
      }
    }
  }

  /** A sum with a part that has no value has none, whatever is chained to it. */
  lemma {:induction false} NoSumValue<V>(a: Arithmetic<V>, s: seq<Byte>, m: nat, left: Sum)
    requires m <= |s| && SumValue(a, left).None?
    ensures var r := ReadSumFrom(s, m, left); r.Some? ==> SumValue(a, r.value.tree).None?
    decreases |s| - m
  {
    hide ReadProduct, ProductValue, SkipBlank;
    var k := SkipBlank(s, m);
    if k < |s| && (s[k] == PLUS || s[k] == MINUS) {
      var p := ReadProduct(s, k + 1);
      if p.Some? {
        NoSumValue(a, s, p.value.next,
                   Added(left, s[m..k], if s[k] == PLUS then Plus else Minus, p.value.tree));
      }
    }
  }

  /** Reading the product at i has come to m, with a part of this value. */
  ghost predicate ReadingProduct<V>(a: Arithmetic<V>, s: seq<Byte>, i: nat, m: nat, left: Product, x: V)
    requires i <= |s| && m <= |s|
  {
    ReadProduct(s, i) == ReadProductFrom(s, m, left) && ProductValue(a, left) == Some(x)
  }

  lemma StartProduct<V>(a: Arithmetic<V>, s: seq<Byte>, i: nat)
    requires i <= |s|
    ensures FactorResult(a, s, i).None? ==> ProductResult(a, s, i).None?
    ensures FactorResult(a, s, i).Some? ==>
              && ReadFactor(s, i).Some?
              && var f := ReadFactor(s, i).value;
              ReadingProduct(a, s, i, f.next, OneFactor(f.tree), FactorResult(a, s, i).value)
  {
    var f := ReadFactor(s, i);
    if f.Some? && FactorValue(a, f.value.tree).None? {
      NoProductValue(a, s, f.value.next, OneFactor(f.value.tree));
    }
  }

  /** One round of the loop over factors: the product read so far grows by the factor behind op. */
  lemma ChainProduct<V>(a: Arithmetic<V>, s: seq<Byte>, i: nat, m: nat, left: Product, x: V, op: Scale)
    returns (grown: Product)
    requires i <= |s| && m <= |s| && ReadingProduct(a, s, i, m, left, x)
    requires SkipBlank(s, m) < |s| && s[SkipBlank(s, m)] == ScaleByte(op)
    ensures var right := FactorResult(a, s, SkipBlank(s, m) + 1);
      if right.None? || (op.Over? && a.isZero(right.value)) then ProductResult(a, s, i).None?
      else
        && ReadFactor(s, SkipBlank(s, m) + 1).Some?
        && ReadingProduct(a, s, i, ReadFactor(s, SkipBlank(s, m) + 1).value.next, grown,
                          if op.Times? then a.mul(x, right.value) else a.div(x, right.value))
  {
    hide ReadFactor, FactorValue, SkipBlank, ReadProduct;
    var k := SkipBlank(s, m);
    var f := ReadFactor(s, k + 1);
    grown := left;
    if f.Some? {
      grown := Scaled(left, s[m..k], op, f.value.tree);
      if ProductValue(a, grown).None? {
        NoProductValue(a, s, f.value.next, grown);
      }
    }
  }

  lemma ProductEnds<V>(a: Arithmetic<V>, s: seq<Byte>, i: nat, m: nat, left: Product, x: V)
    requires i <= |s| && m <= |s| && ReadingProduct(a, s, i, m, left, x)
    requires (SkipBlank(s, m) < |s| ==> s[SkipBlank(s, m)] != STAR && s[SkipBlank(s, m)] != SLASH)
    ensures ReadProduct(s, i) == Some(Read(left, m)) && ProductResult(a, s, i) == Some(x)
  {
    hide ReadProduct, ProductValue;
  }

  lemma StartSum<V>(a: Arithmetic<V>, s: seq<Byte>, i: nat)
    requires i <= |s|
    ensures ProductResult(a, s, i).None? ==> SumResult(a, s, i).None?
    ensures ProductResult(a, s, i).Some? ==>
              var p := ReadProduct(s, i).value;
              && ReadSum(s, i) == ReadSumFrom(s, p.next, OneProduct(p.tree))
              && SumValue(a, OneProduct(p.tree)) == ProductResult(a, s, i)
  {
    var p := ReadProduct(s, i);
    if p.Some? && ProductValue(a, p.value.tree).None? {
      NoSumValue(a, s, p.value.next, OneProduct(p.value.tree));
    }
  }

  /** One round of the loop over products: the sum read so far grows by the product behind op. */
  lemma ChainSum<V>(a: Arithmetic<V>, s: seq<Byte>, i: nat, m: nat, left: Sum, op: Sign)
    returns (grown: Sum)
    requires i <= |s| && m <= |s| && ReadSum(s, i) == ReadSumFrom(s, m, left)
    requires SkipBlank(s, m) < |s| && s[SkipBlank(s, m)] == SignByte(op)
    requires SumValue(a, left).Some?
    ensures var right := ProductResult(a, s, SkipBlank(s, m) + 1); var x := SumValue(a, left).value;
      if right.None? then SumResult(a, s, i).None?
      else
        && ReadSum(s, i) == ReadSumFrom(s, ReadProduct(s, SkipBlank(s, m) + 1).value.next, grown)
        && SumValue(a, grown) == Some(if op.Plus? then a.add(x, right.value) else a.sub(x, right.value))
  {
    hide ReadProduct, ProductValue, SkipBlank, ReadSum;
    var k := SkipBlank(s, m);
    var p := ReadProduct(s, k + 1);
    grown := left;
    if p.Some? {
      grown := Added(left, s[m..k], op, p.value.tree);
      if SumValue(a, grown).None? {
        NoSumValue(a, s, p.value.next, grown);
      }
    }
  }

  lemma SumEnds(s: seq<Byte>, m: nat, left: Sum)
    requires m <= |s| && (SkipBlank(s, m) < |s| ==> s[SkipBlank(s, m)] != PLUS && s[SkipBlank(s, m)] != MINUS)
    ensures ReadSumFrom(s, m, left) == Some(Read(left, m))
  {
  }

  /** Soundness and completeness of the parser for its grammar: an input has the value v exactly when
      it derives a tree whose value is v and v is finite. Division by zero leaves a tree without value. */
  lemma EvaluatedDecidesGrammar<V>(a: Arithmetic<V>, s: seq<Byte>, v: V)
    ensures Evaluated(a, s) == Some(v) <==>
            exists e :: Derives(s, e) && SumValue(a, e) == Some(v) && a.isFinite(v)
  {
    if Evaluated(a, s) == Some(v) {
      ReadingInvertsWriting(s, ReadWhole(s).value);
    }
    forall e | Derives(s, e) ensures ReadWhole(s) == Some(e) {
      ReadingInvertsWriting(s, e);
    }
  }

  /** No input derives two trees, so no input has two values. */
  lemma GrammarIsUnambiguous(s: seq<Byte>, e1: Sum, e2: Sum)
    requires Derives(s, e1) && Derives(s, e2)
    ensures e1 == e2
  {
    ReadingInvertsWriting(s, e1);
    ReadingInvertsWriting(s, e2);
  }

  // ---- The parser

  class ExpressionParser<V> {
    const input: seq<Byte>
    const arithmetic: Arithmetic<V>
    var position: nat

    constructor (input: seq<Byte>, arithmetic: Arithmetic<V>)
      ensures this.input == input && this.arithmetic == arithmetic && position == 0
    {
      this.input, this.arithmetic, position := input, arithmetic, 0;
    }

    ghost predicate Valid()
      reads this
    {
      position <= |input|
    }

    function Peek(): Option<Byte>
      requires Valid()
      reads this
    {
      if position < |input| then Some(input[position]) else None
    }

    method Take() returns (b: Option<Byte>)
      requires Valid()
      modifies `position
      ensures Valid() && b == old(Peek())
      ensures position == if b.Some? then old(position) + 1 else old(position)
    {
      b := Peek();
      if b.Some? { position := position + 1; }
    }

    method Whitespace()
      requires Valid()
      modifies `position
      ensures Valid() && position == SkipBlank(input, old(position))
    {
      while Peek().Some? && IsBlank(Peek().value)
        invariant Valid() && SkipBlank(input, position) == SkipBlank(input, old(position))
        decreases |input| - position
      {
        position := position + 1;
      }
    }

    method Number() returns (r: Option<V>)
      requires Valid()
      modifies `position
      ensures Valid()
      ensures var k := SkipBlank(input, old(position)); var j := SkipNumeral(input, k, false);
        position == j && r == if k < j then arithmetic.number(input[k..j]) else None
    {
      Whitespace();
      var start := position;
      var dot := false;
      while Peek().Some?
        invariant start <= position && Valid()
        invariant SkipNumeral(input, position, dot) == SkipNumeral(input, start, false)
        decreases |input| - position
      {
        var byte := Peek().value;
        if IsDigit(byte) {
          position := position + 1;
        } else if byte == DOT && !dot {
          dot := true;
          position := position + 1;
        } else {
          break;
        }
      }
      r := if position > start then arithmetic.number(input[start..position]) else None;
    }

    method Factor(ghost depth: nat) returns (r: Option<V>)
      requires Valid() && depth <= 3 * position + 2
      modifies `position
      ensures Valid() && old(position) <= position
      ensures r == FactorResult(arithmetic, input, old(position))
      ensures r.Some? ==> position == ReadFactor(input, old(position)).value.next
      decreases |input| - position, 0
    {
      hide ReadSum, ReadProduct, ReadProductFrom, ReadSumFrom, SkipBlank, SkipNumeral, SumValue, ProductValue;
      Whitespace();
      if Peek().None? { return None; }
      var byte := Peek().value;
      if byte == PLUS {
        position := position + 1;
        r := Factor(depth + 1);
      } else if byte == MINUS {
        position := position + 1;
        var v := Factor(depth + 1);
        r := if v.Some? then Some(arithmetic.neg(v.value)) else None;
      } else if byte == OPEN {
        position := position + 1;
        var value := Expression(depth + 1);
        if value.None? { return None; }
        Whitespace();
        SkipBlankTwice(input, ReadSum(input, SkipBlank(input, old(position)) + 1).value.next);
        var byte' := Take();
        r := if byte' == Some(CLOSE) then value else None;
      } else {
        SkipBlankTwice(input, old(position));
        r := Number();
      }
    }

    method Term(ghost depth: nat) returns (r: Option<V>)
      requires Valid() && depth <= 3 * position + 1
      modifies `position
      ensures Valid() && old(position) <= position
      ensures r == ProductResult(arithmetic, input, old(position))
      ensures r.Some? ==> position == SkipBlank(input, ReadProduct(input, old(position)).value.next)
      decreases |input| - position, 1
    {
      hide ReadFactor, ReadProduct, ReadProductFrom, ReadSum, SkipBlank, ProductValue, FactorValue, ProductResult, FactorResult,
        ReadingProduct;
      var first := Factor(depth + 1);
      ghost var f0 := ReadFactor(input, old(position));
      StartProduct(arithmetic, input, old(position));
      if first.None? { return None; }
      var value := first.value;
      ghost var left := OneFactor(f0.value.tree);
      while true
        invariant Valid() && old(position) < position
        invariant ReadingProduct(arithmetic, input, old(position), position, left, value)
        decreases |input| - position
      {
        ghost var m := position;
        Whitespace();
        var next := Peek();
        if next == Some(STAR) {
          position := position + 1;
          var v := Factor(depth + 1);
          left := ChainProduct(arithmetic, input, old(position), m, left, value, Times);
          if v.None? { return None; }
          value := arithmetic.mul(value, v.value);
        } else if next == Some(SLASH) {
          position := position + 1;
          var divisor := Factor(depth + 1);
          left := ChainProduct(arithmetic, input, old(position), m, left, value, Over);
          if divisor.None? { return None; }
          if arithmetic.isZero(divisor.value) { return None; }
          value := arithmetic.div(value, divisor.value);
        } else {
          ProductEnds(arithmetic, input, old(position), m, left, value);
          return Some(value);
        }
      }
    }

    method Expression(ghost depth: nat) returns (r: Option<V>)
      requires Valid() && depth <= 3 * position
      modifies `position
      ensures Valid() && old(position) <= position
      ensures r == SumResult(arithmetic, input, old(position))
      ensures r.Some? ==> position == SkipBlank(input, ReadSum(input, old(position)).value.next)
      decreases |input| - position, 2
    {
      hide ReadProduct, ReadSum, ReadSumFrom, SkipBlank, SumValue, ProductValue;
      var first := Term(depth + 1);
      ghost var p0 := ReadProduct(input, old(position));
      StartSum(arithmetic, input, old(position));
      if first.None? { return None; }
      var value := first.value;
      ghost var left := OneProduct(p0.value.tree);
      ghost var m := p0.value.next;
      while true
        invariant Valid() && old(position) < m <= |input| && position == SkipBlank(input, m)
        invariant ReadSum(input, old(position)) == ReadSumFrom(input, m, left)
        invariant SumValue(arithmetic, left) == Some(value)
        decreases |input| - position
      {
        SkipBlankTwice(input, m);
        Whitespace();
        var next := Peek();
        if next == Some(PLUS) || next == Some(MINUS) {
          var plus := next == Some(PLUS);
          position := position + 1;
          ghost var p := ReadProduct(input, position);
          var v := Term(depth + 1);
          left := ChainSum(arithmetic, input, old(position), m, left, if plus then Plus else Minus);
          if v.None? { return None; }
          m := p.value.next;
          value := if plus then arithmetic.add(value, v.value) else arithmetic.sub(value, v.value);
        } else {
          SumEnds(input, m, left);
          return Some(value);
        }
      }
    }

    method Parse() returns (r: Option<V>)
      requires position == 0
      modifies `position
      ensures r == Evaluated(arithmetic, input)
    {
      var value := Expression(0);
      if value.None? { return None; }
      SkipBlankTwice(input, ReadSum(input, 0).value.next);
      Whitespace();
      r := if position == |input| && arithmetic.isFinite(value.value) then value else None;
    }
  }

  // ---- The launcher's entry point

  predicate IsOperator(b: Byte) { b == PLUS || b == MINUS || b == STAR || b == SLASH }

  function Zeros(n: nat): string { seq(n, i => '0') }

  /** out is the decimal text full without its trailing zeros, and without its dot when nothing follows it. */
  ghost predicate Trims(full: string, out: string) {
    if '.' !in full then out == full
    else
      || (exists n: nat :: full == out + Zeros(n) && out != [] && out[|out| - 1] !in "0.")
      || (exists n: nat :: full == out + "." + Zeros(n))
  }

  /** `expression` is already trimmed; `format` is the eight-decimal text of a number. */
  method Calculate<V>(expression: seq<Byte>, a: Arithmetic<V>, format: V -> string) returns (r: Option<string>)
    ensures r.Some? ==>
      && 0 < |expression| <= 128 && (exists i :: 0 <= i < |expression| && IsOperator(expression[i]))
      && Evaluated(a, expression).Some? && Trims(format(Evaluated(a, expression).value), r.value)
    ensures r.None? ==>
      || |expression| == 0 || |expression| > 128 || (forall i :: 0 <= i < |expression| ==> !IsOperator(expression[i]))
      || Evaluated(a, expression).None?
  {
    if |expression| == 0 || |expression| > 128 || !exists i :: 0 <= i < |expression| && IsOperator(expression[i]) {
      return None;
    }
    var parser := new ExpressionParser(expression, a);
    var value := parser.Parse();
    if value.None? { return None; }
    var formatted := format(value.value);
    ghost var full, n := formatted, 0;
    assert full == formatted + Zeros(0);
    while '.' in formatted && formatted[|formatted| - 1] == '0'
      invariant full == formatted + Zeros(n)
      invariant '.' in full ==> '.' in formatted
      invariant '.' !in full ==> formatted == full
      decreases |formatted|
    {
      DropZero(full, formatted, n);
      formatted, n := formatted[..|formatted| - 1], n + 1;
    }
    if formatted != [] && formatted[|formatted| - 1] == '.' {
      assert full == formatted[..|formatted| - 1] + "." + Zeros(n);
      formatted := formatted[..|formatted| - 1];
    }
    r := Some(formatted);
  }

  lemma DropZero(full: string, s: string, n: nat)
    requires s != [] && s[|s| - 1] == '0' && full == s + Zeros(n)
    ensures full == s[..|s| - 1] + Zeros(n + 1)
    ensures '.' in s ==> '.' in s[..|s| - 1]
  {
    assert s == s[..|s| - 1] + ['0'];
    assert Zeros(n + 1) == ['0'] + Zeros(n);
  }
}

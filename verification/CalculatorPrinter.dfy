/** Printing an expression with the brackets its shape needs, and that parsing the text evaluates it. */
module CalculatorPrinter {
  import opened Basics
  import opened CalculatorGrammar
  import opened CalculatorReading
  import opened Calculator

  datatype Expr =
    | Num(text: seq<Byte>)
    | Signing(sign: Sign, operand: Expr)
    | Scaling(left: Expr, scale: Scale, right: Expr)
    | Adding(left: Expr, op: Sign, right: Expr)

  function Ascii(c: char): Byte
    requires (c as int) < 128
  {
    c as int
  }

  /** Digits, and at most one dot. */
  predicate Decimal(text: seq<Byte>) {
    && text != [] && (forall i | 0 <= i < |text| :: text[i] == Ascii('.') || Ascii('0') <= text[i] <= Ascii('9'))
    && forall i, j | 0 <= i < j < |text| :: text[i] != Ascii('.') || text[j] != Ascii('.')
  }

  lemma {:induction false} DotsCounted(text: seq<Byte>)
    ensures Dots(text) == 0 <==> forall i | 0 <= i < |text| :: text[i] != DOT
    ensures Dots(text) <= 1 <==> forall i, j | 0 <= i < j < |text| :: text[i] != DOT || text[j] != DOT
  {
    if text != [] {
      var rest := text[1..];
      DotsCounted(rest);
      forall i | 0 < i < |text| ensures text[i] == rest[i - 1] {}
      if forall i, j | 0 <= i < j < |text| :: text[i] != DOT || text[j] != DOT {
        forall i, j | 0 <= i < j < |rest| ensures rest[i] != DOT || rest[j] != DOT {
          assert text[i + 1] == rest[i] && text[j + 1] == rest[j];
        }
        if text[0] == DOT {
          forall i | 0 <= i < |rest| ensures rest[i] != DOT { assert text[i + 1] == rest[i]; }
        }
      }
    }
  }

  lemma DecimalIsNumeral(text: seq<Byte>)
    ensures Decimal(text) <==> IsNumeral(text)
  {
    DotsCounted(text);
  }

  predicate Printable(x: Expr) {
    match x
    case Num(text) => Decimal(text)
    case Signing(_, y) => Printable(y)
    case Scaling(l, _, r) => Printable(l) && Printable(r)
    case Adding(l, _, r) => Printable(l) && Printable(r)
  }

  function Value<V>(a: Arithmetic<V>, x: Expr): Option<V> {
    match x
    case Num(text) => a.number(text)
    case Signing(sign, y) =>
      var v := Value(a, y);
      if sign.Plus? then v else if v.Some? then Some(a.neg(v.value)) else None
    case Scaling(l, op, r) =>
      var d := Value(a, r);
      if op.Over? && d.Some? && a.isZero(d.value) then None
      else Apply(Value(a, l), d, if op.Times? then a.mul else a.div)
    case Adding(l, op, r) => Apply(Value(a, l), Value(a, r), if op.Plus? then a.add else a.sub)
  }

  function AsFactor(x: Expr): Factor
    decreases x, if x.Adding? then 2 else 3
  {
    match x
    case Num(text) => Literal([], text)
    case Signing(sign, y) => Signed([], sign, AsFactor(y))
    case Scaling(_, _, _) => Group([], AsSum(x), [])
    case Adding(_, _, _) => Group([], AsSum(x), [])
  }

  function AsProduct(x: Expr): Product
    decreases x, if x.Scaling? then 1 else 4
  {
    match x
    case Scaling(l, op, r) => Scaled(AsProduct(l), [], op, AsFactor(r))
    case _ => OneFactor(AsFactor(x))
  }

  function AsSum(x: Expr): Sum
    decreases x, if x.Adding? then 1 else if x.Scaling? then 2 else 5
  {
    match x
    case Adding(l, op, r) => Added(AsSum(l), [32], op, AsProduct(r))
    case _ => OneProduct(AsProduct(x))
  }

  // ---- The text, told without the tree

  function PrintFactor(x: Expr): seq<Byte>
    decreases x, if x.Adding? then 2 else 3
  {
    match x
    case Num(text) => text
    case Signing(sign, y) => [Ascii(if sign.Plus? then '+' else '-')] + PrintFactor(y)
    case _ => [Ascii('(')] + Print(x) + [Ascii(')')]
  }

  function PrintProduct(x: Expr): seq<Byte>
    decreases x, if x.Scaling? then 1 else 4
  {
    match x
    case Scaling(l, op, r) => PrintProduct(l) + [Ascii(if op.Times? then '*' else '/')] + PrintFactor(r)
    case _ => PrintFactor(x)
  }

  /** Products and quotients bind tighter than sums and differences, and all of them to the left. */
  function Print(x: Expr): seq<Byte>
    decreases x, if x.Adding? then 1 else if x.Scaling? then 2 else 5
  {
    match x
    case Adding(l, op, r) => Print(l) + [Ascii(' '), Ascii(if op.Plus? then '+' else '-')] + PrintProduct(r)
    case _ => PrintProduct(x)
  }

  lemma {:induction false} PrintedText(x: Expr)
    ensures PrintFactor(x) == FactorText(AsFactor(x))
    ensures PrintProduct(x) == ProductText(AsProduct(x))
    ensures Print(x) == SumText(AsSum(x))
  {
    match x
    case Num(_) =>
    case Signing(_, y) => PrintedText(y);
    case Scaling(l, op, r) =>
      PrintedText(l);
      PrintedText(r);
      assert AsProduct(x) == Scaled(AsProduct(l), [], op, AsFactor(r));
      assert PrintProduct(x) == ProductText(AsProduct(x));
      assert AsSum(x) == OneProduct(AsProduct(x)) && Print(x) == PrintProduct(x);
      BracketedText(x);
    case Adding(l, op, r) =>
      PrintedText(l);
      PrintedText(r);
      assert AsSum(x) == Added(AsSum(l), [32], op, AsProduct(r));
      assert Print(x) == SumText(AsSum(x));
      BracketedText(x);
  }

  lemma BracketedText(x: Expr)
    requires (x.Scaling? || x.Adding?) && Print(x) == SumText(AsSum(x))
    ensures PrintFactor(x) == FactorText(AsFactor(x))
    ensures x.Adding? ==> PrintProduct(x) == ProductText(AsProduct(x))
  {
    hide Print, SumText, AsSum;
    var inner := SumText(AsSum(x));
    assert FactorText(AsFactor(x)) == [] + ([OPEN] + (inner + ([] + [CLOSE])));
    assert x.Adding? ==> AsProduct(x) == OneFactor(AsFactor(x));
  }

  lemma GroupValue<V>(a: Arithmetic<V>, x: Expr)
    requires x.Scaling? || x.Adding?
    ensures FactorValue(a, AsFactor(x)) == SumValue(a, AsSum(x))
    ensures FactorOk(AsFactor(x)) <==> SumOk(AsSum(x))
  {
  }

  lemma {:induction false} PrintedShape<V>(a: Arithmetic<V>, x: Expr)
    requires Printable(x)
    ensures FactorOk(AsFactor(x)) && FactorValue(a, AsFactor(x)) == Value(a, x)
    ensures ProductOk(AsProduct(x)) && ProductValue(a, AsProduct(x)) == Value(a, x)
    ensures SumOk(AsSum(x)) && SumValue(a, AsSum(x)) == Value(a, x)
  {
    match x
    case Num(text) => DecimalIsNumeral(text);
    case Signing(_, y) => PrintedShape(a, y);
    case Scaling(l, _, r) =>
      PrintedShape(a, l);
      PrintedShape(a, r);
      assert AsProduct(x) == Scaled(AsProduct(l), [], x.scale, AsFactor(r));
      assert ProductValue(a, AsProduct(x)) == Value(a, x);
      assert AsSum(x) == OneProduct(AsProduct(x));
      assert SumValue(a, AsSum(x)) == Value(a, x);
      GroupValue(a, x);
    case Adding(l, _, r) =>
      PrintedShape(a, l);
      PrintedShape(a, r);
      assert AsSum(x) == Added(AsSum(l), [32], x.op, AsProduct(r));
      assert SumValue(a, AsSum(x)) == Value(a, x);
      GroupValue(a, x);
  }

  /** parse(print(x)) is the finite value of x. */
  lemma ParsePrint<V>(a: Arithmetic<V>, x: Expr)
    requires Printable(x)
    ensures Evaluated(a, Print(x)) == Finite(a, Value(a, x))
  {
    PrintedShape(a, x);
    PrintedText(x);
    assert Derives(Print(x), AsSum(x)) by {
      assert Print(x)[..|SumText(AsSum(x))|] == Print(x);
      assert Print(x)[|SumText(AsSum(x))|..] == [];
    }
    ReadingInvertsWriting(Print(x), AsSum(x));
  }
}

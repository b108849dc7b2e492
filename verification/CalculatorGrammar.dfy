/** The launcher's calculator: the grammar its expression parser accepts, as trees.

    A tree keeps every byte of the text it was read from, blanks included, so that the text of a
    tree is a function and "this text derives that tree" is an equation. Products and sums chain to
    the left, which makes left associativity and precedence part of the shape of a tree. */
module CalculatorGrammar {
  import opened Basics

  /** The number operations of the parser, left open: every result below holds for all of them. */
  datatype Arithmetic<!V> = Arithmetic(
    add: (V, V) -> V,
    sub: (V, V) -> V,
    mul: (V, V) -> V,
    div: (V, V) -> V,
    neg: V -> V,
    isZero: V -> bool,
    isFinite: V -> bool,
    number: seq<Byte> -> Option<V>)

  datatype Sign = Plus | Minus

  datatype Scale = Times | Over

  datatype Factor =
    | Literal(blank: seq<Byte>, text: seq<Byte>)
    | Signed(blank: seq<Byte>, sign: Sign, operand: Factor)
    | Group(blank: seq<Byte>, inner: Sum, close: seq<Byte>)

  datatype Product =
    | OneFactor(factor: Factor)
    | Scaled(left: Product, blank: seq<Byte>, op: Scale, right: Factor)

  datatype Sum =
    | OneProduct(product: Product)
    | Added(left: Sum, blank: seq<Byte>, op: Sign, right: Product)

  const OPEN: Byte := 40
  const CLOSE: Byte := 41
  const STAR: Byte := 42
  const PLUS: Byte := 43
  const MINUS: Byte := 45
  const DOT: Byte := 46
  const SLASH: Byte := 47

  predicate IsDigit(b: Byte) { 48 <= b <= 57 }

  /** The blanks of `u8::is_ascii_whitespace`. */
  predicate IsBlank(b: Byte) { b == 32 || b == 9 || b == 10 || b == 12 || b == 13 }

  predicate Blank(s: seq<Byte>) { forall i | 0 <= i < |s| :: IsBlank(s[i]) }

  predicate Numeric(s: seq<Byte>) { forall i | 0 <= i < |s| :: IsDigit(s[i]) || s[i] == DOT }

  function SignByte(s: Sign): Byte { if s.Plus? then PLUS else MINUS }

  function ScaleByte(s: Scale): Byte { if s.Times? then STAR else SLASH }

  function Dots(s: seq<Byte>): nat {
    if s == [] then 0 else (if s[0] == DOT then 1 else 0) + Dots(s[1..])
  }

  /** Digits with at most one dot, and at least one byte: what the number scanner can take. */
  predicate IsNumeral(s: seq<Byte>) {
    s != [] && Numeric(s) && Dots(s) <= 1
  }

  // ---- The trees of the grammar

  predicate FactorOk(f: Factor) {
    match f
    case Literal(blank, text) => Blank(blank) && IsNumeral(text)
    case Signed(blank, _, operand) => Blank(blank) && FactorOk(operand)
    case Group(blank, inner, close) => Blank(blank) && SumOk(inner) && Blank(close)
  }

  predicate ProductOk(p: Product) {
    match p
    case OneFactor(f) => FactorOk(f)
    case Scaled(left, blank, _, right) => ProductOk(left) && Blank(blank) && FactorOk(right)
  }

  predicate SumOk(e: Sum) {
    match e
    case OneProduct(p) => ProductOk(p)
    case Added(left, blank, _, right) => SumOk(left) && Blank(blank) && ProductOk(right)
  }

  // ---- The text of a tree

  function FactorText(f: Factor): seq<Byte> {
    match f
    case Literal(blank, text) => blank + text
    case Signed(blank, sign, operand) => blank + ([SignByte(sign)] + FactorText(operand))
    case Group(blank, inner, close) => blank + ([OPEN] + (SumText(inner) + (close + [CLOSE])))
  }

  function ProductText(p: Product): seq<Byte> {
    match p
    case OneFactor(f) => FactorText(f)
    case Scaled(left, blank, op, right) => ProductText(left) + (blank + ([ScaleByte(op)] + FactorText(right)))
  }

  function SumText(e: Sum): seq<Byte> {
    match e
    case OneProduct(p) => ProductText(p)
    case Added(left, blank, op, right) => SumText(left) + (blank + ([SignByte(op)] + ProductText(right)))
  }

  // ---- The value of a tree: none when a numeral is rejected or a divisor is zero

  function Apply<V>(x: Option<V>, y: Option<V>, f: (V, V) -> V): Option<V> {
    if x.Some? && y.Some? then Some(f(x.value, y.value)) else None
  }

  function FactorValue<V>(a: Arithmetic<V>, f: Factor): Option<V> {
    match f
    case Literal(_, text) => a.number(text)
    case Signed(_, sign, operand) =>
      var v := FactorValue(a, operand);
      if v.Some? && sign.Minus? then Some(a.neg(v.value)) else v
    case Group(_, inner, _) => SumValue(a, inner)
  }

  function ProductValue<V>(a: Arithmetic<V>, p: Product): Option<V> {
    match p
    case OneFactor(f) => FactorValue(a, f)
    case Scaled(left, _, op, right) =>
      var x, y := ProductValue(a, left), FactorValue(a, right);
      if op.Times? then Apply(x, y, a.mul)
      else if y.Some? && a.isZero(y.value) then None
      else Apply(x, y, a.div)
  }

  function SumValue<V>(a: Arithmetic<V>, e: Sum): Option<V> {
    match e
    case OneProduct(p) => ProductValue(a, p)
    case Added(left, _, op, right) =>
      Apply(SumValue(a, left), ProductValue(a, right), if op.Plus? then a.add else a.sub)
  }

  /** The text derives the tree: the tree is well formed and its text, then blanks, is the whole input. */
  predicate Derives(input: seq<Byte>, e: Sum) {
    && SumOk(e)
    && |SumText(e)| <= |input|
    && input[..|SumText(e)|] == SumText(e)
    && Blank(input[|SumText(e)|..])
  }
}

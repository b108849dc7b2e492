/** Laws of evaluation that hold for every input: what a leading plus and leading blanks mean. */
module CalculatorLaws {
  import opened Basics
  import opened CalculatorGrammar
  import opened CalculatorReading
  import opened Calculator

  // ---- The first factor of a tree

  function FirstOfProduct(p: Product): Factor {
    match p
    case OneFactor(f) => f
    case Scaled(left, _, _, _) => FirstOfProduct(left)
  }

  function FirstOfSum(e: Sum): Factor {
    match e
    case OneProduct(p) => FirstOfProduct(p)
    case Added(left, _, _, _) => FirstOfSum(left)
  }

  function WithFirstOfProduct(p: Product, f: Factor): Product {
    match p
    case OneFactor(_) => OneFactor(f)
    case Scaled(left, blank, op, right) => Scaled(WithFirstOfProduct(left, f), blank, op, right)
  }

  function WithFirst(e: Sum, f: Factor): Sum {
    match e
    case OneProduct(p) => OneProduct(WithFirstOfProduct(p, f))
    case Added(left, blank, op, right) => Added(WithFirst(left, f), blank, op, right)
  }

  lemma {:induction false} ReplacedTwiceInProduct(p: Product, f: Factor, g: Factor)
    ensures FirstOfProduct(WithFirstOfProduct(p, f)) == f && WithFirstOfProduct(p, FirstOfProduct(p)) == p
    ensures WithFirstOfProduct(WithFirstOfProduct(p, f), g) == WithFirstOfProduct(p, g)
  {
    if p.Scaled? { ReplacedTwiceInProduct(p.left, f, g); }
  }

  lemma {:induction false} ReplacedTwice(e: Sum, f: Factor, g: Factor)
    ensures FirstOfSum(WithFirst(e, f)) == f && WithFirst(e, FirstOfSum(e)) == e
    ensures WithFirst(WithFirst(e, f), g) == WithFirst(e, g)
  {
    match e
    case OneProduct(p) => ReplacedTwiceInProduct(p, f, g);
    case Added(left, _, _, _) => ReplacedTwice(left, f, g);
  }

  lemma {:induction false} FirstOfProductText(p: Product)
    ensures FactorText(FirstOfProduct(p)) <= ProductText(p) && (ProductOk(p) ==> FactorOk(FirstOfProduct(p)))
  {
    hide FactorText, FactorOk;
    if p.Scaled? { FirstOfProductText(p.left); }
  }

  /** The text of a tree begins with that of its first factor. */
  lemma {:induction false} FirstOfSumText(e: Sum)
    ensures FactorText(FirstOfSum(e)) <= SumText(e) && (SumOk(e) ==> FactorOk(FirstOfSum(e)))
  {
    hide FactorText, FactorOk, ProductText, ProductOk;
    match e
    case OneProduct(p) => FirstOfProductText(p);
    case Added(left, _, _, _) => FirstOfSumText(left);
  }

  /** g is f with more text in front, and of the same value. */
  ghost predicate Extends<V>(a: Arithmetic<V>, f: Factor, g: Factor, front: seq<Byte>) {
    FactorText(g) == front + FactorText(f) && (FactorOk(g) <==> FactorOk(f)) && FactorValue(a, g) == FactorValue(a, f)
  }

  lemma {:induction false} ExtendedProduct<V>(a: Arithmetic<V>, p: Product, g: Factor, front: seq<Byte>)
    requires Extends(a, FirstOfProduct(p), g, front)
    ensures var q := WithFirstOfProduct(p, g);
      && ProductText(q) == front + ProductText(p) && (ProductOk(q) <==> ProductOk(p))
      && ProductValue(a, q) == ProductValue(a, p)
  {
    hide FactorText, FactorOk, FactorValue;
    match p
    case OneFactor(_) =>
    case Scaled(left, blank, op, right) =>
      ExtendedProduct(a, left, g, front);
      var tail := blank + ([ScaleByte(op)] + FactorText(right));
      assert front + ProductText(left) + tail == front + (ProductText(left) + tail);
  }

  lemma {:induction false} ExtendedSum<V>(a: Arithmetic<V>, e: Sum, g: Factor, front: seq<Byte>)
    requires Extends(a, FirstOfSum(e), g, front)
    ensures var q := WithFirst(e, g);
      SumText(q) == front + SumText(e) && (SumOk(q) <==> SumOk(e)) && SumValue(a, q) == SumValue(a, e)
  {
    hide FactorText, FactorOk, FactorValue, ProductText, ProductOk, ProductValue, Extends;
    match e
    case OneProduct(p) => ExtendedProduct(a, p, g, front);
    case Added(left, blank, op, right) =>
      ExtendedSum(a, left, g, front);
      var tail := blank + ([SignByte(op)] + ProductText(right));
      assert front + SumText(left) + tail == front + (SumText(left) + tail);
  }

  /** The longer tree is derived from the longer input. */
  lemma DerivesExtended<V>(a: Arithmetic<V>, s: seq<Byte>, e: Sum, g: Factor, front: seq<Byte>)
    requires Extends(a, FirstOfSum(e), g, front)
    ensures Derives(front + s, WithFirst(e, g)) <==> Derives(s, e)
    ensures SumValue(a, WithFirst(e, g)) == SumValue(a, e)
  {
    ExtendedSum(a, e, g, front);
    hide SumText, SumOk, SumValue, Blank, Extends, WithFirst;
    var text := SumText(e);
    var n, m := |front|, |text|;
    if m <= |s| {
      assert (front + s)[..n + m] == front + s[..m];
      assert (front + s)[n + m..] == s[m..];
      assert (front + s[..m])[n..] == s[..m] && (front + text)[n..] == text;
    }
  }

  /** When every tree of the one input is that of the other with a longer first factor, the inputs have one value. */
  lemma SameValue<V>(a: Arithmetic<V>, s: seq<Byte>, front: seq<Byte>, longer: Factor -> Factor, shorter: Factor -> Factor)
    requires forall f :: Extends(a, f, longer(f), front)
    requires forall e | Derives(front + s, e) :: longer(shorter(FirstOfSum(e))) == FirstOfSum(e)
    ensures Evaluated(a, front + s) == Evaluated(a, s)
  {
    hide Derives, SumValue, ReadWhole, Finite, Extends, WithFirst, FirstOfSum;
    var r, q := ReadWhole(s), ReadWhole(front + s);
    if r.Some? {
      var e := r.value;
      var g := longer(FirstOfSum(e));
      ReadingInvertsWriting(s, e);
      DerivesExtended(a, s, e, g, front);
      ReadingInvertsWriting(front + s, WithFirst(e, g));
    } else if q.Some? {
      var e := q.value;
      ReadingInvertsWriting(front + s, e);
      var g := FirstOfSum(e);
      var f := shorter(g);
      ReplacedTwice(e, f, g);
      assert Extends(a, f, longer(f), front);
      DerivesExtended(a, s, WithFirst(e, f), g, front);
      ReadingInvertsWriting(s, WithFirst(e, f));
    }
  }

  // ---- The laws

  lemma FirstByte(s: seq<Byte>, b: Byte, e: Sum)
    requires Derives([b] + s, e)
    ensures var text := FactorText(FirstOfSum(e)); text != [] && text[0] == b && FactorOk(FirstOfSum(e))
  {
    FirstOfSumText(e);
    FactorHasText(FirstOfSum(e));
    hide SumText, SumOk, FactorText, FactorOk;
    var text := FactorText(FirstOfSum(e));
    assert text[0] == SumText(e)[0] == ([b] + s)[..|SumText(e)|][0];
  }

  lemma FactorHasText(f: Factor)
    requires FactorOk(f)
    ensures FactorText(f) != []
  {
  }

  function Positive(f: Factor): Factor { Signed([], Plus, f) }

  function WithoutSign(f: Factor): Factor { if f.Signed? then f.operand else f }

  /** A plus in front of an expression does not change its value, and makes no input an expression that is none. */
  lemma LeadingPlus<V>(a: Arithmetic<V>, s: seq<Byte>)
    ensures Evaluated(a, [43] + s) == Evaluated(a, s)
  {
    forall f ensures Extends(a, f, Positive(f), [43]) {
      assert [] + ([43] + FactorText(f)) == [43] + FactorText(f);
    }
    forall e | Derives([43] + s, e) ensures Positive(WithoutSign(FirstOfSum(e))) == FirstOfSum(e) {
      FirstByte(s, 43, e);
      BeginsWithPlus(FirstOfSum(e));
    }
    hide Derives, Extends, Evaluated;
    SameValue(a, s, [43], Positive, WithoutSign);
  }

  lemma BeginsWithPlus(f: Factor)
    requires FactorOk(f) && FactorText(f) != [] && FactorText(f)[0] == 43
    ensures f.Signed? && f.blank == [] && f.sign == Plus
  {
  }

  function Padded(b: Byte, f: Factor): Factor { f.(blank := [b] + f.blank) }

  function Unpadded(f: Factor): Factor { if f.blank == [] then f else f.(blank := f.blank[1..]) }

  /** Neither does a space, a tab, a line feed, a form feed or a carriage return in front. */
  lemma LeadingBlank<V>(a: Arithmetic<V>, b: Byte, s: seq<Byte>)
    requires b == 32 || b == 9 || b == 10 || b == 12 || b == 13
    ensures Evaluated(a, [b] + s) == Evaluated(a, s)
  {
    var longer := f => Padded(b, f);
    forall f ensures Extends(a, f, longer(f), [b]) { PaddedExtends(a, b, f); }
    forall e | Derives([b] + s, e) ensures longer(Unpadded(FirstOfSum(e))) == FirstOfSum(e) {
      FirstByte(s, b, e);
      BeginsBlank(FirstOfSum(e), b);
    }
    hide Derives, Extends, Evaluated;
    SameValue(a, s, [b], longer, Unpadded);
  }

  lemma PaddedExtends<V>(a: Arithmetic<V>, b: Byte, f: Factor)
    requires IsBlank(b)
    ensures Extends(a, f, Padded(b, f), [b])
  {
    var g := Padded(b, f);
    assert FactorText(g) == [b] + FactorText(f);
    assert Blank(g.blank) <==> Blank(f.blank) by {
      assert g.blank[0] == b && g.blank[1..] == f.blank;
      if Blank(g.blank) { assert forall i | 0 <= i < |f.blank| :: f.blank[i] == g.blank[i + 1]; }
    }
  }

  lemma BeginsBlank(f: Factor, b: Byte)
    requires FactorOk(f) && FactorText(f) != [] && FactorText(f)[0] == b && IsBlank(b)
    ensures f.blank != [] && Padded(b, Unpadded(f)) == f
  {
    if f.blank != [] {
      assert FactorText(f)[0] == f.blank[0];
      assert [b] + f.blank[1..] == f.blank;
    }
  }
}

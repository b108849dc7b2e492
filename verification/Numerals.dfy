/** Numbers written as ASCII digits in a base, and read back as Rust's integer parsers do. */
module Numerals {
  import opened Basics

  const U64_MAX: nat := 0xFFFF_FFFF_FFFF_FFFF
  const ZERO: Byte := 48
  const PLUS_SIGN: Byte := 43

  predicate IsDigitIn(b: Byte, base: nat) { 48 <= b < 48 + base && base <= 10 }

  predicate DigitsIn(s: seq<Byte>, base: nat) { forall i | 0 <= i < |s| :: IsDigitIn(s[i], base) }

  function Value(s: seq<Byte>, base: nat): nat
    requires DigitsIn(s, base)
  {
    if s == [] then 0 else Value(s[..|s| - 1], base) * base + (s[|s| - 1] - 48)
  }

  /** `from_str_radix` for an unsigned 64-bit integer: an optional plus, then digits; empty, foreign or too large is none. */
  function Parse(s: seq<Byte>, base: nat): Option<nat> {
    var digits := if s != [] && s[0] == PLUS_SIGN then s[1..] else s;
    if digits == [] || !DigitsIn(digits, base) || Value(digits, base) > U64_MAX then None
    else Some(Value(digits, base))
  }

  /** The digits of n, without leading zeros. */
  function Digits(n: nat, base: nat): (s: seq<Byte>)
    requires 2 <= base <= 10
    ensures s != [] && DigitsIn(s, base)
  {
    if n < base then [48 + n]
    else
      DivShrinks(n, base);
      Digits(n / base, base) + [48 + n % base]
  }

  lemma DivShrinks(n: nat, base: nat)
    requires 2 <= base <= n
    ensures 0 < n / base < n
  {
  }

  lemma DivMod(n: nat, base: nat)
    requires base >= 1
    ensures n / base * base + n % base == n
  {
  }

  function Power(base: nat, k: nat): nat {
    if k == 0 then 1 else base * Power(base, k - 1)
  }

  lemma {:induction false} ValueOfDigits(n: nat, base: nat)
    requires 2 <= base <= 10
    ensures Value(Digits(n, base), base) == n
  {
    hide DigitsIn;
    var s := Digits(n, base);
    if n < base {
      assert s[..0] == [];
    } else {
      DivShrinks(n, base);
      ValueOfDigits(n / base, base);
      assert s[..|s| - 1] == Digits(n / base, base);
      DivMod(n, base);
    }
  }

  lemma ParseDigits(n: nat, base: nat)
    requires 2 <= base <= 10 && n <= U64_MAX
    ensures Parse(Digits(n, base), base) == Some(n)
  {
    ValueOfDigits(n, base);
    assert IsDigitIn(Digits(n, base)[0], base);
  }

  function Zeros(n: nat): (s: seq<Byte>)
    ensures |s| == n && forall i | 0 <= i < n :: s[i] == ZERO
  {
    seq(n, _ => ZERO)
  }

  lemma {:induction false} ValueWithZeros(k: nat, s: seq<Byte>, base: nat)
    requires 2 <= base <= 10 && DigitsIn(s, base)
    ensures DigitsIn(Zeros(k) + s, base) && Value(Zeros(k) + s, base) == Value(s, base)
    decreases |s| + k
  {
    var t := Zeros(k) + s;
    if s != [] {
      assert t[..|t| - 1] == Zeros(k) + s[..|s| - 1];
      ValueWithZeros(k, s[..|s| - 1], base);
    } else if k > 0 {
      assert t[..|t| - 1] == Zeros(k - 1) + [];
      ValueWithZeros(k - 1, [], base);
    }
  }

  /** A number takes at most k digits exactly when it is below the k-th power of the base. */
  lemma {:induction false} DigitsFit(n: nat, base: nat, k: nat)
    requires 2 <= base <= 10 && k >= 1
    ensures |Digits(n, base)| <= k <==> n < Power(base, k)
  {
    hide Power, DigitsIn;
    PowerStep(base, k);
    if n < base {
      PowerGrows(base, k - 1);
      BaseTimes(base, Power(base, k - 1));
    } else {
      DivShrinks(n, base);
      if k > 1 {
        DigitsFit(n / base, base, k - 1);
        BelowTimes(n, base, Power(base, k - 1));
      }
    }
  }

  lemma PowerStep(base: nat, k: nat)
    requires k >= 1
    ensures Power(base, k) == base * Power(base, k - 1) && Power(base, 0) == 1
    ensures k == 1 ==> Power(base, k) == base
  {
  }

  lemma BaseTimes(base: nat, p: nat)
    requires p >= 1
    ensures base * p >= base
  {
  }

  lemma {:induction false} PowerGrows(base: nat, k: nat)
    requires base >= 2
    ensures Power(base, k) >= 1
  {
    if k > 0 {
      PowerGrows(base, k - 1);
      BaseTimes(base, Power(base, k - 1));
    }
  }

  lemma BelowTimes(n: nat, base: nat, p: nat)
    requires base >= 2
    ensures n / base < p <==> n < base * p
  {
    var q, r := n / base, n % base;
    assert n == base * q + r && r < base;
    if q < p {
      assert base * (q + 1) <= base * p;
    } else {
      assert base * q >= base * p;
    }
  }
}

/** Datatypes, byte-level helpers and the cancel flag, shared by the other modules. */
module Basics {

  datatype Option<+T> = None | Some(value: T)

  datatype Result<+T, +E> = Ok(value: T) | Err(error: E)

  type Byte = x: int | 0 <= x < 256

  /** Every element of s satisfies p. */
  predicate All<T>(s: seq<T>, p: T -> bool) {
    forall i | 0 <= i < |s| :: p(s[i])
  }

  /** s[i..j] is exactly text. */
  predicate Spells<T(==)>(s: seq<T>, i: nat, text: seq<T>) {
    i + |text| <= |s| && s[i..i + |text|] == text
  }

  /** A text spelled at i that is a concatenation is its parts spelled one after the other. */
  lemma SpellsConcat<T>(s: seq<T>, i: nat, a: seq<T>, b: seq<T>)
    ensures Spells(s, i, a + b) <==> Spells(s, i, a) && Spells(s, i + |a|, b)
  {
    if i + |a| + |b| <= |s| {
      assert s[i..i + |a| + |b|] == s[i..i + |a|] + s[i + |a|..i + |a| + |b|];
      assert s[i..i + |a + b|][..|a|] == s[i..i + |a|];
      assert (a + b)[..|a|] == a && (a + b)[|a|..] == b;
    }
  }

  /** The flag by which the user cancels. It may be raised at any time and stays raised. */
  class CancelFlag {
    var raised: bool

    twostate predicate Monotone()
      reads this
    {
      old(raised) ==> raised
    }

    method Load() returns (r: bool)
      modifies this
      ensures r == raised && Monotone()
    {
      if * { raised := true; }
      r := raised;
    }
  }
}

/** Paths as sequences of names, and the trees of paths below one another. */
module Paths {
  import opened Basics

  type Name = seq<Byte>
  type Path = seq<Name>

  function Parent(p: Path): Path
    requires p != []
  {
    p[..|p| - 1]
  }

  /** Neither path lies at or below the other. */
  predicate Apart(a: Path, b: Path) { !(a <= b) && !(b <= a) }

  /** p with the subtrees at a and b exchanged. */
  function Swap(p: Path, a: Path, b: Path): Path {
    if a <= p then b + p[|a|..] else if b <= p then a + p[|b|..] else p
  }

  lemma PrefixesCompare(a: Path, b: Path, p: Path)
    requires a <= p && b <= p
    ensures a <= b || b <= a
  {
    assert a == p[..|a|] && b == p[..|b|];
    assert |a| <= |b| ==> b[..|a|] == a;
    assert |b| <= |a| ==> a[..|b|] == b;
  }

  /** Nothing lies below two paths that are apart. */
  lemma ApartTrees(a: Path, b: Path, p: Path)
    requires Apart(a, b)
    ensures !(a <= p && b <= p)
  {
    if a <= p && b <= p { PrefixesCompare(a, b, p); }
  }

  lemma SwapTwice(p: Path, a: Path, b: Path)
    requires Apart(a, b)
    ensures Swap(Swap(p, a, b), a, b) == p
  {
    var q := Swap(p, a, b);
    if a <= p {
      assert b <= q && q[|b|..] == p[|a|..];
      ApartTrees(a, b, q);
      assert a + p[|a|..] == p;
    } else if b <= p {
      assert a <= q && q[|a|..] == p[|b|..];
      assert b + p[|b|..] == p;
    }
  }

  /** What Swap does at, below and beside the two paths. */
  lemma SwapBelow(a: Path, b: Path, rest: Path)
    requires Apart(a, b)
    ensures Swap(a + rest, a, b) == b + rest && Swap(b + rest, a, b) == a + rest
  {
    assert (a + rest)[|a|..] == rest && (b + rest)[|b|..] == rest;
    ApartTrees(a, b, b + rest);
  }

  lemma BelowIs(a: Path, p: Path)
    requires a <= p
    ensures p == a + p[|a|..]
  {
  }

  lemma BelowTransitive(a: Path, b: Path, c: Path)
    requires a <= b && b <= c
    ensures a <= c
  {
  }
}

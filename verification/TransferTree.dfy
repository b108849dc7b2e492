/** File system trees for transfers, renaming in them, and what it means that nothing is lost. */
module TransferTree {
  import opened Basics
  import opened Paths

  /** `id` is the device and inode of a file: paths with the same id are hard links to one file. */
  datatype Node =
    | File(id: nat, content: seq<Byte>, mode: nat)
    | Link(target: seq<Byte>)
    | Dir(mode: nat)
    | SpecialFile

  type Tree = map<Path, Node>

  predicate IsDir(t: Tree, p: Path) { p in t && t[p].Dir? }

  /** Every path but the root lies in a directory. */
  predicate Closed(t: Tree) {
    forall p {:trigger Parent(p)} | p in t && p != [] :: IsDir(t, Parent(p))
  }

  /** Paths that are links to one file show one content and mode. */
  predicate Coherent(t: Tree) {
    forall p, q | p in t && q in t && t[p].File? && t[q].File? && t[p].id == t[q].id :: t[p] == t[q]
  }

  function Below(t: Tree, p: Path): set<Path> {
    set q | q in t && p <= q
  }

  lemma {:induction false} NothingBelowAbsent(t: Tree, p: Path, q: Path)
    requires Closed(t) && p <= q && q in t
    ensures p in t && (p != q ==> t[p].Dir?)
    decreases |q|
  {
    if |q| > |p| {
      assert p <= Parent(q) && IsDir(t, Parent(q));
      NothingBelowAbsent(t, p, Parent(q));
    } else {
      assert p == q;
    }
  }

  lemma AbsentBelow(t: Tree, p: Path)
    requires Closed(t) && p !in t
    ensures forall q | q in t :: !(p <= q)
  {
    forall q | q in t ensures !(p <= q) {
      if p <= q { NothingBelowAbsent(t, p, q); }
    }
  }

  // ---- Renaming

  function SwappedPaths(t: Tree, a: Path, b: Path): set<Path> {
    set p | p in t :: Swap(p, a, b)
  }

  /** The tree after renaming a to b, or b to a: the subtrees at the two paths are exchanged. When nothing is
      at b this is `rename(a, b)`. */
  function Renamed(t: Tree, a: Path, b: Path): Tree
    requires Apart(a, b)
  {
    map q | q in SwappedPaths(t, a, b) :: (SwappedIsThere(t, a, b, q); t[Swap(q, a, b)])
  }

  lemma SwappedIsThere(t: Tree, a: Path, b: Path, q: Path)
    requires Apart(a, b)
    ensures q in SwappedPaths(t, a, b) <==> Swap(q, a, b) in t
  {
    if q in SwappedPaths(t, a, b) {
      var p :| p in t && q == Swap(p, a, b);
      SwapTwice(p, a, b);
    }
    if Swap(q, a, b) in t {
      SwapTwice(q, a, b);
    }
  }

  lemma RenamedAt(t: Tree, a: Path, b: Path, q: Path)
    requires Apart(a, b)
    ensures q in Renamed(t, a, b) <==> Swap(q, a, b) in t
    ensures q in Renamed(t, a, b) ==> Renamed(t, a, b)[q] == t[Swap(q, a, b)]
  {
    SwappedIsThere(t, a, b, q);
  }

  /** Renaming back restores the tree. */
  lemma RenamedTwice(t: Tree, a: Path, b: Path)
    requires Apart(a, b)
    ensures Renamed(Renamed(t, a, b), a, b) == t
  {
    hide Renamed, Swap, Apart;
    var u := Renamed(t, a, b);
    var v := Renamed(u, a, b);
    forall q ensures (q in v <==> q in t) && (q in v ==> v[q] == t[q]) {
      RenamedAt(u, a, b, q);
      RenamedAt(t, a, b, Swap(q, a, b));
      SwapTwice(q, a, b);
    }
    SameTree(v, t);
  }

  lemma SameTree(t: Tree, u: Tree)
    requires forall q :: (q in t <==> q in u) && (q in t ==> t[q] == u[q])
    ensures t == u
  {
    assert forall q | q in t :: q in u && t[q] == u[q];
    assert forall q | q in u :: q in t;
    assert t.Keys == u.Keys;
  }

  /** t without the subtree at p. */
  function Without(t: Tree, p: Path): Tree {
    map q | q in t && !(p <= q) :: t[q]
  }

  /** The conditions under which the system can rename: something at `from`, nothing at `to`, `to` in a
      directory, and not inside itself. */
  predicate CanRename(t: Tree, from: Path, to: Path) {
    from in t && to !in t && to != [] && IsDir(t, Parent(to)) && !(from <= to)
  }

  lemma RenameApart(t: Tree, from: Path, to: Path)
    requires Closed(t) && CanRename(t, from, to)
    ensures Apart(from, to) && from != []
  {
    AbsentBelow(t, to);
  }

  /** A rename keeps the tree closed. */
  lemma RenameClosed(t: Tree, from: Path, to: Path)
    requires Closed(t) && CanRename(t, from, to)
    ensures Apart(from, to) && Closed(Renamed(t, from, to)) && from !in Renamed(t, from, to) && to in Renamed(t, from, to)
  {
    RenameApart(t, from, to);
    var u := Renamed(t, from, to);
    RenamedAt(t, from, to, from);
    RenamedAt(t, from, to, to);
    SwapBelow(from, to, []);
    assert from + [] == from && to + [] == to;
    forall q {:trigger Parent(q)} | q in u && q != [] ensures IsDir(u, Parent(q)) {
      RenamedAt(t, from, to, q);
      RenamedAt(t, from, to, Parent(q));
      RenamedParent(t, from, to, q);
    }
  }

  lemma RenameCoherent(t: Tree, from: Path, to: Path)
    requires Coherent(t) && Apart(from, to)
    ensures Coherent(Renamed(t, from, to))
  {
    var u := Renamed(t, from, to);
    forall p | p in u ensures Swap(p, from, to) in t && u[p] == t[Swap(p, from, to)] {
      RenamedAt(t, from, to, p);
    }
  }

  lemma RenamedParent(t: Tree, from: Path, to: Path, q: Path)
    requires Closed(t) && CanRename(t, from, to) && Apart(from, to)
    requires q != [] && Swap(q, from, to) in t
    ensures IsDir(t, Swap(Parent(q), from, to))
  {
    AbsentBelow(t, to);
    var p := Swap(q, from, to);
    assert (from <= Parent(q) ==> from <= q) && (to <= Parent(q) ==> to <= q);
    assert from <= q ==> to <= p;
    if to <= q {
      assert p == from + q[|to|..];
      if q == to {
        assert !(to <= Parent(q));
      } else {
        assert to <= Parent(q) && Parent(q)[|to|..] == q[|to|..][..|q| - |to| - 1];
        assert Parent(p) == from + Parent(q)[|to|..];
        ApartTrees(from, to, Parent(q));
        assert IsDir(t, Parent(p));
      }
    } else {
      assert p == q && IsDir(t, Parent(q));
    }
  }

  // ---- Nothing is lost

  /** The same item: a file counts with its content and mode, whatever its inode. */
  predicate SameItem(m: Node, n: Node) {
    if m.File? && n.File? then m.content == n.content && m.mode == n.mode else m == n
  }

  predicate Injective(w: map<Path, Path>) {
    forall p, q | p in w && q in w && p != q :: w[p] != w[q]
  }

  /** `where` says, for each item of tree a, at which path of tree b it is; no two are at the same one. */
  ghost predicate FoundAt(a: Tree, b: Tree, where: map<Path, Path>) {
    && where.Keys == a.Keys && Injective(where)
    && (forall p | p in a :: where[p] in b && SameItem(a[p], b[where[p]]))
  }

  function Relocated(where: map<Path, Path>, a: Path, b: Path): map<Path, Path> {
    map p | p in where :: Swap(where[p], a, b)
  }

  /** A rename loses nothing. */
  lemma RenameFound(i: Tree, t: Tree, where: map<Path, Path>, from: Path, to: Path)
    requires FoundAt(i, t, where) && Apart(from, to)
    ensures FoundAt(i, Renamed(t, from, to), Relocated(where, from, to))
  {
    var u, w := Renamed(t, from, to), Relocated(where, from, to);
    forall p | p in i ensures w[p] in u && SameItem(i[p], u[w[p]]) {
      RenamedAt(t, from, to, w[p]);
      SwapTwice(where[p], from, to);
    }
    forall p, q | p in w && q in w && p != q ensures w[p] != w[q] {
      SwapTwice(where[p], from, to);
      SwapTwice(where[q], from, to);
    }
  }

  /** Changes at paths that hold no item of the first tree lose nothing. */
  lemma ChangeFound(i: Tree, t: Tree, u: Tree, where: map<Path, Path>)
    requires FoundAt(i, t, where)
    requires forall q | q in where.Values && q in t :: q in u && u[q] == t[q]
    ensures FoundAt(i, u, where)
  {
    forall p | p in i ensures where[p] in u && SameItem(i[p], u[where[p]]) {
      assert where[p] in where.Values;
    }
  }
}

/** Trees that are alike but for inodes, and the renames that lead from the tree after a step back to that before. */
module TransferUndoTrees {
  import opened Basics
  import opened Paths
  import opened TransferTree
  import opened TransferDisk
  import opened TransferCopy
  import opened TransferSteps
  import opened TransferCommit
  import opened Transfer

  function TryRename(t: Tree, from: Path, to: Path): Option<Tree> {
    if CanRename(t, from, to) && Apart(from, to) then Some(Renamed(t, from, to)) else None
  }

  /** The same paths with the same items; files may have other inodes. */
  predicate Alike(a: Tree, b: Tree) {
    a.Keys == b.Keys && forall p | p in a :: SameItem(a[p], b[p])
  }

  lemma RenameAlike(a: Tree, b: Tree, from: Path, to: Path)
    requires Alike(a, b)
    ensures CanRename(a, from, to) <==> CanRename(b, from, to)
    ensures Apart(from, to) ==> Alike(Renamed(a, from, to), Renamed(b, from, to))
  {
    assert forall p :: p in a <==> p in a.Keys;
    if Apart(from, to) {
      var u, v := Renamed(a, from, to), Renamed(b, from, to);
      forall p ensures p in u <==> p in v
        ensures p in u ==> SameItem(u[p], v[p])
      {
        RenamedAt(a, from, to, p);
        RenamedAt(b, from, to, p);
      }
    }
  }

  lemma AlikeTransitive(a: Tree, b: Tree, c: Tree)
    requires Alike(a, b) && Alike(b, c)
    ensures Alike(a, c)
  {
  }

  lemma AlikeBack(a: Tree, b: Tree)
    requires Alike(a, b)
    ensures Alike(b, a)
  {
  }

  lemma SameAsAll(a: Tree)
    ensures Alike(a, a)
  {
  }

  /** Renaming back. */
  lemma RenamedBack(t: Tree, a: Path, b: Path)
    requires Apart(a, b)
    ensures Renamed(Renamed(t, a, b), b, a) == t
  {
    RenamedTwice(t, a, b);
    RenamedSymmetric(Renamed(t, a, b), a, b);
  }

  /** Renames at paths that have nothing to do with one another may be exchanged. */
  lemma RenamesCommute(t: Tree, s: Path, g: Path, d: Path, k: Path)
    requires Apart(s, g) && Apart(d, k) && Apart(s, d) && Apart(s, k) && Apart(g, d) && Apart(g, k)
    ensures Renamed(Renamed(t, s, g), d, k) == Renamed(Renamed(t, d, k), s, g)
  {
    hide Renamed;
    var u, v := Renamed(Renamed(t, s, g), d, k), Renamed(Renamed(t, d, k), s, g);
    forall q ensures (q in u <==> q in v) && (q in u ==> u[q] == v[q]) {
      RenamedAt(Renamed(t, s, g), d, k, q);
      RenamedAt(t, s, g, Swap(q, d, k));
      RenamedAt(Renamed(t, d, k), s, g, q);
      RenamedAt(t, d, k, Swap(q, s, g));
      SwapsCommute(s, g, d, k, q);
    }
    SameTree(u, v);
  }

  lemma SwapsCommute(s: Path, g: Path, d: Path, k: Path, q: Path)
    requires Apart(s, g) && Apart(d, k) && Apart(s, d) && Apart(s, k) && Apart(g, d) && Apart(g, k)
    ensures Swap(Swap(q, d, k), s, g) == Swap(Swap(q, s, g), d, k)
  {
    hide Swap;
    if d <= q || k <= q {
      SwapOutside(s, g, d, k, q);
    } else {
      SwapOutsideNone(d, k, q);
      if s <= q || g <= q { SwapOutside(d, k, s, g, q); } else { SwapOutsideNone(s, g, q); }
    }
  }

  lemma SwapOutsideNone(a: Path, b: Path, q: Path)
    requires !(a <= q) && !(b <= q)
    ensures Swap(q, a, b) == q
  {
  }

  lemma SwapOutside(s: Path, g: Path, d: Path, k: Path, q: Path)
    requires Apart(d, k) && Apart(s, d) && Apart(s, k) && Apart(g, d) && Apart(g, k) && (d <= q || k <= q)
    ensures Swap(q, s, g) == q && Swap(Swap(q, d, k), s, g) == Swap(q, d, k)
  {
    var p := Swap(q, d, k);
    ApartTrees(s, d, q);
    ApartTrees(s, k, q);
    ApartTrees(g, d, q);
    ApartTrees(g, k, q);
    ApartTrees(s, d, p);
    ApartTrees(s, k, p);
    ApartTrees(g, d, p);
    ApartTrees(g, k, p);
  }

  /** Moving a copy back, after its source was removed, restores all but the inodes. */
  lemma CopyMovedBack(a: Tree, m: Tree, c: Tree, s: Path, d: Path)
    requires WithCopy(a, m, c, s, d) && Closed(m) && Apart(s, d)
    requires forall q | s <= q :: (q in a <==> q in m) && (q in a ==> a[q] == m[q])
    ensures Alike(Renamed(Without(c, s), d, s), m)
  {
    hide SameItem, Closed, Renamed, At, Copied, SharesAlike;
    var b := Without(c, s);
    var r := Renamed(b, d, s);
    AbsentBelow(m, d);
    forall q ensures q in r <==> q in m
      ensures q in r ==> SameItem(r[q], m[q])
    {
      if s <= q {
        Split(s, q);
        CopyMovedItem(a, m, c, s, d, q[|s|..]);
      } else if d <= q {
        Split(d, q);
        RenamedBelow(b, d, s, q[|d|..]);
        AtSlice(s, q[|d|..]);
      } else {
        RenamedBeside(b, d, s, q);
        SameAsItself(b, q);
      }
    }
  }

  lemma SameAsItself(t: Tree, q: Path)
    ensures q in t ==> SameItem(t[q], t[q])
  {
  }

  lemma CopyMovedItem(a: Tree, m: Tree, c: Tree, s: Path, d: Path, rest: Path)
    requires Copied(a, c, s, d, []) && Apart(s, d)
    requires forall q | s <= q :: (q in a <==> q in m) && (q in a ==> a[q] == m[q])
    ensures var r := Renamed(Without(c, s), d, s);
            && (At(s, rest) in r <==> At(s, rest) in m)
            && (At(s, rest) in r ==> SameItem(r[At(s, rest)], m[At(s, rest)]))
  {
    hide Renamed;
    var b := Without(c, s);
    RenamedBelow(b, d, s, rest);
    AtSlice(s, rest);
    AtSlice(d, rest);
    ApartTrees(s, d, At(d, rest));
    assert Mirrors(a, c, s, d, rest);
    if At(s, rest) in a { SameItemTurned(a[At(s, rest)], c[At(d, rest)]); }
  }

  lemma SameItemTurned(m: Node, n: Node)
    requires SameItem(m, n)
    ensures SameItem(n, m)
  {
  }

  lemma CopyIsThere(a: Tree, m: Tree, b: Tree, s: Path, d: Path)
    requires WithCopy(a, m, b, s, d) && s in a
    ensures d in b
  {
    AtNone(s);
    AtNone(d);
    assert Mirrors(a, b, s, d, []);
  }

  lemma RenamedMoveBack(a: Tree, s: Path, d: Path)
    requires Closed(a) && s in a && s != [] && d !in a && Apart(s, d)
    ensures TryRename(Renamed(a, s, d), d, s) == Some(a) && s !in Renamed(a, s, d) && d in Renamed(a, s, d)
  {
    hide Renamed, Closed;
    RenamedBack(a, s, d);
    RenamedBackPossible(a, s, d);
  }

  lemma CopiedMoveBack(a: Tree, m: Tree, c: Tree, s: Path, d: Path)
    requires WithCopy(a, m, c, s, d) && Closed(m) && Apart(s, d) && s in a && s in m && s != []
    requires forall q | s <= q :: (q in a <==> q in m) && (q in a ==> a[q] == m[q])
    ensures var r := TryRename(Without(c, s), d, s);
            r.Some? && Alike(r.value, m) && s !in Without(c, s) && d in Without(c, s)
  {
    CopyMovedBack(a, m, c, s, d);
    hide Renamed, Closed, WithCopy, Alike;
    CopyIsThere(a, m, c, s, d);
    CopyBackPossible(a, m, c, s, d);
  }

  lemma CopyBackPossible(a: Tree, m: Tree, c: Tree, s: Path, d: Path)
    requires Closed(m) && s in m && s != [] && Apart(s, d) && WithCopy(a, m, c, s, d) && d in c
    ensures CanRename(Without(c, s), d, s)
  {
    assert IsDir(m, Parent(s));
    assert d <= Parent(s) ==> d <= s;
  }

  /** With the copy in the private place, what was put aside can be put back. */
  lemma CopySetAside(a: Tree, b: Tree, target: Path, s: Path, d: Path, k: Path, x: Path)
    requires Closed(a) && Closed(b) && IsDir(a, target) && IsDir(b, target) && s in a
    requires Entry(target, d) && Entry(target, k) && Entry(target, x) && d in a && k !in a && x !in b && Apart(d, k)
    requires WithCopy(a, Renamed(a, d, k), b, s, d)
    ensures d in b && k in b && CanRename(b, d, x) && Apart(d, x) && Apart(x, k)
    ensures WithCopy(a, Renamed(a, d, k), Renamed(b, d, x), s, x)
    ensures k in Renamed(b, d, x) && d !in Renamed(b, d, x) && IsDir(Renamed(b, d, x), target)
  {
    hide Renamed, Closed, WithCopy, CanRename;
    var m := Renamed(a, d, k);
    EntryRenamed(a, target, d, k);
    CopyIsThere(a, m, b, s, d);
    CopyKeeps(a, m, b, s, d, target, k);
    CopyKeeps(a, m, b, s, d, target, x);
    SiblingsApart(d, x);
    SiblingsApart(k, x);
    EntryRename(b, target, d, x);
    EntryRenamed(b, target, d, x);
    CopyRenamed(a, m, b, s, d, x);
  }

  lemma CopyTakenAway(a: Tree, t: Tree, target: Path, s: Path, d: Path, k: Path, x: Path)
    requires Closed(a) && IsDir(t, target) && Apart(d, k) && Apart(x, k) && Apart(x, d)
    requires Entry(target, d) && Entry(target, k) && k in t && d !in t && WithCopy(a, Renamed(a, d, k), t, s, x)
    ensures CanRename(t, k, d) && Without(Renamed(t, k, d), x) == a
  {
    hide Renamed, Closed, WithCopy, CanRename, Without;
    EntryRename(t, target, k, d);
    CopyBeside(a, Renamed(a, d, k), t, s, x, k, d);
    RenamedBack(a, d, k);
    WithoutCopy(a, a, Renamed(t, k, d), s, x);
  }

  lemma ReplacedCopyMeans(a: Tree, b: Tree, step: Step, target: Path, policy: ConflictPolicy)
    requires Leads(a, b, step, target, policy) && step.undo.ReplacedCopy?
    ensures var s, d, k := step.source, step.undo.destination, step.undo.backup;
            && IsDir(a, target) && IsDir(b, target) && s in a && step.undo == ReplacedCopy(d, k)
            && Entry(target, d) && Entry(target, k) && d in a && k !in a && Apart(d, k) && Apart(k, d)
            && WithCopy(a, Renamed(a, d, k), b, s, d)
  {
    hide Renamed, WithCopy;
    DestinationIsEntry(target, step.source);
  }

  lemma CopyBackupThere(a: Tree, b: Tree, target: Path, s: Path, d: Path, k: Path)
    requires Closed(a) && IsDir(a, target) && Entry(target, d) && Entry(target, k) && d in a && k !in a && s in a
    requires Apart(d, k) && WithCopy(a, Renamed(a, d, k), b, s, d)
    ensures d in b && k in b
  {
    hide Renamed, WithCopy, Closed;
    EntryRenamed(a, target, d, k);
    CopyIsThere(a, Renamed(a, d, k), b, s, d);
    CopyKeeps(a, Renamed(a, d, k), b, s, d, target, k);
  }

  lemma ReplacedMoveMeans(a: Tree, b: Tree, step: Step, target: Path, policy: ConflictPolicy)
    requires Leads(a, b, step, target, policy) && step.undo.ReplacedMove?
    ensures var s, d, k := step.source, step.undo.destination, step.undo.backup;
            && IsDir(a, target) && s in a && s != [] && step.undo == ReplacedMove(s, d, k)
            && Entry(target, d) && Entry(target, k) && d in a && k !in a && Apart(d, k) && Apart(s, k) && !(s <= d)
            && Entry(target, step.stage)
            && (if step.renamed
                then ReplacedThrough(a, b, s, step.stage, d, k)
                else exists c :: WithCopy(a, Renamed(a, d, k), c, s, d) && b == Without(c, s))
  {
    hide Renamed, WithCopy, Without, ReplacedThrough;
    DestinationIsEntry(target, step.source);
  }

  lemma CreatedMeans(a: Tree, b: Tree, step: Step, target: Path, policy: ConflictPolicy)
    requires Leads(a, b, step, target, policy) && step.undo.Created?
    ensures WithCopy(a, a, b, step.source, step.undo.path) && Entry(target, step.undo.path) && step.source in a
  {
  }

  /** Other entries are where the copy was added. */
  lemma CopyKeeps(a: Tree, m: Tree, b: Tree, s: Path, d: Path, target: Path, p: Path)
    requires WithCopy(a, m, b, s, d) && Entry(target, d) && Entry(target, p)
    ensures p != d ==> (p in m <==> p in b)
  {
    if p != d { SiblingsApart(p, d); }
  }

  lemma Unmoved(a: Tree, s: Path, d: Path, k: Path)
    requires Apart(d, k) && Apart(s, d) && Apart(s, k)
    ensures forall q | s <= q :: (q in a <==> q in Renamed(a, d, k)) && (q in a ==> a[q] == Renamed(a, d, k)[q])
  {
    forall q | s <= q ensures (q in a <==> q in Renamed(a, d, k)) && (q in a ==> a[q] == Renamed(a, d, k)[q]) {
      ApartTrees(s, d, q);
      ApartTrees(s, k, q);
      RenamedBeside(a, d, k, q);
    }
  }

  /** With the source apart from what it replaced, the three renames come to two. */
  lemma ReplacedDirectly(a: Tree, b: Tree, target: Path, s: Path, g: Path, d: Path, k: Path)
    requires Closed(a) && IsDir(a, target) && ReplacedThrough(a, b, s, g, d, k) && Apart(s, d) && Apart(s, k)
    requires d in a && k !in a && Entry(target, d) && Entry(target, k) && Entry(target, g)
    ensures b == Renamed(Renamed(a, d, k), s, d)
  {
    hide Renamed, Closed;
    RenamesCommute(a, s, g, d, k);
    EntryRenamed(a, target, d, k);
    RenamedThrough(Renamed(a, d, k), s, g, d);
  }

  lemma RenamedReplacementBack(a: Tree, b: Tree, target: Path, s: Path, g: Path, d: Path, k: Path)
    requires Closed(a) && IsDir(a, target) && ReplacedThrough(a, b, s, g, d, k) && Apart(s, d) && Apart(s, k) && s in a && s != []
    requires d in a && k !in a && Entry(target, d) && Entry(target, k) && Entry(target, g)
    ensures s !in b && d in b && k in b && TryRename(b, d, s) == Some(Renamed(a, d, k))
  {
    hide Renamed, Closed, TryRename;
    var m := Renamed(a, d, k);
    EntryRenamed(a, target, d, k);
    Unmoved(a, s, d, k);
    AtOnly(s);
    ReplacedDirectly(a, b, target, s, g, d, k);
    RenamedMoveBack(m, s, d);
    BackupKept(m, target, s, d, k);
  }

  lemma CopiedReplacementBack(a: Tree, c: Tree, target: Path, s: Path, d: Path, k: Path)
    requires Closed(a) && IsDir(a, target) && Apart(s, d) && Apart(s, k) && Apart(d, k) && s in a && s != []
    requires d in a && k !in a && Entry(target, d) && Entry(target, k) && WithCopy(a, Renamed(a, d, k), c, s, d)
    ensures var b := Without(c, s);
            && s !in b && d in b && k in b
            && TryRename(b, d, s).Some? && Alike(TryRename(b, d, s).value, Renamed(a, d, k))
  {
    hide Renamed, Closed, TryRename, Alike;
    var m := Renamed(a, d, k);
    EntryRenamed(a, target, d, k);
    Unmoved(a, s, d, k);
    AtOnly(s);
    CopiedMoveBack(a, m, c, s, d);
    CopyKeeps(a, m, c, s, d, target, k);
    WithoutKeeps(c, s, k);
  }

  lemma PutBackAlike(a: Tree, t: Tree, target: Path, d: Path, k: Path)
    requires Closed(a) && IsDir(a, target) && Entry(target, d) && Entry(target, k) && d in a && k !in a && Apart(d, k)
    requires Alike(t, Renamed(a, d, k))
    ensures TryRename(t, k, d).Some? && Alike(TryRename(t, k, d).value, a)
  {
    hide Renamed, Closed, Alike, CanRename;
    PutBack(a, target, d, k);
    RenameAlike(t, Renamed(a, d, k), k, d);
  }

  lemma AtOnly(s: Path)
    ensures s <= s
  {
  }

  lemma WithoutKeeps(t: Tree, s: Path, k: Path)
    ensures k in Without(t, s) <==> k in t && !(s <= k)
  {
  }

  lemma BackupKept(m: Tree, target: Path, s: Path, d: Path, k: Path)
    requires Apart(s, d) && Apart(s, k) && Apart(d, k)
    ensures k in Renamed(m, s, d) <==> k in m
  {
    RenamedBeside(m, s, d, k);
  }

  lemma PutBack(a: Tree, target: Path, d: Path, k: Path)
    requires Closed(a) && IsDir(a, target) && Entry(target, d) && Entry(target, k) && d in a && k !in a
    ensures Apart(d, k) && TryRename(Renamed(a, d, k), k, d) == Some(a)
  {
    hide Renamed, Closed;
    EntryRename(a, target, d, k);
    EntryRenamed(a, target, d, k);
    EntryRename(Renamed(a, d, k), target, k, d);
    RenamedBack(a, d, k);
  }

  lemma CannotMoveInside(t: Tree, d: Path, s: Path)
    requires d <= s
    ensures TryRename(t, d, s).None?
  {
  }

  lemma NotAlike(t: Tree, u: Tree, p: Path)
    requires p in t && p !in u
    ensures !Alike(t, u)
  {
    assert p in t.Keys && p !in u.Keys;
  }

  predicate AlikeResults(r: Option<Tree>, q: Option<Tree>) {
    if r.Some? then q.Some? && Alike(r.value, q.value) else q.None?
  }

  lemma TryRenameAlike(a: Tree, b: Tree, from: Path, to: Path)
    requires Alike(a, b)
    ensures AlikeResults(TryRename(a, from, to), TryRename(b, from, to))
  {
    hide Renamed, CanRename, Alike;
    RenameAlike(a, b, from, to);
  }

  lemma WithoutAlike(a: Tree, b: Tree, p: Path)
    requires Alike(a, b)
    ensures Alike(Without(a, p), Without(b, p))
  {
    var u, v := Without(a, p), Without(b, p);
    forall q ensures q in u <==> q in v { assert q in a.Keys <==> q in b.Keys; }
  }

  lemma LeafOnly(t: Tree, d: Path, rest: Path)
    requires Closed(t) && d in t && !t[d].Dir?
    ensures At(d, rest) in t <==> rest == []
  {
    AtSlice(d, rest);
    AtNone(d);
    if At(d, rest) in t { NothingBelowAbsent(t, d, At(d, rest)); }
  }

  lemma AlikePaths(a: Tree, b: Tree, p: Path)
    requires Alike(a, b)
    ensures p in a <==> p in b
  {
    assert p in a.Keys <==> p in b.Keys;
  }
}

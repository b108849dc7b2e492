/** What one transferred source leaves behind: the tree after it in terms of the tree before it. */
module TransferSteps {
  import opened Basics
  import opened Paths
  import opened TransferTree
  import opened TransferCopy

  datatype TransferUndo =
    | Created(path: Path)
    | Moved(source: Path, destination: Path)
    | ReplacedCopy(destination: Path, backup: Path)
    | ReplacedMove(source: Path, destination: Path, backup: Path)

  /** The root with this index was transferred through `stage`, by renaming or by copying, and logged `undo`. */
  datatype Step = Step(index: nat, source: Path, bytes: nat, stage: Path, renamed: bool, undo: TransferUndo)

  /** b is m and, at the path d that is absent in m, a copy of what is at s in a. */
  ghost predicate WithCopy(a: Tree, m: Tree, b: Tree, s: Path, d: Path) {
    d !in m && Beside(m, b, d) && Copied(a, b, s, d, []) && SharesAlike(a, b, s, d)
  }

  /** The source is staged: renamed or copied to the path g that was absent. */
  ghost predicate Staged(a: Tree, c: Tree, s: Path, g: Path, renamed: bool) {
    && g !in a && s in a && Apart(s, g)
    && (if renamed then c == Renamed(a, s, g) else WithCopy(a, a, c, s, g))
  }

  /** Beginning with tree a, the step ends in tree b. A move that copied has removed the source at the end. */
  ghost predicate Fits(a: Tree, b: Tree, step: Step) {
    var s := step.source;
    match step.undo
    case Created(d) =>
      s in a && WithCopy(a, a, b, s, d) && Apart(s, d)
    case ReplacedCopy(d, k) =>
      && s in a && d in a && k !in a && Apart(d, k) && !(s <= d)
      && WithCopy(a, Renamed(a, d, k), b, s, d)
    case Moved(s', d) =>
      && s' == s && d !in a && s in a && Apart(s, d)
      && (if step.renamed
          then b == Renamed(a, s, d)
          else exists c :: WithCopy(a, a, c, s, d) && b == Without(c, s))
    case ReplacedMove(s', d, k) =>
      && s' == s && d in a && k !in a && s in a && Apart(d, k) && !(s <= d) && Apart(s, k)
      && (if step.renamed
          then ReplacedThrough(a, b, s, step.stage, d, k)
          else exists c :: WithCopy(a, Renamed(a, d, k), c, s, d) && b == Without(c, s))
  }

  /** s went to g, then d to k, then g to d. */
  ghost predicate ReplacedThrough(a: Tree, b: Tree, s: Path, g: Path, d: Path, k: Path) {
    && Apart(s, g) && Apart(d, k) && Apart(g, d) && Apart(g, k) && g !in a
    && b == Renamed(Renamed(Renamed(a, s, g), d, k), g, d)
  }

  // ---- From the stage to the destination

  lemma RenamedBeside(t: Tree, a: Path, b: Path, q: Path)
    requires Apart(a, b) && !(a <= q) && !(b <= q)
    ensures q in Renamed(t, a, b) <==> q in t
    ensures q in t ==> Renamed(t, a, b)[q] == t[q]
  {
    RenamedAt(t, a, b, q);
  }

  lemma RenamedBelow(t: Tree, a: Path, b: Path, r: Path)
    requires Apart(a, b)
    ensures At(b, r) in Renamed(t, a, b) <==> At(a, r) in t
    ensures At(a, r) in t ==> Renamed(t, a, b)[At(b, r)] == t[At(a, r)]
    ensures At(a, r) in Renamed(t, a, b) <==> At(b, r) in t
    ensures At(b, r) in t ==> Renamed(t, a, b)[At(a, r)] == t[At(b, r)]
  {
    SwapBelow(a, b, r);
    RenamedAt(t, a, b, b + r);
    RenamedAt(t, a, b, a + r);
  }

  /** What is below p, as p and the rest. */
  lemma Split(p: Path, q: Path)
    requires p <= q
    ensures q == At(p, q[|p|..])
  {
  }

  /** The same nodes below another path are the same copy. */
  lemma CopyCarried(a: Tree, c: Tree, b: Tree, s: Path, g: Path, d: Path)
    requires Copied(a, c, s, g, []) && SharesAlike(a, c, s, g)
    requires forall r :: At(d, r) in b <==> At(g, r) in c
    requires forall r {:trigger At(d, r)} | At(d, r) in b :: b[At(d, r)] == c[At(g, r)]
    ensures Copied(a, b, s, d, []) && SharesAlike(a, b, s, d)
  {
    hide SameItem, At;
    forall r | [] <= r ensures Mirrors(a, b, s, d, r) {
      assert Mirrors(a, c, s, g, r);
    }
  }

  /** A copy may be made under one name and renamed to another. */
  lemma CopyRenamed(a: Tree, m: Tree, c: Tree, s: Path, g: Path, d: Path)
    requires WithCopy(a, m, c, s, g) && Closed(m) && Closed(c) && Apart(g, d) && d !in m && d !in c
    ensures WithCopy(a, m, Renamed(c, g, d), s, d)
  {
    hide SameItem, Apart, Closed, Renamed, At;
    var b := Renamed(c, g, d);
    AbsentBelow(m, g);
    AbsentBelow(m, d);
    AbsentBelow(c, d);
    forall q | !(d <= q) && (q in m || q in b) ensures q in m && q in b && b[q] == m[q] {
      if g <= q {
        Split(g, q);
        RenamedBelow(c, g, d, q[|g|..]);
        AtSlice(d, q[|g|..]);
      } else {
        RenamedBeside(c, g, d, q);
      }
    }
    forall r ensures At(d, r) in b <==> At(g, r) in c
      ensures At(d, r) in b ==> b[At(d, r)] == c[At(g, r)]
    {
      RenamedBelow(c, g, d, r);
    }
    CopyCarried(a, c, b, s, g, d);
  }

  lemma BesideRenamed(m: Tree, c: Tree, g: Path, d: Path, k: Path)
    requires Beside(m, c, g) && Apart(d, k) && Apart(g, d) && Apart(g, k)
    ensures Beside(Renamed(m, d, k), Renamed(c, d, k), g)
  {
    hide Renamed, Swap, Apart;
    var n, b := Renamed(m, d, k), Renamed(c, d, k);
    forall q | !(g <= q) && (q in n || q in b) ensures q in n && q in b && b[q] == n[q] {
      SwapKeepsOut(g, d, k, q);
      RenamedAt(m, d, k, q);
      RenamedAt(c, d, k, q);
    }
  }

  /** Renaming elsewhere leaves the copy. */
  lemma CopyBeside(a: Tree, m: Tree, c: Tree, s: Path, g: Path, d: Path, k: Path)
    requires WithCopy(a, m, c, s, g) && Apart(d, k) && Apart(g, d) && Apart(g, k)
    ensures WithCopy(a, Renamed(m, d, k), Renamed(c, d, k), s, g)
  {
    hide Renamed, At, Swap, Apart, Beside, Copied, SharesAlike;
    BesideRenamed(m, c, g, d, k);
    var b := Renamed(c, d, k);
    SwapKeeps(g, d, k, []);
    AtNone(g);
    RenamedAt(m, d, k, g);
    forall r ensures At(g, r) in b <==> At(g, r) in c
      ensures At(g, r) in b ==> b[At(g, r)] == c[At(g, r)]
    {
      SwapKeeps(g, d, k, r);
      RenamedAt(c, d, k, At(g, r));
    }
    CopyCarried(a, c, b, s, g, g);
  }

  lemma AtNone(g: Path)
    ensures At(g, []) == g
  {
  }

  lemma SwapKeeps(g: Path, d: Path, k: Path, r: Path)
    requires Apart(d, k) && Apart(g, d) && Apart(g, k)
    ensures Swap(At(g, r), d, k) == At(g, r)
  {
    AtSlice(g, r);
    ApartTrees(g, d, At(g, r));
    ApartTrees(g, k, At(g, r));
  }

  lemma SwapKeepsOut(g: Path, d: Path, k: Path, q: Path)
    requires Apart(d, k) && Apart(g, d) && Apart(g, k) && !(g <= q)
    ensures !(g <= Swap(q, d, k))
  {
    var p := Swap(q, d, k);
    if d <= q { ApartTrees(g, k, p); } else if k <= q { ApartTrees(g, d, p); }
  }

  /** Taking away what was copied restores the tree. */
  lemma WithoutCopy(a: Tree, m: Tree, b: Tree, s: Path, d: Path)
    requires WithCopy(a, m, b, s, d) && Closed(m)
    ensures Without(b, d) == m
  {
    AbsentBelow(m, d);
    SameTree(Without(b, d), m);
  }
}

/** The file system calls of a transfer. Each is atomic and may fail; each that succeeds is on the record, and
    the class cannot leave a state in which an item of the tree from the start is lost. */
module TransferDisk {
  import opened Basics
  import opened Paths
  import opened TransferTree

  const PRIVATE_FILE_MODE: nat := 0x180   // 0600
  const NEW_DIR_MODE: nat := 0x1ED        // 0755: what the process's file mode mask leaves

  predicate FreshId(t: Tree, id: nat) {
    forall q | q in t && t[q].File? :: t[q].id != id
  }

  lemma {:induction false} FreshIdExists(t: Tree)
    ensures exists id: nat :: FreshId(t, id)
  {
    var bound := IdBound(t);
    assert FreshId(t, bound);
  }

  lemma {:induction false} IdBound(t: Tree) returns (bound: nat)
    ensures forall q | q in t && t[q].File? :: t[q].id < bound
    decreases |t|
  {
    if t == map[] {
      bound := 0;
    } else {
      var p :| p in t;
      var u := t - {p};
      assert |u.Keys| < |t.Keys| by { assert u.Keys == t.Keys - {p}; }
      var rest := IdBound(u);
      bound := if t[p].File? && t[p].id >= rest then t[p].id + 1 else rest;
      forall q | q in t && t[q].File? ensures t[q].id < bound {
        if q != p { assert q in u; }
      }
    }
  }

  /** There is nothing below p. */
  predicate IsLeaf(t: Tree, p: Path) { forall q | q in t && p <= q :: q == p }

  lemma LeafExists(t: Tree, p: Path)
    requires exists q :: q in t && p <= q
    ensures exists leaf :: leaf in t && p <= leaf && IsLeaf(t, leaf)
  {
    var q :| q in t && p <= q;
    while !IsLeaf(t, q)
      invariant q in t && p <= q
      decreases Below(t, q)
    {
      var r :| r in t && q <= r && r != q;
      forall x | x in Below(t, r) ensures x in Below(t, q) { BelowTransitive(q, r, x); }
      assert q !in Below(t, r) && q in Below(t, q);
      BelowTransitive(p, q, r);
      q := r;
    }
  }

  /** The paths between which a transfer renames: the sources, and the entries of the target directory, among
      them stages and backups. */
  predicate IsSpot(sources: set<Path>, target: Path, p: Path) {
    p in sources || (p != [] && Parent(p) == target)
  }

  predicate BelowSpot(sources: set<Path>, target: Path, p: Path) {
    target < p || exists s | s in sources :: s <= p
  }

  /** The sources are not inside one another, and neither in the target directory nor around it. */
  predicate Separate(sources: set<Path>, target: Path) {
    && (forall a, b | a in sources && b in sources && a != b :: Apart(a, b))
    && (forall a | a in sources :: Apart(a, target))
  }

  lemma SpotsApart(sources: set<Path>, target: Path, a: Path, b: Path)
    requires Separate(sources, target) && IsSpot(sources, target, a) && IsSpot(sources, target, b) && a != b
    ensures Apart(a, b)
  {
    if a !in sources && b !in sources {
      assert a == target + [a[|a| - 1]] && b == target + [b[|b| - 1]];
    } else if a !in sources {
      assert target <= a;
      if a <= b { BelowTransitive(target, a, b); }
      assert b <= a && b != a ==> b <= target;
    } else if b !in sources {
      assert target <= b;
      if b <= a { BelowTransitive(target, b, a); }
      assert a <= b && b != a ==> a <= target;
    }
  }

  /** What stood at a spot stands at a spot, in one piece; everything else is where it was. */
  ghost predicate Whole(i: Tree, where: map<Path, Path>, sources: set<Path>, target: Path)
    requires where.Keys == i.Keys
  {
    && (forall p | p in i && !BelowSpot(sources, target, p) :: where[p] == p)
    && (forall p | p in i && IsSpot(sources, target, p) :: IsSpot(sources, target, where[p]))
    && (forall p, q | p in i && IsSpot(sources, target, p) && q in i && p <= q :: where[q] == where[p] + q[|p|..])
  }

  /** Each item of the first tree is somewhere, each at a path of its own: where it was, or below a spot. */
  ghost predicate Ledger(i: Tree, t: Tree, where: map<Path, Path>, sources: set<Path>, target: Path) {
    && FoundAt(i, t, where)
    && (forall p | p in where :: where[p] == p || BelowSpot(sources, target, where[p]))
    && (Separate(sources, target) ==> Whole(i, where, sources, target))
  }

  ghost predicate NothingLost(i: Tree, t: Tree, sources: set<Path>, target: Path) {
    exists where :: Ledger(i, t, where, sources, target)
  }

  /** In particular: the whole of what stood at a spot, with every item below it, stands at one. */
  lemma StandsWhole(i: Tree, t: Tree, sources: set<Path>, target: Path, p: Path)
    requires NothingLost(i, t, sources, target) && Separate(sources, target)
    requires p in i && IsSpot(sources, target, p)
    ensures StandsSomewhere(i, t, sources, target, p)
  {
    var where :| Ledger(i, t, where, sources, target);
    forall q | q in i && p <= q ensures where[p] + q[|p|..] in t && SameItem(i[q], t[where[p] + q[|p|..]]) {
      assert where[q] == where[p] + q[|p|..];
    }
    assert StandsAt(i, t, p, where[p]);
  }

  predicate StandsAt(i: Tree, t: Tree, p: Path, now: Path) {
    forall q | q in i && p <= q :: now + q[|p|..] in t && SameItem(i[q], t[now + q[|p|..]])
  }

  /** u is t without some of what is below p. */
  predicate LessBelow(t: Tree, u: Tree, p: Path) {
    && (forall q | q in t && !(p <= q) :: q in u)
    && (forall q | q in u :: q in t && u[q] == t[q])
  }

  // ---- The record of states

  /** What a single call can do to the tree. */
  ghost predicate OneCall(t: Tree, u: Tree) {
    || (exists from, to :: Apart(from, to) && CanRename(t, from, to) && u == Renamed(t, from, to))
    || (exists p :: PutAt(t, u, p))
    || (exists p :: RemovedAt(t, u, p))
  }

  predicate PutAt(t: Tree, u: Tree, p: Path) { p in u && u == t[p := u[p]] }

  predicate RemovedAt(t: Tree, u: Tree, p: Path) { p in t && u == t - {p} }

  function StateBefore(i: Tree, history: seq<Tree>, k: nat): Tree
    requires k <= |history|
  {
    if k == 0 then i else history[k - 1]
  }

  /** The states lead from the first tree to the present one, each by a single call. */
  ghost predicate Trace(i: Tree, history: seq<Tree>, t: Tree) {
    && t == StateBefore(i, history, |history|)
    && (forall k | 0 <= k < |history| :: OneCall(StateBefore(i, history, k), history[k]))
  }

  lemma TraceAdd(i: Tree, history: seq<Tree>, t: Tree, u: Tree)
    requires Trace(i, history, t) && OneCall(t, u)
    ensures Trace(i, history + [u], u)
  {
    hide OneCall;
    var more := history + [u];
    forall k | 0 <= k < |more| ensures OneCall(StateBefore(i, more, k), more[k]) {
      if k < |history| {
        assert OneCall(StateBefore(i, history, k), history[k]);
      }
    }
  }

  /** What holds of a file system and its record in every state. */
  ghost predicate Sound(i: Tree, history: seq<Tree>, t: Tree, where: map<Path, Path>, sources: set<Path>, target: Path) {
    && Closed(t) && Coherent(t)
    && Ledger(i, t, where, sources, target)
    && Trace(i, history, t)
    && (forall s | s in history :: NothingLost(i, s, sources, target))
  }

  lemma SoundNext(i: Tree, history: seq<Tree>, t: Tree, u: Tree, where: map<Path, Path>, next: map<Path, Path>,
                  sources: set<Path>, target: Path)
    requires Sound(i, history, t, where, sources, target)
    requires Closed(u) && Coherent(u) && Ledger(i, u, next, sources, target) && OneCall(t, u)
    ensures Sound(i, history + [u], u, next, sources, target)
  {
    hide Closed, Coherent, Ledger, OneCall;
    TraceAdd(i, history, t, u);
    LedgerMeans(i, u, next, sources, target);
    hide Trace;
  }

  lemma LedgerMeans(i: Tree, t: Tree, where: map<Path, Path>, sources: set<Path>, target: Path)
    requires Ledger(i, t, where, sources, target)
    ensures NothingLost(i, t, sources, target)
  {
    hide Ledger;
  }

  lemma SoundMeans(i: Tree, history: seq<Tree>, t: Tree, where: map<Path, Path>, sources: set<Path>, target: Path)
    requires Sound(i, history, t, where, sources, target)
    ensures Closed(t) && Coherent(t) && Ledger(i, t, where, sources, target)
  {
  }

  /** In this state everything that stood at a source or in the target directory stands whole at such a path. */
  ghost predicate AllStand(i: Tree, t: Tree, sources: set<Path>, target: Path) {
    forall p | p in i && IsSpot(sources, target, p) :: StandsSomewhere(i, t, sources, target, p)
  }

  ghost predicate StandsSomewhere(i: Tree, t: Tree, sources: set<Path>, target: Path, p: Path) {
    exists now :: IsSpot(sources, target, now) && StandsAt(i, t, p, now)
  }

  class FileSystem {
    var tree: Tree
    /** The tree from the start of the transfer, and where each of its items is now. */
    ghost var initial: Tree
    ghost var where: map<Path, Path>
    ghost var sources: set<Path>
    ghost var target: Path
    /** Every state since the start, one per call that changed something. */
    ghost var history: seq<Tree>
    /** How many calls have failed for a reason that the tree does not show. */
    ghost var troubles: nat
    /** Some call that was to undo an unfinished step has failed. */
    ghost var stuck: bool

    ghost predicate Valid()
      reads `tree, `initial, `where, `sources, `target, `history
    {
      Sound(initial, history, tree, where, sources, target)
    }

    /** No item from the start is at or below p. */
    ghost predicate Spare(p: Path)
      reads `where
    {
      forall q | q in where.Values :: !(p <= q)
    }

    lemma SpareIsUnlisted(p: Path)
      requires Spare(p)
      ensures p !in where.Values
    {
      assert p <= p;
    }

    lemma SpareBelow(p: Path, q: Path)
      requires Spare(p) && p <= q
      ensures Spare(q)
    {
      forall r | r in where.Values ensures !(q <= r) {
        if q <= r { BelowTransitive(p, q, r); }
      }
    }

    lemma IsSound()
      requires Valid()
      ensures Closed(tree) && Coherent(tree)
    {
    }

    lemma ListedIsThere(q: Path)
      requires Valid() && q in where.Values
      ensures q in tree
    {
    }

    /** No item is at or below a path that is absent. */
    lemma AbsentIsSpare(p: Path)
      requires Valid() && p !in tree
      ensures Spare(p)
    {
      AbsentBelow(tree, p);
      forall r | r in where.Values ensures !(p <= r) {
        assert r in tree;
      }
    }

    /** What every call keeps beside the tree. */
    twostate predicate Framed()
      reads this
    {
      && initial == old(initial) && sources == old(sources) && target == old(target)
      && old(history) <= history && old(troubles) <= troubles && (old(stuck) ==> stuck)
    }

    /** Some call has failed for a reason that the tree does not show. */
    twostate predicate Troubled()
      reads this
    {
      troubles > old(troubles)
    }

    /** A call that succeeds adds the tree after it to the history; one that fails adds nothing. */
    twostate predicate Recorded(ok: bool)
      reads this
    {
      history == if ok then old(history) + [tree] else old(history)
    }

    /** Starts the record. */
    ghost method Begin(sources: set<Path>, target: Path)
      requires Closed(tree) && Coherent(tree)
      modifies this
      ensures Valid() && tree == old(tree) && initial == tree && history == []
      ensures this.sources == sources && this.target == target
      ensures !stuck && troubles == old(troubles)
      ensures where == map p | p in tree :: p
    {
      StartLedger(tree, sources, target);
      hide Closed, Coherent, Ledger, NothingLost;
      initial := tree;
      where := map p | p in tree :: p;
      this.sources, this.target := sources, target;
      history := [];
      stuck := false;
    }

    /** `undoing` marks the renames that take back an unfinished step. */
    method Rename(from: Path, to: Path, ghost undoing: bool) returns (ok: bool)
      requires Valid() && to !in tree && IsSpot(sources, target, from) && IsSpot(sources, target, to)
      modifies this
      ensures Valid() && Framed()
      ensures Recorded(ok) && stuck == (old(stuck) || (undoing && !ok))
      ensures !ok ==> tree == old(tree) && where == old(where) && (CanRename(tree, from, to) ==> Troubled())
      ensures ok ==>
                && CanRename(old(tree), from, to) && Apart(from, to)
                && tree == Renamed(old(tree), from, to) && where == Relocated(old(where), from, to)
    {
      hide Ledger, Renamed, Relocated, Closed, Coherent, CanRename, NothingLost, IsSpot, Sound, OneCall;
      SoundMeans(initial, history, tree, where, sources, target);
      if !CanRename(tree, from, to) {
        stuck := stuck || undoing;
        return false;
      }
      if * {
        troubles := troubles + 1;
        stuck := stuck || undoing;
        return false;
      }
      RenameClosed(tree, from, to);
      RenameCoherent(tree, from, to);
      RenameLedger(initial, tree, where, sources, target, from, to);
      RenameIsOneCall(tree, from, to);
      SoundNext(initial, history, tree, Renamed(tree, from, to), where, Relocated(where, from, to), sources, target);
      tree := Renamed(tree, from, to);
      where := Relocated(where, from, to);
      history := history + [tree];
      ok := true;
    }

    /** Items that stood below `from` and are found below `to` as well count as standing there. */
    ghost method Repoint(from: Path, to: Path)
      requires Valid() && Apart(from, to) && Spare(to)
      requires IsSpot(sources, target, from) && IsSpot(sources, target, to)
      requires forall q | q in where.Values && from <= q ::
                 Swap(q, from, to) in tree && SameItem(tree[q], tree[Swap(q, from, to)])
      modifies this`where
      ensures Valid() && Spare(from) && where == Relocated(old(where), from, to)
    {
      RepointFound(initial, tree, where, from, to);
      RelocatedLedger(initial, tree, tree, where, sources, target, from, to);
      RepointSpare(where, from, to);
      where := Relocated(where, from, to);
    }

    /** Puts a node at an absent path in a directory. A file is new, or a link to one that is there. */
    method Create(p: Path, node: Node) returns (ok: bool)
      requires Valid() && p !in tree
      requires node.File? ==> FreshId(tree, node.id) || exists e :: e in tree && tree[e] == node
      modifies this
      ensures Valid() && Framed() && where == old(where)
      ensures Recorded(ok) && stuck == old(stuck)
      ensures !ok ==> tree == old(tree) && (p != [] && IsDir(tree, Parent(p)) ==> Troubled())
      ensures ok ==> p != [] && IsDir(tree, Parent(p)) && tree == old(tree)[p := node]
    {
      hide FreshId, Sound;
      if p == [] || !IsDir(tree, Parent(p)) { return false; }
      if * { troubles := troubles + 1; return false; }
      CreateSound(initial, history, tree, where, sources, target, p, node);
      tree := tree[p := node];
      history := history + [tree];
      ok := true;
    }

    /** A new file, whose inode is that of no other. */
    method CreateFile(p: Path) returns (ok: bool)
      requires Valid() && p !in tree
      modifies this
      ensures Valid() && Framed() && where == old(where)
      ensures Recorded(ok) && stuck == old(stuck)
      ensures !ok ==> tree == old(tree) && (p != [] && IsDir(tree, Parent(p)) ==> Troubled())
      ensures ok ==>
                && p != [] && IsDir(tree, Parent(p)) && p in tree
                && tree[p].File? && tree[p].content == [] && tree[p].mode == PRIVATE_FILE_MODE
                && FreshId(old(tree), tree[p].id) && tree == old(tree)[p := tree[p]]
    {
      FreshIdExists(tree);
      ghost var before := tree;
      var id: nat :| FreshId(tree, id);
      ok := Create(p, File(id, [], PRIVATE_FILE_MODE));
    }

    /** A further link to the file at `existing`. */
    method HardLink(existing: Path, p: Path) returns (ok: bool)
      requires Valid() && existing in tree && tree[existing].File? && p !in tree
      modifies this
      ensures Valid() && Framed() && where == old(where)
      ensures Recorded(ok) && stuck == old(stuck)
      ensures !ok ==> tree == old(tree) && (p != [] && IsDir(tree, Parent(p)) ==> Troubled())
      ensures ok ==> p != [] && IsDir(tree, Parent(p)) && tree == old(tree)[p := old(tree)[existing]]
    {
      ok := Create(p, tree[existing]);
    }

    /** Replaces the node at a path by another state of it, as writing and changing the mode do. The file has
        no other link. */
    method Change(p: Path, node: Node) returns (ok: bool)
      requires Valid() && p in tree && Spare(p) && (tree[p].Dir? <==> node.Dir?)
      requires node.File? ==> tree[p].File? && node.id == tree[p].id && FreshId(tree - {p}, node.id)
      modifies this
      ensures Valid() && Framed() && where == old(where)
      ensures Recorded(ok) && stuck == old(stuck)
      ensures tree == if ok then old(tree)[p := node] else old(tree)
      ensures ok || Troubled()
    {
      hide FreshId, Sound, FileSystem.Spare;
      SpareIsUnlisted(p);
      if * { troubles := troubles + 1; return false; }
      ChangeSound(initial, history, tree, where, sources, target, p, node);
      tree := tree[p := node];
      history := history + [tree];
      ok := true;
    }

    /** Removes one path below which there is nothing. */
    method RemoveLeaf(p: Path) returns (ok: bool)
      requires Valid() && p in tree && Spare(p) && IsLeaf(tree, p)
      modifies this
      ensures Valid() && Framed() && where == old(where)
      ensures Recorded(ok) && stuck == old(stuck)
      ensures tree == if ok then old(tree) - {p} else old(tree)
      ensures ok || Troubled()
    {
      hide Sound, FileSystem.Spare, IsLeaf;
      SpareIsUnlisted(p);
      if * { troubles := troubles + 1; return false; }
      RemoveSound(initial, history, tree, where, sources, target, p);
      tree := tree - {p};
      history := history + [tree];
      ok := true;
    }

    /** `remove_path`: nothing to do when the path is absent; otherwise the subtree is taken away leaf by leaf,
        and a failure may leave part of it. `undoing` marks the removal of a stage; any other removal leaves
        something unfinished when it fails in the middle. */
    method RemovePath(p: Path, ghost undoing: bool) returns (ok: bool)
      requires Valid() && Spare(p)
      modifies this
      ensures Valid() && Framed() && where == old(where)
      ensures if ok then tree == Without(old(tree), p) else Troubled()
      ensures stuck == (old(stuck) || (!ok && (undoing || tree != old(tree))))
      ensures LessBelow(old(tree), tree, p)
    {
      hide IsLeaf, FileSystem.Valid, FileSystem.Spare, LessBelow, Without;
      ghost var before := tree;
      LessNothing(before, p);
      while exists q :: q in tree && p <= q
        invariant Valid() && Framed() && where == old(where) && Spare(p) && stuck == old(stuck)
        invariant LessBelow(before, tree, p)
        decreases |tree|
      {
        if * {
          troubles := troubles + 1;
          stuck := stuck || undoing || tree != before;
          return false;
        }
        LeafExists(tree, p);
        var leaf :| leaf in tree && p <= leaf && IsLeaf(tree, leaf);
        assert Spare(leaf) by { SpareBelow(p, leaf); }
        Smaller(tree, leaf);
        LessLeaf(before, tree, p, leaf);
        var removed := RemoveLeaf(leaf);
        if !removed {
          stuck := stuck || undoing || tree != before;
          return false;
        }
      }
      ok := true;
      LessAll(before, tree, p);
    }
  }

  lemma LessNothing(t: Tree, p: Path)
    ensures LessBelow(t, t, p)
  {
  }

  lemma LessLeaf(t: Tree, u: Tree, p: Path, leaf: Path)
    requires LessBelow(t, u, p) && p <= leaf
    ensures LessBelow(t, u - {leaf}, p)
  {
  }

  lemma LessAll(t: Tree, u: Tree, p: Path)
    requires LessBelow(t, u, p) && forall q | q in u :: !(p <= q)
    ensures u == Without(t, p)
  {
    SameTree(u, Without(t, p));
  }

  lemma Smaller(t: Tree, p: Path)
    requires p in t
    ensures |t - {p}| < |t|
  {
    assert t.Keys == (t - {p}).Keys + {p};
  }

  lemma RenameIsOneCall(t: Tree, from: Path, to: Path)
    requires CanRename(t, from, to) && Apart(from, to)
    ensures OneCall(t, Renamed(t, from, to))
  {
  }

  lemma PutIsOneCall(t: Tree, p: Path, n: Node)
    ensures OneCall(t, t[p := n])
  {
    assert PutAt(t, t[p := n], p);
  }

  lemma RemovalIsOneCall(t: Tree, p: Path)
    requires p in t
    ensures OneCall(t, t - {p})
  {
    assert RemovedAt(t, t - {p}, p);
  }

  /** What the record says of a file system: how its states follow from one another, and that each of them has
      everything from the start. */
  lemma HistoryMeans(fs: FileSystem)
    requires fs.Valid()
    ensures Trace(fs.initial, fs.history, fs.tree)
    ensures forall t | t in fs.history :: NothingLost(fs.initial, t, fs.sources, fs.target)
    ensures Separate(fs.sources, fs.target) ==> forall t | t in fs.history :: AllStand(fs.initial, t, fs.sources, fs.target)
  {
    hide Ledger, Separate, StandsAt, Trace, StandsSomewhere, NothingLost;
    if Separate(fs.sources, fs.target) {
      forall t, p | t in fs.history && p in fs.initial && IsSpot(fs.sources, fs.target, p)
        ensures StandsSomewhere(fs.initial, t, fs.sources, fs.target, p)
      {
        StandsWhole(fs.initial, t, fs.sources, fs.target, p);
      }
    }
  }

  lemma StartLedger(t: Tree, sources: set<Path>, target: Path)
    ensures Ledger(t, t, map p | p in t :: p, sources, target)
  {
    var where := map p | p in t :: p;
    assert where.Keys == t.Keys;
    assert FoundAt(t, t, where);
    hide FoundAt, BelowSpot, Separate, IsSpot;
    forall p, q | p in t && q in t && p <= q ensures where[q] == where[p] + q[|p|..] { BelowIs(p, q); }
    assert Whole(t, where, sources, target);
  }

  lemma SpotIsBelow(sources: set<Path>, target: Path, spot: Path, p: Path)
    requires IsSpot(sources, target, spot) && spot <= p
    ensures BelowSpot(sources, target, p)
  {
    if spot !in sources { BelowTransitive(target, spot, p); }
  }

  lemma RelocatedWhole(i: Tree, where: map<Path, Path>, sources: set<Path>, target: Path, from: Path, to: Path)
    requires where.Keys == i.Keys && Whole(i, where, sources, target) && Separate(sources, target)
    requires Apart(from, to) && IsSpot(sources, target, from) && IsSpot(sources, target, to)
    ensures Whole(i, Relocated(where, from, to), sources, target)
  {
    var next := Relocated(where, from, to);
    forall p | p in i && !BelowSpot(sources, target, p) ensures next[p] == p {
      if from <= p { SpotIsBelow(sources, target, from, p); }
      if to <= p { SpotIsBelow(sources, target, to, p); }
    }
    forall p | p in i && IsSpot(sources, target, p) ensures RelocatedSpot(where, next, sources, target, from, to, p) {
      SwappedSpot(sources, target, from, to, where[p]);
    }
    forall p, q | p in i && IsSpot(sources, target, p) && q in i && p <= q ensures next[q] == next[p] + q[|p|..] {
      assert RelocatedSpot(where, next, sources, target, from, to, p);
      SwappedBelow(sources, target, from, to, where[p], q[|p|..]);
    }
  }

  predicate RelocatedSpot(where: map<Path, Path>, next: map<Path, Path>, sources: set<Path>, target: Path,
                          from: Path, to: Path, p: Path)
  {
    p in where && p in next && IsSpot(sources, target, next[p]) && next[p] == Swap(where[p], from, to)
  }

  lemma SwappedSpot(sources: set<Path>, target: Path, from: Path, to: Path, p: Path)
    requires Separate(sources, target)
    requires IsSpot(sources, target, from) && IsSpot(sources, target, to) && IsSpot(sources, target, p)
    ensures Swap(p, from, to) == if p == from then to else if p == to then from else p
  {
    if p != from { SpotsApart(sources, target, p, from); }
    if p != to { SpotsApart(sources, target, p, to); }
    assert from + [] == from && to + [] == to;
  }

  lemma SwappedBelow(sources: set<Path>, target: Path, from: Path, to: Path, p: Path, rest: Path)
    requires Separate(sources, target) && Apart(from, to)
    requires IsSpot(sources, target, from) && IsSpot(sources, target, to) && IsSpot(sources, target, p)
    ensures Swap(p + rest, from, to) == Swap(p, from, to) + rest
  {
    SwappedSpot(sources, target, from, to, p);
    SwapBelow(from, to, rest);
    if p != from && p != to {
      SpotsApart(sources, target, p, from);
      SpotsApart(sources, target, p, to);
      ApartTrees(p, from, p + rest);
      ApartTrees(p, to, p + rest);
    }
  }

  /** Items may be listed at the other of two spots when they are found there. */
  lemma RelocatedLedger(i: Tree, t: Tree, u: Tree, where: map<Path, Path>, sources: set<Path>, target: Path,
          from: Path, to: Path)
    requires Ledger(i, t, where, sources, target) && FoundAt(i, u, Relocated(where, from, to))
    requires Apart(from, to) && IsSpot(sources, target, from) && IsSpot(sources, target, to)
    requires forall q | q in where.Values :: !(to <= q)
    ensures Ledger(i, u, Relocated(where, from, to), sources, target) && NothingLost(i, u, sources, target)
  {
    var next := Relocated(where, from, to);
    forall p | p in next ensures next[p] == p || BelowSpot(sources, target, next[p]) {
      assert where[p] in where.Values;
      if from <= where[p] { SpotIsBelow(sources, target, to, next[p]); }
    }
    if Separate(sources, target) { RelocatedWhole(i, where, sources, target, from, to); }
    assert Ledger(i, u, next, sources, target);
  }

  lemma RenameLedger(i: Tree, t: Tree, where: map<Path, Path>, sources: set<Path>, target: Path, from: Path, to: Path)
    requires Closed(t) && Apart(from, to) && to !in t && Ledger(i, t, where, sources, target)
    requires IsSpot(sources, target, from) && IsSpot(sources, target, to)
    ensures Ledger(i, Renamed(t, from, to), Relocated(where, from, to), sources, target)
    ensures NothingLost(i, Renamed(t, from, to), sources, target)
  {
    RenameFound(i, t, where, from, to);
    AbsentBelow(t, to);
    RelocatedLedger(i, t, Renamed(t, from, to), where, sources, target, from, to);
  }

  lemma ChangeLedger(i: Tree, t: Tree, u: Tree, where: map<Path, Path>, sources: set<Path>, target: Path)
    requires Ledger(i, t, where, sources, target)
    requires forall q | q in where.Values && q in t :: q in u && u[q] == t[q]
    ensures Ledger(i, u, where, sources, target) && NothingLost(i, u, sources, target)
  {
    ChangeFound(i, t, u, where);
    assert Ledger(i, u, where, sources, target);
  }

  lemma PutLedger(i: Tree, t: Tree, p: Path, n: Node, where: map<Path, Path>, sources: set<Path>, target: Path)
    requires Ledger(i, t, where, sources, target) && p !in where.Values
    ensures Ledger(i, t[p := n], where, sources, target)
  {
    hide Ledger;
    ChangeLedger(i, t, t[p := n], where, sources, target);
  }

  lemma RemoveLedger(i: Tree, t: Tree, p: Path, where: map<Path, Path>, sources: set<Path>, target: Path)
    requires Ledger(i, t, where, sources, target) && p !in where.Values
    ensures Ledger(i, t - {p}, where, sources, target)
  {
    hide Ledger;
    ChangeLedger(i, t, t - {p}, where, sources, target);
  }

  lemma CreateSound(i: Tree, history: seq<Tree>, t: Tree, where: map<Path, Path>, sources: set<Path>, target: Path,
                    p: Path, n: Node)
    requires Sound(i, history, t, where, sources, target) && p !in t && p != [] && IsDir(t, Parent(p))
    requires n.File? ==> FreshId(t, n.id) || exists e :: e in t && t[e] == n
    ensures Sound(i, history + [t[p := n]], t[p := n], where, sources, target)
  {
    hide Closed, Coherent, Ledger, FreshId, Sound, OneCall, IsDir;
    SoundMeans(i, history, t, where, sources, target);
    AbsentFromLedger(i, t, where, sources, target, p);
    CreateCoherent(t, p, n);
    PutLedger(i, t, p, n, where, sources, target);
    CreateClosed(t, p, n);
    PutIsOneCall(t, p, n);
    SoundNext(i, history, t, t[p := n], where, where, sources, target);
  }

  lemma ChangeSound(i: Tree, history: seq<Tree>, t: Tree, where: map<Path, Path>, sources: set<Path>, target: Path,
                    p: Path, n: Node)
    requires Sound(i, history, t, where, sources, target) && p in t && p !in where.Values && (t[p].Dir? <==> n.Dir?)
    requires n.File? ==> FreshId(t - {p}, n.id)
    ensures Sound(i, history + [t[p := n]], t[p := n], where, sources, target)
  {
    hide Closed, Coherent, Ledger, FreshId, Sound, OneCall;
    SoundMeans(i, history, t, where, sources, target);
    ChangeCoherent(t, p, n);
    PutLedger(i, t, p, n, where, sources, target);
    ChangeClosed(t, p, n);
    PutIsOneCall(t, p, n);
    SoundNext(i, history, t, t[p := n], where, where, sources, target);
  }

  lemma RemoveSound(i: Tree, history: seq<Tree>, t: Tree, where: map<Path, Path>, sources: set<Path>, target: Path, p: Path)
    requires Sound(i, history, t, where, sources, target) && p in t && p !in where.Values && IsLeaf(t, p)
    ensures Sound(i, history + [t - {p}], t - {p}, where, sources, target)
  {
    hide Closed, Coherent, Ledger, IsLeaf, Sound, OneCall;
    SoundMeans(i, history, t, where, sources, target);
    RemoveCoherent(t, p);
    RemoveLedger(i, t, p, where, sources, target);
    RemoveClosed(t, p);
    RemovalIsOneCall(t, p);
    SoundNext(i, history, t, t - {p}, where, where, sources, target);
  }

  lemma AbsentFromLedger(i: Tree, t: Tree, where: map<Path, Path>, sources: set<Path>, target: Path, p: Path)
    requires Ledger(i, t, where, sources, target) && p !in t
    ensures p !in where.Values
  {
  }

  lemma RepointFound(i: Tree, t: Tree, where: map<Path, Path>, from: Path, to: Path)
    requires FoundAt(i, t, where) && Apart(from, to)
    requires forall q | q in where.Values :: !(to <= q)
    requires forall q | q in where.Values && from <= q :: Swap(q, from, to) in t && SameItem(t[q], t[Swap(q, from, to)])
    ensures FoundAt(i, t, Relocated(where, from, to))
  {
    var next := Relocated(where, from, to);
    forall p | p in i ensures next[p] in t && SameItem(i[p], t[next[p]]) {
      assert where[p] in where.Values;
    }
    forall p, q | p in next && q in next && p != q ensures next[p] != next[q] {
      SwapTwice(where[p], from, to);
      SwapTwice(where[q], from, to);
    }
  }

  lemma RepointSpare(where: map<Path, Path>, from: Path, to: Path)
    requires Apart(from, to) && forall q | q in where.Values :: !(to <= q)
    ensures forall q | q in Relocated(where, from, to).Values :: !(from <= q)
  {
    var next := Relocated(where, from, to);
    forall q | q in next.Values ensures !(from <= q) {
      var p :| p in next && next[p] == q;
      assert where[p] in where.Values;
      if from <= where[p] { ApartTrees(from, to, q); }
    }
  }

  lemma CreateCoherent(t: Tree, p: Path, n: Node)
    requires Coherent(t) && (n.File? ==> FreshId(t, n.id) || exists e :: e in t && t[e] == n)
    ensures Coherent(t[p := n])
  {
  }

  lemma ChangeCoherent(t: Tree, p: Path, n: Node)
    requires Coherent(t) && p in t && (n.File? ==> FreshId(t - {p}, n.id))
    ensures Coherent(t[p := n])
  {
    var u := t[p := n];
    forall q | q in u && q != p ensures q in t - {p} {}
  }

  lemma RemoveCoherent(t: Tree, p: Path)
    requires Coherent(t)
    ensures Coherent(t - {p})
  {
  }

  lemma CreateClosed(t: Tree, p: Path, n: Node)
    requires Closed(t) && p !in t && p != [] && IsDir(t, Parent(p))
    ensures Closed(t[p := n])
  {
    var u := t[p := n];
    forall q {:trigger Parent(q)} | q in u && q != [] ensures IsDir(u, Parent(q)) {
      if q != p { assert q in t && IsDir(t, Parent(q)); }
    }
  }

  lemma ChangeClosed(t: Tree, p: Path, n: Node)
    requires Closed(t) && p in t && (t[p].Dir? <==> n.Dir?)
    ensures Closed(t[p := n])
  {
    var u := t[p := n];
    forall q {:trigger Parent(q)} | q in u && q != [] ensures IsDir(u, Parent(q)) {
      assert q in t && IsDir(t, Parent(q));
    }
  }

  lemma RemoveClosed(t: Tree, p: Path)
    requires Closed(t) && IsLeaf(t, p)
    ensures Closed(t - {p})
  {
    var u := t - {p};
    forall q {:trigger Parent(q)} | q in u && q != [] ensures IsDir(u, Parent(q)) {
      assert q in t && IsDir(t, Parent(q));
      assert Parent(q) == p ==> p <= q;
    }
  }
}

/** The undoing of a logged transfer, as the application does it. */
module TransferUndoJob {
  import opened Basics
  import opened Paths
  import opened TransferTree
  import opened TransferDisk
  import opened TransferScan
  import opened TransferCopy
  import opened TransferSteps
  import opened TransferCommit
  import opened Transfer
  import opened TransferUndoTrees
  import opened TransferUndoCopy
  import opened TransferUndoSteps
  import opened TransferUndoRun

  /** The file system while something is undone. `spare` is a free name in a directory, as process id and time
      give it. */
  class UndoDisk {
    var tree: Tree
    const world: World
    const spare: (Tree, Path) -> Path

    ghost predicate Valid()
      reads this
    {
      Closed(tree) && Lawful(world) && Spares(spare)
    }

    constructor (tree: Tree, world: World, spare: (Tree, Path) -> Path)
      requires Closed(tree) && Lawful(world) && Spares(spare)
      ensures Valid() && this.tree == tree && this.world == world && this.spare == spare
    {
      this.tree := tree;
      this.world := world;
      this.spare := spare;
    }

    /** A rename is refused when it would lead to another device. */
    method Rename(from: Path, to: Path, across: bool) returns (ok: bool)
      requires Valid()
      modifies `tree
      ensures Valid() && ok == (!across && TryRename(old(tree), from, to).Some?)
      ensures tree == if ok then TryRename(old(tree), from, to).value else old(tree)
    {
      hide Closed, Renamed;
      ok := !across && CanRename(tree, from, to);
      if ok {
        RenameClosed(tree, from, to);
        tree := Renamed(tree, from, to);
      }
    }

    method RemoveTree(p: Path)
      requires Valid() && p != []
      modifies `tree
      ensures Valid() && tree == Without(old(tree), p)
    {
      WithoutClosed(tree, p);
      tree := Without(tree, p);
    }

    /** `copy_path_recursively`. */
    method CopyPathRecursively(source: Path, destination: Path, ghost bound: nat) returns (ok: bool)
      requires Valid() && destination !in tree && Apart(source, destination) && Bounded(tree, source, world, bound)
      modifies `tree
      ensures Valid() && Beside(old(tree), tree, destination)
      ensures ok ==> CanCreate(old(tree), destination) && destination in tree && NoLinks(tree, destination)
      ensures ok && source in old(tree) ==> BackCopied(old(tree), tree, source, destination, [])
      ensures CanCreate(old(tree), destination) && FilesAndFolders(old(tree), source) ==> ok
      decreases bound + 1 - |source|
    {
      hide BackCopied, NoLinks, ChildrenBack, Beside, Closed, Lawful, Bounded, Making, CanCreate,
        FilesAndFolders, Apart, Children;
      ghost var t0 := tree;
      LedTo(world, tree, source, bound);
      NothingMade(tree, source, destination);
      var item := world.leadsTo(tree, source);
      if item.None? || tree[item.value].SpecialFile? || !CanCreate(tree, destination) {
        return false;
      }
      if !tree[item.value].Dir? {
        var id: nat := *;
        tree := tree[destination := tree[item.value].(id := id)];
        FileMade(t0, tree, source, destination);
        return true;
      }
      tree := tree[destination := Dir(NEW_DIR_MODE)];
      FolderMade(t0, tree, source, destination);
      var names := Children(tree, item.value);
      ghost var seen := {};
      while names != {}
        invariant Closed(tree) && Making(t0, tree, destination, seen)
        invariant source in t0 && t0[source].Dir? ==>
                    names + seen == Children(t0, source) && ChildrenBack(t0, tree, source, destination, seen)
        invariant names !! seen
        decreases |names|
      {
        var name :| name in names;
        names := names - {name};
        ghost var before := tree;
        NotYetMade(t0, tree, source, destination, seen, name, world, bound);
        ChildToCopy(t0, tree, source, destination, seen, name);
        ok := CopyPathRecursively(source + [name], destination + [name], bound);
        MadeOne(t0, before, tree, source, destination, seen, name, ok);
        if !ok { return; }
        if source in t0 && t0[source].Dir? { ChildBack(t0, before, tree, source, destination, seen, name); }
        seen := seen + {name};
      }
      FolderBack(t0, tree, source, destination, seen);
      ok := true;
    }

    /** `MoveBack`. */
    method MoveItemBack(from: Path, to: Path, across: bool) returns (ok: bool)
      requires Valid() && Apart(from, to)
      modifies `tree
      ensures Valid() && MoveBack(old(tree), tree, to, from, across, world, ok)
    {
      hide Closed, Lawful, Spares, Renamed, BackCopied, NoLinks, TryRename;
      if !Exists(tree, from, world) || Exists(tree, to, world) {
        return false;
      }
      if to in tree {
        if across || tree[from].Dir? { return false; }
        RemoveTree(to);
        ok := Rename(from, to, false);
        RenamedOver(old(tree), from, to);
        return;
      }
      ok := Rename(from, to, across);
      if !ok {
        ghost var t := tree;
        ok := CopyPathRecursively(from, to, Deepest(tree, from, world));
        if ok { RemoveTree(from); }
      }
    }

    /** The library's move to another device. */
    method LibraryMove(from: Path, to: Path) returns (ok: bool)
      requires Valid()
      modifies `tree
      ensures Valid() && LibraryMoved(old(tree), tree, from, to, world.keepsLinks, ok)
    {
      hide Closed, Lawful, Spares;
      if from !in tree || !CanCreate(tree, to) || !(tree[from].File? || tree[from].Link?) {
        return false;
      }
      var n := tree[from];
      if n.Link? && !world.keepsLinks {
        if * { return false; }
        n := *;
        if !n.File? { return false; }
      }
      LeafPutElsewhere(tree, from, to, n, world.keepsLinks);
      tree := Without(tree, from)[to := n];
      ok := true;
    }

    /** `move_path_exact`. */
    method MovePathExact(from: Path, to: Path, across: bool) returns (ok: bool)
      requires Valid()
      modifies `tree
      ensures Valid() && MovedExactly(old(tree), tree, from, to, across, world, ok)
    {
      hide Closed, Lawful, Spares, TryRename, LibraryMoved;
      if to in tree {
        return false;
      }
      ok := Rename(from, to, across);
      if !ok {
        ok := LibraryMove(from, to);
      }
    }

    /** `restore_replaced_copy`. */
    method RestoreReplacedCopy(d: Path, k: Path) returns (ok: bool)
      requires Valid() && d != []
      modifies `tree
      ensures Valid()
      ensures var r := CopyRestored(old(tree), d, k, spare(old(tree), Parent(d)));
              ok == r.Some? && tree == if ok then r.value else old(tree)
    {
      hide Closed, Lawful, Renamed, TryRename;
      if d !in tree || k !in tree {
        return false;
      }
      ghost var t := tree;
      var x := spare(tree, Parent(d));
      assert Entry(Parent(d), x) && x !in tree;
      ok := Rename(d, x, false);
      if !ok {
        return;
      }
      ok := Rename(k, d, false);
      if !ok {
        TriedIsRenamed(t, d, x);
        RenamedMoveBack(t, d, x);
        var back := Rename(x, d, false);
        return;
      }
      RemoveTree(x);
    }

    /** `restore_replaced_move`. */
    method RestoreReplacedMove(s: Path, d: Path, k: Path, across: bool) returns (ok: bool)
      requires Valid()
      modifies `tree
      ensures Valid() && MoveRestored(old(tree), tree, s, d, k, across, world, ok)
    {
      hide Closed, Lawful, Spares, TryRename, MovedExactly;
      if s in tree || d !in tree || k !in tree {
        return false;
      }
      var moved := MovePathExact(d, s, across);
      ghost var m := tree;
      if !moved {
        assert PutBackAfter(m, moved, tree, s, d, k, across, world, false);
        return false;
      }
      ok := Rename(k, d, false);
      if !ok {
        var back := MovePathExact(s, d, across);
        assert MovedExactly(m, tree, s, d, across, world, back);
      }
      assert PutBackAfter(m, moved, tree, s, d, k, across, world, ok);
    }

    /** `execute_undo_step`. */
    method ExecuteUndoStep(undo: TransferUndo, across: bool, ghost target: Path) returns (ok: bool)
      requires Valid() && Logged(undo, target)
      modifies `tree
      ensures Valid() && Executes(old(tree), undo, across, spare(old(tree), target), world, tree, ok)
    {
      hide Closed, Lawful, Spares, MoveBack, MoveRestored, CopyRestored, Exists;
      match undo
      case Created(p) =>
        if Exists(tree, p, world) { RemoveTree(p); }
        ok := true;
      case Moved(s, d) =>
        ok := MoveItemBack(d, s, across);
      case ReplacedCopy(d, k) =>
        ok := RestoreReplacedCopy(d, k);
      case ReplacedMove(s, d, k) =>
        ok := RestoreReplacedMove(s, d, k, across);
    }

    /** `undo_last_operation`: the record is the log in reverse, and is worked through from its beginning. A step
        that fails is kept and passed over; the user may cancel between two steps. What failed and what was not
        come to is left as the record of another undo. */
    method UndoLastOperation(record: seq<TransferUndo>, across: seq<bool>, cancelled: CancelFlag, ghost undo: seq<TransferUndo>,
                             ghost steps: seq<Step>, ghost target: Path)
      returns (left: seq<TransferUndo>, ghost from: nat, ghost run: seq<Tree>, ghost oks: seq<bool>,
               ghost displaced: seq<Path>)
      requires Valid() && record == Reversed(undo) && |across| == |steps| == |undo|
      requires forall i | 0 <= i < |undo| :: across[i] == !steps[|undo| - 1 - i].renamed
      requires forall i | 0 <= i < |undo| :: Logged(undo[i], target)
      modifies `tree, cancelled
      ensures Valid() && cancelled.Monotone()
      ensures from <= |undo| && UndoRun(run, oks, steps[from..], undo[from..], displaced, target, world)
      ensures run[|undo| - from] == old(tree) && run[0] == tree
      ensures left == Reversed(NotUndone(undo[from..], oks)) + Reversed(undo[..from])
      ensures from > 0 ==> cancelled.raised
    {
      hide Closed, Lawful, Executes, Logged;
      var failed := [];
      var index := 0;
      from, run, oks, displaced := |undo|, [tree], [], [];
      while index < |record|
        invariant index <= |record| == |undo| && from == |undo| - index
        invariant Valid() && cancelled.Monotone()
        invariant UndoRun(run, oks, steps[from..], undo[from..], displaced, target, world)
        invariant run[index] == old(tree) && run[0] == tree
        invariant failed == Reversed(NotUndone(undo[from..], oks))
      {
        var stop := cancelled.Load();
        if stop {
          break;
        }
        ghost var before := tree;
        ReversedAt(undo, index);
        var ok := ExecuteUndoStep(record[index], across[index], target);
        if !ok {
          failed := failed + [record[index]];
        }
        UndoRunMore(run, oks, steps, undo, displaced, target, world, from, before, spare(before, target), tree, ok);
        run, oks, displaced := [tree] + run, [ok] + oks, [spare(before, target)] + displaced;
        index := index + 1;
        from := from - 1;
      }
      ReversedRest(undo, index);
      left := failed + record[index..];
    }

    /** Undoing a log by its record, the log in reverse, from a tree like that at its end. When it is not cancelled
        and every step can be undone, it ends without errors in a tree like that from the start; and only then, when
        no item moved by copying came from inside the target directory. A cancelled undo has come to a state in
        between, and leaves the record that leads on from there. */
    method UndoLog(record: seq<TransferUndo>, across: seq<bool>, cancelled: CancelFlag, ghost undo: seq<TransferUndo>,
                   ghost states: seq<Tree>, ghost steps: seq<Step>, ghost target: Path, ghost policy: ConflictPolicy)
      returns (left: seq<TransferUndo>, ghost from: nat)
      requires Valid() && ByShape(world) && Logs(states, steps, undo, target, policy) && record == Reversed(undo)
      requires |across| == |steps| == |undo| && |states| == |undo| + 1 && Alike(states[|undo|], tree)
      requires forall i | 0 <= i < |undo| :: across[i] == !steps[|undo| - 1 - i].renamed
      modifies `tree, cancelled
      ensures Valid() && cancelled.Monotone()
      ensures from <= |undo| && (from > 0 ==> cancelled.raised)
      ensures AllUndoable(states, steps, undo, world, from) ==> Alike(states[from], tree) && left == Reversed(undo[..from])
      ensures AllUndoable(states, steps, undo, world, from) && old(tree) == states[|undo|] && KeepsInodes(steps) ==>
                tree == states[from]
      ensures CopiedFromOutside(steps, target) && Alike(states[from], tree) ==> AllUndoable(states, steps, undo, world, from)
    {
      hide Alike, Logs, UndoRun, ByShape, Closed, Lawful, Spares, Logged, CopiedFromOutside, KeepsInodes, NotUndone;
      LogsLogged(states, steps, undo, target, policy);
      ghost var run, oks, displaced;
      left, from, run, oks, displaced := UndoLastOperation(record, across, cancelled, undo, steps, target);
      LogsFrom(states, steps, undo, target, policy, world, from);
      LogLengths(run, oks, steps[from..], undo[from..], displaced, target, world);
      ExactUndo(states[from..], steps[from..], undo[from..], run, oks, displaced, target, policy, world);
      AllDone(undo[from..], oks);
    }
  }

  ghost predicate Spares(spare: (Tree, Path) -> Path) {
    forall t: Tree, dir: Path :: Entry(dir, spare(t, dir)) && spare(t, dir) !in t
  }

  /** What the transfer logs with this target. */
  predicate Logged(undo: TransferUndo, target: Path) {
    match undo
    case Created(p) => p != []
    case Moved(s, d) => Apart(s, d)
    case ReplacedCopy(d, k) => Entry(target, d)
    case ReplacedMove(s, d, k) => true
  }

  function Reversed<T>(s: seq<T>): (r: seq<T>)
    ensures |r| == |s|
  {
    if s == [] then [] else Reversed(s[1..]) + [s[0]]
  }

  /** The steps whose undoing failed. */
  function NotUndone(undo: seq<TransferUndo>, oks: seq<bool>): seq<TransferUndo>
    requires |undo| == |oks|
  {
    if undo == [] then [] else (if oks[0] then [] else [undo[0]]) + NotUndone(undo[1..], oks[1..])
  }

  lemma {:induction false} AllDone(undo: seq<TransferUndo>, oks: seq<bool>)
    requires |undo| == |oks|
    ensures (forall i | 0 <= i < |oks| :: oks[i]) ==> NotUndone(undo, oks) == []
  {
    if undo != [] { AllDone(undo[1..], oks[1..]); }
  }

  lemma LogsLogged(states: seq<Tree>, steps: seq<Step>, undo: seq<TransferUndo>, target: Path, policy: ConflictPolicy)
    requires Logs(states, steps, undo, target, policy)
    ensures forall i | 0 <= i < |undo| :: Logged(undo[i], target)
  {
    forall i | 0 <= i < |undo| ensures Logged(undo[i], target) {
      assert Leads(states[i], states[i + 1], steps[i], target, policy);
      DestinationIsEntry(target, steps[i].source);
    }
  }

  lemma LogsFrom(states: seq<Tree>, steps: seq<Step>, undo: seq<TransferUndo>, target: Path, policy: ConflictPolicy,
                 world: World, from: nat)
    requires Logs(states, steps, undo, target, policy) && from <= |undo|
    ensures |states| == |undo| + 1 == |steps| + 1 && Logs(states[from..], steps[from..], undo[from..], target, policy)
    ensures AllUndoable(states[from..], steps[from..], undo[from..], world, 0) <==> AllUndoable(states, steps, undo, world, from)
    ensures (KeepsInodes(steps) ==> KeepsInodes(steps[from..]))
    ensures CopiedFromOutside(steps, target) ==> CopiedFromOutside(steps[from..], target)
  {
    hide Leads, Undoable, Closed, KeepsInode;
    forall i {:trigger steps[from..][i]} | 0 <= i < |steps[from..]|
      ensures Leads(states[from..][i], states[from..][i + 1], steps[from..][i], target, policy)
    {
      assert steps[from..][i] == steps[from + i];
    }
    if AllUndoable(states[from..], steps[from..], undo[from..], world, 0) {
      forall i {:trigger undo[i]} | from <= i < |undo| ensures Undoable(states[i + 1], undo[i], !steps[i].renamed, world) {
        assert undo[from..][i - from] == undo[i];
      }
    }
  }

  lemma {:induction false} ReversedAt<T>(s: seq<T>, i: nat)
    requires i < |s|
    ensures Reversed(s)[i] == s[|s| - 1 - i]
  {
    if i < |s| - 1 { ReversedAt(s[1..], i); }
  }

  lemma ReversedRest<T>(s: seq<T>, n: nat)
    requires n <= |s|
    ensures Reversed(s)[n..] == Reversed(s[..|s| - n])
  {
    hide Reversed;
    var fewer := s[..|s| - n];
    forall i | 0 <= i < |fewer| ensures Reversed(s)[n..][i] == Reversed(fewer)[i] {
      ReversedAt(s, n + i);
      ReversedAt(fewer, i);
    }
  }

  /** One more step executed. */
  lemma UndoRunMore(run: seq<Tree>, oks: seq<bool>, steps: seq<Step>, undo: seq<TransferUndo>, displaced: seq<Path>,
                    target: Path, world: World, from: nat, t: Tree, x: Path, u: Tree, ok: bool)
    requires 0 < from <= |undo| == |steps| && UndoRun(run, oks, steps[from..], undo[from..], displaced, target, world)
    requires run[0] == t && Entry(target, x) && x !in t
    requires Executes(t, undo[from - 1], !steps[from - 1].renamed, x, world, u, ok)
    ensures UndoRun([u] + run, [ok] + oks, steps[from - 1..], undo[from - 1..], [x] + displaced, target, world)
    ensures Reversed(NotUndone(undo[from - 1..], [ok] + oks)) ==
            Reversed(NotUndone(undo[from..], oks)) + (if ok then [] else [undo[from - 1]])
  {
    hide Executes;
    var undo', steps' := undo[from - 1..], steps[from - 1..];
    var run', oks', displaced' := [u] + run, [ok] + oks, [x] + displaced;
    assert undo'[1..] == undo[from..] && steps'[1..] == steps[from..] && oks'[1..] == oks;
    forall i {:trigger undo'[i]} | 0 <= i < |undo'|
      ensures Executes(run'[i + 1], undo'[i], !steps'[i].renamed, displaced'[i], world, run'[i], oks'[i])
    {
      if i > 0 { assert undo[from..][i - 1] == undo'[i] && steps[from..][i - 1] == steps'[i]; }
    }
    var failed := NotUndone(undo[from..], oks);
    assert [undo'[0]] + failed == NotUndone(undo', [false] + oks) by { assert ([false] + oks)[1..] == oks; }
    assert ([undo'[0]] + failed)[1..] == failed && [] + failed == failed;
  }

  lemma WithoutClosed(t: Tree, p: Path)
    requires Closed(t) && p != []
    ensures Closed(Without(t, p))
  {
    var u := Without(t, p);
    forall q {:trigger Parent(q)} | q in u && q != [] ensures IsDir(u, Parent(q)) {
      assert IsDir(t, Parent(q));
      assert p <= Parent(q) ==> p <= q;
    }
  }

  lemma LeafPutElsewhere(t: Tree, from: Path, to: Path, n: Node, keepsLinks: bool)
    requires Closed(t) && from in t && !t[from].Dir? && CanCreate(t, to) && !n.Dir?
    requires t[from].File? || t[from].Link?
    requires if t[from].Link? && !keepsLinks then n.File? else n == t[from]
    ensures Closed(Without(t, from)[to := n])
    ensures LibraryMoved(t, Without(t, from)[to := n], from, to, keepsLinks, true)
  {
    var u := Without(t, from)[to := n];
    AbsentBelow(t, to);
    forall q {:trigger Parent(q)} | q in u && q != [] ensures IsDir(u, Parent(q)) {
      assert IsDir(t, Parent(q));
      if from <= Parent(q) { NothingBelowAbsent(t, from, Parent(q)); }
    }
    assert SameItem(t[from], n) || true;
  }

  lemma RenamedOver(t: Tree, from: Path, to: Path)
    ensures forall q | !(to <= q) && !(from <= q) :: SameAt(t, Without(t, to), q)
    ensures var r := TryRename(Without(t, to), from, to);
            r.Some? ==> forall q | !(to <= q) && !(from <= q) :: SameAt(t, r.value, q)
  {
    hide TryRename;
    forall q | !(to <= q) && !(from <= q) ensures SameAt(t, Without(t, to), q) {
      TryRenameBeside(Without(t, to), from, to, q);
    }
    var r := TryRename(Without(t, to), from, to);
    if r.Some? {
      forall q | !(to <= q) && !(from <= q) ensures SameAt(t, r.value, q) {
        TryRenameBeside(Without(t, to), from, to, q);
        assert SameAt(t, Without(t, to), q);
      }
    }
  }

  ghost function Deepest(t: Tree, p: Path, world: World): (bound: nat)
    ensures Bounded(t, p, world, bound)
  {
    LongestPath(t.Keys) + world.longest + |p|
  }

  ghost function {:induction false} LongestPath(s: set<Path>): (n: nat)
    ensures forall q | q in s :: |q| <= n
  {
    if s == {} then 0 else
    var p :| p in s;
    var n := LongestPath(s - {p});
    if |p| > n then |p| else n
  }

  /** Nothing at or below `source`, and nothing that is reached through links, has a longer path than this. */
  ghost predicate Bounded(t: Tree, source: Path, world: World, bound: nat) {
    && world.longest <= bound && |source| <= bound + 1
    && (forall q | q in t && source <= q :: |q| <= bound)
  }

  /** The folder at `destination` has been made, and in it only what has these names. */
  ghost predicate Making(t0: Tree, t: Tree, destination: Path, seen: set<Name>) {
    && Beside(t0, t, destination) && destination in t && t[destination] == Dir(NEW_DIR_MODE) && NoLinks(t, destination)
    && (forall q | q in t && destination < q :: q[|destination|] in seen)
  }

  ghost predicate ChildrenBack(t0: Tree, t: Tree, source: Path, destination: Path, names: set<Name>) {
    forall r | r != [] && r[0] in names && !UnderLink(t0, source, r) :: BackMirrors(t0, t, source, destination, r)
  }

  lemma LedTo(world: World, t: Tree, source: Path, bound: nat)
    requires Lawful(world) && Closed(t) && Bounded(t, source, world, bound)
    ensures var q := world.leadsTo(t, source);
            && (source in t && !t[source].Link? ==> q == Some(source))
            && (q.Some? ==> q.value in t && !t[q.value].Link? && |source| <= bound)
  {
    assert LeadsRightly(t, source, world.leadsTo(t, source), world.longest);
  }

  lemma NothingMade(t: Tree, source: Path, destination: Path)
    ensures FilesAndFolders(t, source) ==> source in t && (t[source].File? || t[source].Dir?)
    ensures Beside(t, t, destination)
  {
  }

  lemma ItemMade(t: Tree, u: Tree, p: Path, n: Node)
    requires Closed(t) && CanCreate(t, p) && u == t[p := n]
    ensures Closed(u) && Beside(t, u, p) && (forall q | q in u && p <= q :: q == p)
  {
    AbsentBelow(t, p);
    forall q {:trigger Parent(q)} | q in u && q != [] ensures IsDir(u, Parent(q)) {
      if q != p { assert IsDir(t, Parent(q)); }
    }
  }

  lemma FileMade(t0: Tree, t: Tree, s: Path, d: Path)
    requires Closed(t0) && CanCreate(t0, d) && d in t && t == t0[d := t[d]] && Apart(s, d) && t[d].File?
    requires s in t0 ==> t0[s].Link? || (t0[s].File? && t[d].content == t0[s].content && t[d].mode == t0[s].mode)
    ensures Closed(t) && Beside(t0, t, d) && NoLinks(t, d)
    ensures s in t0 ==> BackCopied(t0, t, s, d, [])
  {
    ItemMade(t0, t, d, t[d]);
    hide Closed, Beside;
    if s in t0 {
      forall r | [] <= r && !UnderLink(t0, s, r) ensures BackMirrors(t0, t, s, d, r) {
        LeafOnly(t0, s, r);
        AtNone(s);
        AtNone(d);
        AtSlice(d, r);
      }
    }
  }

  lemma FolderMade(t0: Tree, t: Tree, s: Path, d: Path)
    requires Closed(t0) && CanCreate(t0, d) && t == t0[d := Dir(NEW_DIR_MODE)] && Apart(s, d)
    ensures Closed(t) && Making(t0, t, d, {}) && Children(t, s) == Children(t0, s) && ChildrenBack(t0, t, s, d, {})
  {
    ItemMade(t0, t, d, Dir(NEW_DIR_MODE));
    forall name ensures name in Children(t, s) <==> name in Children(t0, s) {
      ChildIn(t, s, name);
      ChildIn(t0, s, name);
      assert s <= s + [name];
    }
  }

  lemma NotYetMade(t0: Tree, t: Tree, source: Path, destination: Path, seen: set<Name>, name: Name, world: World, bound: nat)
    requires Making(t0, t, destination, seen) && name !in seen && Apart(source, destination)
    requires Bounded(t0, source, world, bound) && |source| <= bound
    ensures destination + [name] !in t && Apart(source + [name], destination + [name])
    ensures Bounded(t, source + [name], world, bound)
    ensures CanCreate(t, destination + [name])
  {
    var s, d := source + [name], destination + [name];
    assert d[|destination|] == name && destination < d && Parent(d) == destination;
    if s <= d { PrefixesCompare(source, destination, d); }
    if d <= s { PrefixesCompare(source, destination, s); }
    forall q | q in t && s <= q ensures |q| <= bound {
      ApartTrees(source, destination, q);
      assert source <= q;
    }
  }

  lemma ChildToCopy(t0: Tree, t: Tree, source: Path, destination: Path, seen: set<Name>, name: Name)
    requires Making(t0, t, destination, seen) && Apart(source, destination)
    ensures source in t0 && name in Children(t0, source) ==> source + [name] in t
    ensures source in t0 && name in Children(t0, source) && FilesAndFolders(t0, source) ==> FilesAndFolders(t, source + [name])
  {
    var s := source + [name];
    forall q | s <= q && (q in t || q in t0) ensures source <= q && !(destination <= q) { ApartTrees(source, destination, q); }
    ChildIn(t0, source, name);
  }

  lemma MadeOne(t0: Tree, t: Tree, u: Tree, source: Path, destination: Path, seen: set<Name>, name: Name, ok: bool)
    requires Making(t0, t, destination, seen) && name !in seen && Apart(source, destination)
    requires Beside(t, u, destination + [name]) && (ok ==> NoLinks(u, destination + [name]))
    ensures ok ==> Making(t0, u, destination, seen + {name})
    ensures Beside(t0, u, destination)
  {
    var d := destination + [name];
    forall q ensures d <= q <==> destination < q && q[|destination|] == name { BelowChild(destination, name, q); }
    BesideTransitive(t0, t, u, destination, d);
  }

  lemma ChildBack(t0: Tree, t: Tree, u: Tree, source: Path, destination: Path, seen: set<Name>, name: Name)
    requires Closed(t0) && Closed(t) && Making(t0, t, destination, seen) && Apart(source, destination)
    requires name in Children(t0, source) && name !in seen
    requires ChildrenBack(t0, t, source, destination, seen)
    requires Beside(t, u, destination + [name]) && BackCopied(t, u, source + [name], destination + [name], [])
    ensures ChildrenBack(t0, u, source, destination, seen + {name})
  {
    var s, d := source + [name], destination + [name];
    forall r | r != [] && r[0] in seen + {name} && !UnderLink(t0, source, r) ensures BackMirrors(t0, u, source, destination, r) {
      AtSlice(source, r);
      AtSlice(destination, r);
      ApartTrees(source, destination, At(source, r));
      if r[0] == name {
        ChildPaths(t0, t, source, destination, name, r);
        assert BackMirrors(t, u, s, d, r[1..]);
      } else {
        BelowChild(destination, name, At(destination, r));
        assert BackMirrors(t0, t, source, destination, r);
      }
    }
  }

  lemma ChildPaths(t0: Tree, t: Tree, source: Path, destination: Path, name: Name, r: Path)
    requires Beside(t0, t, destination) && Apart(source, destination) && r != [] && r[0] == name
    ensures At(source + [name], r[1..]) == At(source, r) && At(destination + [name], r[1..]) == At(destination, r)
    ensures UnderLink(t, source + [name], r[1..]) ==> UnderLink(t0, source, r)
  {
    assert r == [name] + r[1..];
    if UnderLink(t, source + [name], r[1..]) {
      var r' :| r' < r[1..] && At(source + [name], r') in t && t[At(source + [name], r')].Link?;
      assert At(source + [name], r') == At(source, [name] + r') && [name] + r' < r;
      AtSlice(source, [name] + r');
      ApartTrees(source, destination, At(source, [name] + r'));
    }
  }

  lemma FolderBack(t0: Tree, t: Tree, s: Path, d: Path, seen: set<Name>)
    requires Closed(t0) && Apart(s, d) && Making(t0, t, d, seen)
    requires s in t0 ==> t0[s].Dir? || t0[s].Link?
    requires s in t0 && t0[s].Dir? ==> seen == Children(t0, s) && ChildrenBack(t0, t, s, d, seen)
    ensures Beside(t0, t, d) && d in t && NoLinks(t, d)
    ensures s in t0 ==> BackCopied(t0, t, s, d, [])
  {
    AtNone(s);
    AtNone(d);
    if s in t0 {
      forall r | [] <= r && !UnderLink(t0, s, r) ensures BackMirrors(t0, t, s, d, r) {
        if r != [] {
          BelowALink(t0, s, r);
          FolderItem(t0, t, s, d, seen, r);
        }
      }
    }
  }

  lemma BelowALink(t: Tree, s: Path, r: Path)
    requires s in t && r != []
    ensures t[s].Link? ==> UnderLink(t, s, r)
  {
    AtNone(s);
    assert t[s].Link? ==> [] < r && At(s, []) in t && t[At(s, [])].Link?;
  }

  lemma FolderItem(t0: Tree, t: Tree, s: Path, d: Path, seen: set<Name>, r: Path)
    requires Closed(t0) && s in t0 && t0[s].Dir? && Making(t0, t, d, seen) && r != [] && !UnderLink(t0, s, r)
    requires seen == Children(t0, s) && ChildrenBack(t0, t, s, d, seen)
    ensures BackMirrors(t0, t, s, d, r)
  {
    AtSlice(s, r);
    AtSlice(d, r);
    BelowChild(s, r[0], At(s, r));
    ChildIn(t0, s, r[0]);
    if At(s, r) in t0 { NothingBelowAbsent(t0, s + [r[0]], At(s, r)); }
  }
}

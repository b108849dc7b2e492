/** Undoing a logged step: what executing it does, and when it leads back to the tree before the step. */
module TransferUndoSteps {
  import opened Basics
  import opened Paths
  import opened TransferTree
  import opened TransferDisk
  import opened TransferCopy
  import opened TransferSteps
  import opened TransferCommit
  import opened Transfer
  import opened TransferUndoTrees
  import opened TransferUndoCopy

  /** `Path::exists`, which follows symbolic links. */
  predicate Exists(t: Tree, p: Path, world: World) {
    p in t && (t[p].Link? ==> world.leadsTo(t, p).Some?)
  }

  predicate SameAt(t: Tree, u: Tree, q: Path) { (q in t <==> q in u) && (q in t ==> q in u && t[q] == u[q]) }

  /** `MoveBack`: a rename, or where this is not possible a copy and a removal. Nothing is said of the two places
      when a link that leads nowhere is in the way, which the check does not see and the rename replaces. */
  ghost predicate MoveBack(t: Tree, u: Tree, s: Path, d: Path, across: bool, world: World, ok: bool) {
    if !Exists(t, d, world) || Exists(t, s, world) then u == t && !ok
    else if s in t then forall q | !(s <= q) && !(d <= q) :: SameAt(t, u, q)
    else if !across && TryRename(t, d, s).Some? then ok && u == TryRename(t, d, s).value
    else FellBack(t, u, d, s, ok)
  }

  /** The library's move where a rename is not possible: it takes a file, perhaps a link, and refuses a folder. */
  ghost predicate LibraryMoved(t: Tree, u: Tree, from: Path, to: Path, keepsLinks: bool, ok: bool) {
    if from !in t || !CanCreate(t, to) || !(t[from].File? || t[from].Link?) then u == t && !ok
    else if ok
    then exists n {:trigger SameItem(t[from], n)} ::
           u == Without(t, from)[to := n] && (if t[from].Link? && !keepsLinks then n.File? else SameItem(t[from], n))
    else t[from].Link? && !keepsLinks && u == t
  }

  /** `move_path_exact`. */
  ghost predicate MovedExactly(t: Tree, u: Tree, from: Path, to: Path, across: bool, world: World, ok: bool) {
    if to in t then u == t && !ok
    else if !across && TryRename(t, from, to).Some? then ok && u == TryRename(t, from, to).value
    else LibraryMoved(t, u, from, to, world.keepsLinks, ok)
  }

  /** `restore_replaced_copy`. */
  function CopyRestored(t: Tree, d: Path, k: Path, displaced: Path): Option<Tree> {
    if d !in t || k !in t then None else
    var aside := TryRename(t, d, displaced);
    if aside.None? then None else
    var restored := TryRename(aside.value, k, d);
    if restored.None? then None else Some(Without(restored.value, displaced))
  }

  /** `restore_replaced_move`; when the backup cannot go back the moved item is put where it was. */
  ghost predicate MoveRestored(t: Tree, u: Tree, s: Path, d: Path, k: Path, across: bool, world: World, ok: bool) {
    if s in t || d !in t || k !in t then u == t && !ok
    else exists m, moved ::
           MovedExactly(t, m, d, s, across, world, moved) && PutBackAfter(m, moved, u, s, d, k, across, world, ok)
  }

  ghost predicate PutBackAfter(m: Tree, moved: bool, u: Tree, s: Path, d: Path, k: Path, across: bool, world: World, ok: bool) {
    if !moved then u == m && !ok
    else if TryRename(m, k, d).Some? then ok && u == TryRename(m, k, d).value
    else !ok && exists back :: MovedExactly(m, u, s, d, across, world, back)
  }

  /** `execute_undo_step` when no call fails by itself: the step leads from tree t to tree u, with success or an
      error. `across` tells that the moved item's old and new place are on different devices, so that renaming
      between them is refused; `displaced` is the private name that restoring a copy passes through. */
  ghost predicate Executes(t: Tree, undo: TransferUndo, across: bool, displaced: Path, world: World, u: Tree, ok: bool) {
    match undo
    case Created(p) =>
      ok && u == if Exists(t, p, world) then Without(t, p) else t
    case Moved(s, d) =>
      MoveBack(t, u, s, d, across, world, ok)
    case ReplacedCopy(d, k) =>
      var r := CopyRestored(t, d, k, displaced);
      if r.Some? then ok && u == r.value else u == t && !ok
    case ReplacedMove(s, d, k) =>
      MoveRestored(t, u, s, d, k, across, world, ok)
  }

  /** What must hold of the tree for a logged step to be undone: what was created or moved is not a link that
      leads nowhere; what was moved across devices has only files, and folders of the usual mode, or replaced
      something and is a file; and what replaced an item did not come from inside it. */
  predicate Undoable(t: Tree, undo: TransferUndo, across: bool, world: World) {
    match undo
    case Created(p) => Exists(t, p, world)
    case Moved(s, d) => Exists(t, d, world) && (across ==> PlainTree(t, d))
    case ReplacedCopy(d, k) => true
    case ReplacedMove(s, d, k) =>
      !(d <= s) && (across ==> d in t && (t[d].File? || (t[d].Link? && world.keepsLinks)))
  }

  // ---- Moving back from a tree like that after the step

  lemma MoveBackAlike(t: Tree, u: Tree, s: Path, d: Path, across: bool, world: World, ok: bool)
    requires MoveBack(t, u, s, d, across, world, ok) && Closed(t) && Exists(t, d, world)
    requires TryRename(t, d, s).Some? && (across ==> PlainTree(t, d))
    ensures ok && Alike(u, Renamed(t, d, s)) && (!across ==> u == Renamed(t, d, s))
  {
    hide Renamed, Closed, BackCopy, Alike, Without;
    SameAsAll(Renamed(t, d, s));
    if across && ok {
      var c :| BackCopy(t, c, d, s) && u == Without(c, d);
      PlainBack(t, c, d, s);
    }
  }

  lemma MovedExactlyAlike(t: Tree, u: Tree, d: Path, s: Path, across: bool, world: World, ok: bool)
    requires MovedExactly(t, u, d, s, across, world, ok) && Closed(t)
    requires TryRename(t, d, s).Some? && (across ==> t[d].File? || (t[d].Link? && world.keepsLinks))
    ensures ok && Alike(u, Renamed(t, d, s)) && (!across ==> u == Renamed(t, d, s))
  {
    hide Renamed, Closed, Alike, Without;
    SameAsAll(Renamed(t, d, s));
    if across && ok {
      var n :| u == Without(t, d)[s := n] && SameItem(t[d], n);
      LeafMoved(t, d, s, n);
    }
  }

  /** An item below which there is nothing, taken from one place and put at another. */
  lemma LeafMoved(t: Tree, d: Path, s: Path, n: Node)
    requires Closed(t) && CanRename(t, d, s) && Apart(d, s) && !t[d].Dir? && SameItem(t[d], n)
    ensures Alike(Without(t, d)[s := n], Renamed(t, d, s))
  {
    hide Renamed, Closed;
    var u, v := Without(t, d)[s := n], Renamed(t, d, s);
    AbsentBelow(t, s);
    forall q ensures q in u <==> q in v
      ensures q in u ==> SameItem(u[q], v[q])
    {
      if s <= q {
        Split(s, q);
        RenamedBelow(t, d, s, q[|s|..]);
        LeafOnly(t, d, q[|s|..]);
        AtNone(s);
        AtNone(d);
      } else if d <= q {
        Split(d, q);
        RenamedBelow(t, d, s, q[|d|..]);
        AtSlice(s, q[|d|..]);
      } else {
        RenamedBeside(t, d, s, q);
      }
    }
  }

  // ---- Each kind of step

  /** Where links lead depends on the paths and items only. */
  ghost predicate ByShape(world: World) {
    forall a, b, p | Alike(a, b) :: world.leadsTo(a, p).Some? == world.leadsTo(b, p).Some?
  }

  lemma ExistsAlike(a: Tree, b: Tree, p: Path, world: World)
    requires Alike(a, b) && ByShape(world)
    ensures (p in a <==> p in b) && (Exists(a, p, world) <==> Exists(b, p, world))
  {
    assert p in a.Keys <==> p in b.Keys;
    assert world.leadsTo(a, p).Some? == world.leadsTo(b, p).Some?;
  }

  lemma AlikeAt(a: Tree, b: Tree, p: Path)
    requires Alike(a, b)
    ensures p in a <==> p in b
    ensures p in a ==> SameItem(a[p], b[p]) && (a[p].Dir? <==> b[p].Dir?) && (a[p].File? <==> b[p].File?)
                       && (a[p].Link? <==> b[p].Link?)
  {
    assert p in a.Keys <==> p in b.Keys;
  }

  lemma AlikeClosed(a: Tree, b: Tree)
    requires Alike(a, b) && Closed(a)
    ensures Closed(b)
  {
    forall p {:trigger Parent(p)} | p in b && p != [] ensures IsDir(b, Parent(p)) {
      AlikeAt(a, b, p);
      AlikeAt(a, b, Parent(p));
      assert IsDir(a, Parent(p));
    }
  }

  lemma AlikePlain(a: Tree, b: Tree, d: Path)
    requires Alike(a, b)
    ensures PlainTree(a, d) <==> PlainTree(b, d)
  {
    forall q ensures q in a <==> q in b { AlikeAt(a, b, q); }
  }

  /** A step that cannot be undone leaves something behind: an entry of the target directory that was not there
      before, or at the old place of an item that was moved by copying something other than was there. */
  ghost predicate Differs(a: Tree, u: Tree, target: Path, step: Step) {
    || (exists p :: NewEntry(a, u, target, p))
    || ((step.undo.Moved? || step.undo.ReplacedMove?) && !step.renamed && exists p :: Spoilt(a, u, step.source, p))
  }

  predicate NewEntry(a: Tree, u: Tree, target: Path, p: Path) { Entry(target, p) && p in u && p !in a }

  predicate Spoilt(a: Tree, u: Tree, s: Path, p: Path) { s <= p && p in a && (p in u ==> !SameItem(a[p], u[p])) }

  /** What undoing a step has come to. */
  ghost predicate Outcome(a: Tree, u: Tree, target: Path, step: Step, undoable: bool, ok: bool) {
    if undoable then ok && Alike(a, u) else Differs(a, u, target, step)
  }

  lemma UndoCreated(a: Tree, b: Tree, step: Step, target: Path, policy: ConflictPolicy, world: World,
                    t: Tree, x: Path, u: Tree, ok: bool)
    requires Closed(a) && Leads(a, b, step, target, policy) && step.undo.Created? && Alike(b, t) && ByShape(world)
    requires Executes(t, step.undo, !step.renamed, x, world, u, ok)
    ensures Outcome(a, u, target, step, Undoable(b, step.undo, !step.renamed, world), ok)
    ensures Undoable(b, step.undo, !step.renamed, world) && t == b ==> u == a
  {
    var d := step.undo.path;
    CreatedMeans(a, b, step, target, policy);
    hide Leads, Fits, Lands, WithCopy, Closed, Alike, ByShape, Without;
    CopyIsThere(a, a, b, step.source, d);
    WithoutCopy(a, a, b, step.source, d);
    ExistsAlike(b, t, d, world);
    WithoutAlike(b, t, d);
    CopyAbsent(a, a, b, step.source, d);
    if !Exists(b, d, world) { assert NewEntry(a, u, target, d); }
  }

  lemma CopyAbsent(a: Tree, m: Tree, b: Tree, s: Path, d: Path)
    requires WithCopy(a, m, b, s, d)
    ensures d !in m
  {
  }

  lemma UndoReplacedCopy(a: Tree, b: Tree, step: Step, target: Path, policy: ConflictPolicy, world: World,
                         t: Tree, x: Path, u: Tree, ok: bool)
    requires Closed(a) && Closed(b) && Leads(a, b, step, target, policy) && step.undo.ReplacedCopy? && Alike(b, t)
    requires Entry(target, x) && x !in t && Executes(t, step.undo, !step.renamed, x, world, u, ok)
    ensures Outcome(a, u, target, step, Undoable(b, step.undo, !step.renamed, world), ok)
    ensures t == b ==> u == a
  {
    var s, d, k := step.source, step.undo.destination, step.undo.backup;
    ReplacedCopyMeans(a, b, step, target, policy);
    AlikeAt(b, t, x);
    CopyRestores(a, b, target, s, d, k, x);
    hide Leads, Fits, Lands, WithCopy, Closed, Alike, CopyRestored;
    RestoredAlike(b, t, d, k, x);
    AlikeBack(a, u);
  }

  lemma CopyRestores(a: Tree, b: Tree, target: Path, s: Path, d: Path, k: Path, x: Path)
    requires Closed(a) && Closed(b) && IsDir(a, target) && IsDir(b, target) && s in a
    requires Entry(target, d) && Entry(target, k) && Entry(target, x) && d in a && k !in a && x !in b
    requires Apart(d, k) && Apart(k, d) && WithCopy(a, Renamed(a, d, k), b, s, d)
    ensures CopyRestored(b, d, k, x) == Some(a)
  {
    CopySetAside(a, b, target, s, d, k, x);
    CopyTakenAway(a, Renamed(b, d, x), target, s, d, k, x);
    hide Renamed, WithCopy, Without, CanRename, Apart, Closed, IsDir, Entry;
  }

  lemma RestoredAlike(a: Tree, b: Tree, d: Path, k: Path, x: Path)
    requires Alike(a, b)
    ensures AlikeResults(CopyRestored(a, d, k, x), CopyRestored(b, d, k, x))
  {
    hide Alike, Without, TryRename;
    AlikePaths(a, b, d);
    AlikePaths(a, b, k);
    TryRenameAlike(a, b, d, x);
    var u, v := TryRename(a, d, x), TryRename(b, d, x);
    if u.Some? {
      TryRenameAlike(u.value, v.value, k, d);
      var u', v' := TryRename(u.value, k, d), TryRename(v.value, k, d);
      if u'.Some? { WithoutAlike(u'.value, v'.value, x); }
    }
  }

  /** A move as a tree fact: relocating the moved item leads back. */
  lemma MovedMeans(a: Tree, b: Tree, step: Step, target: Path, policy: ConflictPolicy)
    requires Leads(a, b, step, target, policy) && step.undo.Moved?
    ensures var s, d := step.source, step.undo.destination;
            && step.undo == Moved(s, d) && s in a && s != [] && d !in a && Apart(s, d) && Entry(target, d)
            && (if step.renamed then b == Renamed(a, s, d) else exists c :: WithCopy(a, a, c, s, d) && b == Without(c, s))
  {
    hide Renamed, WithCopy, Without;
    DestinationIsEntry(target, step.source);
  }

  lemma MovedRelocates(a: Tree, b: Tree, step: Step, target: Path, policy: ConflictPolicy)
    requires Closed(a) && Leads(a, b, step, target, policy) && step.undo.Moved?
    ensures var s, d := step.source, step.undo.destination; var r := TryRename(b, d, s);
            && d in b && s !in b && r.Some? && Alike(a, r.value) && (step.renamed ==> r.value == a)
  {
    var s, d := step.source, step.undo.destination;
    MovedMeans(a, b, step, target, policy);
    hide Leads, Fits, Lands, Renamed, Closed, WithCopy, Alike, Without, TryRename;
    if step.renamed {
      RenamedMoveBack(a, s, d);
      SameAsAll(a);
    } else {
      var c :| WithCopy(a, a, c, s, d) && b == Without(c, s);
      CopiedMoveBack(a, a, c, s, d);
      AlikeBack(TryRename(b, d, s).value, a);
    }
  }

  lemma SameItemChain(l: Node, m: Node, n: Node)
    requires SameItem(l, m) && SameItem(m, n)
    ensures SameItem(l, n) && SameItem(n, l)
  {
  }

  /** Where the copy differs from what it was made of, it differs from what was moved away. */
  lemma SpoiltItem(a: Tree, t: Tree, r: Tree, u: Tree, s: Path, d: Path, rest: Path)
    requires Apart(s, d) && Alike(a, r) && r == Renamed(t, d, s)
    requires At(d, rest) in t && (At(s, rest) in u ==> !SameItem(t[At(d, rest)], u[At(s, rest)]))
    ensures Spoilt(a, u, s, At(s, rest))
  {
    hide Renamed;
    RenamedBelow(t, d, s, rest);
    AtSlice(s, rest);
    AlikeAt(a, r, At(s, rest));
    var p := At(s, rest);
    if p in u && SameItem(a[p], u[p]) {
      SameItemTurned(a[p], r[p]);
      SameItemChain(r[p], a[p], u[p]);
    }
  }

  lemma UndoMoved(a: Tree, b: Tree, step: Step, target: Path, policy: ConflictPolicy, world: World,
                  t: Tree, x: Path, u: Tree, ok: bool)
    requires Closed(a) && Closed(b) && Leads(a, b, step, target, policy) && step.undo.Moved? && Alike(b, t) && ByShape(world)
    requires Executes(t, step.undo, !step.renamed, x, world, u, ok)
    ensures Outcome(a, u, target, step, Undoable(b, step.undo, !step.renamed, world), ok)
    ensures Undoable(b, step.undo, !step.renamed, world) && t == b && step.renamed ==> u == a
  {
    hide Leads, Fits, Lands, Closed, Alike, ByShape, PlainTree, Exists, MoveBack, WithCopy, Renamed, Without, TryRename;
    var s, d, across := step.source, step.undo.destination, !step.renamed;
    MovedMeans(a, b, step, target, policy);
    MovedRelocates(a, b, step, target, policy);
    AlikeClosed(b, t);
    ExistsAlike(b, t, d, world);
    ExistsAlike(b, t, s, world);
    AlikePlain(b, t, d);
    TriedIsRenamed(t, d, s);
    AbsentNotThere(t, s, world);
    TryRenameAlike(b, t, d, s);
    AlikeTransitive(a, TryRename(b, d, s).value, TryRename(t, d, s).value);
    if Undoable(b, step.undo, across, world) {
      MoveBackAlike(t, u, s, d, across, world, ok);
      AlikeBack(u, Renamed(t, d, s));
      AlikeTransitive(a, Renamed(t, d, s), u);
    } else {
      MoveBackFails(a, t, u, s, d, across, target, world, ok);
    }
  }

  lemma AbsentNotThere(t: Tree, p: Path, world: World)
    ensures Exists(t, p, world) ==> p in t
  {
  }

  lemma MoveBackFails(a: Tree, t: Tree, u: Tree, s: Path, d: Path, across: bool, target: Path, world: World, ok: bool)
    requires MoveBack(t, u, s, d, across, world, ok) && s !in t && d in t && d !in a && Entry(target, d) && Apart(s, d)
    requires !Exists(t, d, world) || (across && !PlainTree(t, d))
    requires TryRename(t, d, s).Some? && Alike(a, TryRename(t, d, s).value)
    ensures NewEntry(a, u, target, d) || (across && exists p :: Spoilt(a, u, s, p))
  {
    hide PlainTree, BackCopy, Alike;
    if Exists(t, d, world) && ok {
      var c :| BackCopy(t, c, d, s) && u == Without(c, d);
      var rest := SpoiltBack(t, c, d, s);
      AtSlice(s, rest);
      ApartTrees(s, d, At(s, rest));
      WithoutKeeps(c, d, At(s, rest));
      SpoiltItem(a, t, Renamed(t, d, s), u, s, d, rest);
    }
  }

  // ---- Moves that replaced something

  /** A replacing move as a tree fact: relocating the item and then the backup leads back. */
  lemma ReplacedRelocates(a: Tree, b: Tree, step: Step, target: Path, policy: ConflictPolicy)
    requires Closed(a) && Leads(a, b, step, target, policy) && step.undo.ReplacedMove?
    requires !(step.undo.destination <= step.source)
    ensures var s, d, k := step.source, step.undo.destination, step.undo.backup; var r := TryRename(b, d, s);
            && d in b && k in b && s !in b && r.Some? && Alike(r.value, Renamed(a, d, k))
            && (step.renamed ==> r.value == Renamed(a, d, k))
  {
    var s, d, k := step.source, step.undo.destination, step.undo.backup;
    ReplacedMoveMeans(a, b, step, target, policy);
    hide Leads, Fits, Lands, Renamed, Closed, WithCopy, Alike, Without, TryRename, ReplacedThrough;
    if step.renamed {
      RenamedReplacementBack(a, b, target, s, step.stage, d, k);
      SameAsAll(Renamed(a, d, k));
    } else {
      var c :| WithCopy(a, Renamed(a, d, k), c, s, d) && b == Without(c, s);
      CopiedReplacementBack(a, c, target, s, d, k);
    }
  }

  /** The item and the backup are there after a replacing move, wherever its source was. */
  lemma ReplacedThere(a: Tree, b: Tree, step: Step, target: Path, policy: ConflictPolicy)
    requires Closed(a) && Leads(a, b, step, target, policy) && step.undo.ReplacedMove?
    ensures step.undo.destination in b && step.undo.backup in b && step.undo.backup !in a
  {
    var s, d, k := step.source, step.undo.destination, step.undo.backup;
    ReplacedMoveMeans(a, b, step, target, policy);
    hide Leads, Fits, Lands, WithCopy, Without;
    if step.renamed {
      ThroughThere(a, b, target, s, step.stage, d, k);
    } else {
      var c :| WithCopy(a, Renamed(a, d, k), c, s, d) && b == Without(c, s);
      EntryRenamed(a, target, d, k);
      CopyIsThere(a, Renamed(a, d, k), c, s, d);
      CopyKeeps(a, Renamed(a, d, k), c, s, d, target, k);
      WithoutKeeps(c, s, d);
      WithoutKeeps(c, s, k);
    }
  }

  lemma ThroughThere(a: Tree, b: Tree, target: Path, s: Path, g: Path, d: Path, k: Path)
    requires ReplacedThrough(a, b, s, g, d, k) && s in a && d in a && !(s <= d)
    requires Entry(target, g) && Entry(target, d) && Entry(target, k)
    ensures d in b && k in b
  {
    hide Renamed;
    var t1 := Renamed(a, s, g);
    var t2 := Renamed(t1, d, k);
    AtNone(g);
    AtNone(s);
    AtNone(d);
    AtNone(k);
    RenamedBelow(a, s, g, []);
    RenamedBeside(t1, d, k, g);
    RenamedBelow(t2, g, d, []);
    RenamedBeside(a, s, g, d);
    RenamedBelow(t1, d, k, []);
    RenamedBeside(t2, g, d, k);
  }

  /** Nothing is moved into what it is to come out of. */
  lemma MovedInside(t: Tree, m: Tree, d: Path, s: Path, across: bool, world: World, ok: bool)
    requires MovedExactly(t, m, d, s, across, world, ok) && Closed(t) && d <= s && d in t
    ensures m == t && !ok
  {
    CannotMoveInside(t, d, s);
    if CanCreate(t, s) {
      assert d <= s && d != s ==> d <= Parent(s);
      NothingBelowAbsent(t, d, Parent(s));
    }
  }

  lemma UndoReplacedMove(a: Tree, b: Tree, step: Step, target: Path, policy: ConflictPolicy, world: World,
                         t: Tree, x: Path, u: Tree, ok: bool)
    requires Closed(a) && Closed(b) && Leads(a, b, step, target, policy) && step.undo.ReplacedMove? && Alike(b, t)
    requires Executes(t, step.undo, !step.renamed, x, world, u, ok)
    ensures Outcome(a, u, target, step, Undoable(b, step.undo, !step.renamed, world), ok)
    ensures Undoable(b, step.undo, !step.renamed, world) && t == b && step.renamed ==> u == a
  {
    var s, d, k, across := step.source, step.undo.destination, step.undo.backup, !step.renamed;
    ReplacedMoveMeans(a, b, step, target, policy);
    ReplacedThere(a, b, step, target, policy);
    AlikeClosed(b, t);
    AlikeAt(b, t, s);
    AlikeAt(b, t, d);
    AlikeAt(b, t, k);
    if s in t {
      hide Leads, Fits, Lands, Closed, Alike;
      if !(d <= s) { ReplacedRelocates(a, b, step, target, policy); }
      assert NewEntry(a, u, target, k);
    } else {
      var m, moved :| MovedExactly(t, m, d, s, across, world, moved) && PutBackAfter(m, moved, u, s, d, k, across, world, ok);
      if d <= s {
        MovedInside(t, m, d, s, across, world, moved);
        assert NewEntry(a, u, target, k);
      } else {
        ReplacedRelocates(a, b, step, target, policy);
        hide Leads, Fits, Lands, Closed, Alike, MovedExactly, PutBackAfter;
        ReplacedMoveUndone(a, b, target, s, d, k, across, world, t, m, moved, u, ok);
      }
    }
  }

  lemma ReplacedMoveUndone(a: Tree, b: Tree, target: Path, s: Path, d: Path, k: Path, across: bool, world: World,
                           t: Tree, m: Tree, moved: bool, u: Tree, ok: bool)
    requires Closed(a) && Closed(t) && IsDir(a, target) && s in a && Entry(target, d) && Entry(target, k)
    requires d in a && k !in a && Apart(d, k) && Apart(s, k) && Apart(s, d) && s !in t && d in t && k in t
    requires d in b && Alike(b, t) && TryRename(b, d, s).Some? && Alike(TryRename(b, d, s).value, Renamed(a, d, k))
    requires !across ==> TryRename(b, d, s).value == Renamed(a, d, k)
    requires MovedExactly(t, m, d, s, across, world, moved) && PutBackAfter(m, moved, u, s, d, k, across, world, ok)
    ensures if across ==> b[d].File? || (b[d].Link? && world.keepsLinks)
            then ok && Alike(a, u) && (t == b && !across ==> u == a)
            else NewEntry(a, u, target, k) || exists p :: Spoilt(a, u, s, p)
  {
    var r := Renamed(a, d, k);
    AlikeAt(b, t, d);
    hide Closed, Alike, Renamed, TryRename, Apart;
    TryRenameAlike(b, t, d, s);
    var back := TryRename(t, d, s).value;
    AlikeBack(TryRename(b, d, s).value, back);
    AlikeTransitive(back, TryRename(b, d, s).value, r);
    TriedIsRenamed(t, d, s);
    if across ==> b[d].File? || (b[d].Link? && world.keepsLinks) {
      MovedExactlyAlike(t, m, d, s, across, world, moved);
      AlikeTransitive(m, back, r);
      PutBackAlike(a, m, target, d, k);
      PutBack(a, target, d, k);
      AlikeBack(u, a);
    } else {
      ReplacedMoveSpoilt(a, target, s, d, k, world, t, m, moved, u, ok);
    }
  }

  lemma TriedIsRenamed(t: Tree, from: Path, to: Path)
    ensures TryRename(t, from, to).Some? ==> Apart(from, to) && TryRename(t, from, to).value == Renamed(t, from, to)
  {
  }

  lemma ReplacedMoveSpoilt(a: Tree, target: Path, s: Path, d: Path, k: Path, world: World,
                           t: Tree, m: Tree, moved: bool, u: Tree, ok: bool)
    requires Closed(a) && Closed(t) && IsDir(a, target) && s in a && Entry(target, d) && Entry(target, k)
    requires d in a && k !in a && Apart(d, k) && Apart(s, k) && Apart(s, d) && s !in t && d in t && k in t
    requires TryRename(t, d, s).Some? && Alike(TryRename(t, d, s).value, Renamed(a, d, k))
    requires !(t[d].File? || (t[d].Link? && world.keepsLinks))
    requires MovedExactly(t, m, d, s, true, world, moved) && PutBackAfter(m, moved, u, s, d, k, true, world, ok)
    ensures NewEntry(a, u, target, k) || exists p :: Spoilt(a, u, s, p)
  {
    hide Renamed, Alike, Closed, TryRename;
    TriedIsRenamed(t, d, s);
    if moved {
      var n :| m == Without(t, d)[s := n] && n.File?;
      RelocatedTarget(a, target, s, d, k, t);
      WithoutKeeps(t, d, target);
      WithoutKeeps(t, d, k);
      WithoutKeeps(t, d, d);
      EntryRename(m, target, k, d);
      CanTry(m, k, d);
      RenamedBeside(m, k, d, s);
      RelocatedLink(a, t, s, d, k);
      assert Spoilt(a, u, s, s);
    }
  }

  lemma CanTry(t: Tree, from: Path, to: Path)
    requires CanRename(t, from, to) && Apart(from, to)
    ensures TryRename(t, from, to) == Some(Renamed(t, from, to))
  {
  }

  lemma RelocatedTarget(a: Tree, target: Path, s: Path, d: Path, k: Path, t: Tree)
    requires IsDir(a, target) && Entry(target, d) && Entry(target, k) && Apart(d, k) && Apart(s, d)
    requires Alike(Renamed(t, d, s), Renamed(a, d, k))
    ensures IsDir(t, target) && !(s <= target) && !(d <= target)
  {
    hide Renamed, Alike;
    assert target <= d && (s <= target ==> s <= d);
    AlikeAt(Renamed(t, d, s), Renamed(a, d, k), target);
    RenamedBeside(a, d, k, target);
    RenamedBeside(t, d, s, target);
  }

  lemma RelocatedLink(a: Tree, t: Tree, s: Path, d: Path, k: Path)
    requires Apart(d, k) && Apart(s, k) && Apart(s, d) && d in t && Alike(Renamed(t, d, s), Renamed(a, d, k))
    ensures s in a && (a[s].Link? <==> t[d].Link?)
  {
    hide Renamed, Alike;
    AtNone(s);
    AtNone(d);
    RenamedBelow(t, d, s, []);
    RenamedBeside(a, d, k, s);
    AlikeAt(Renamed(t, d, s), Renamed(a, d, k), s);
  }

  /** The step renamed, or left its source in place: no inode has changed. */
  predicate KeepsInode(step: Step) { step.renamed || step.undo.Created? || step.undo.ReplacedCopy? }

  /** Every way of executing a logged step, from a tree like that after it, leads to a tree like that before it
      when the step is undoable, and leaves a difference behind when it is not. */
  lemma UndoStep(a: Tree, b: Tree, step: Step, target: Path, policy: ConflictPolicy, world: World,
                 t: Tree, x: Path, u: Tree, ok: bool)
    requires Closed(a) && Closed(b) && Leads(a, b, step, target, policy) && Alike(b, t) && ByShape(world)
    requires Entry(target, x) && x !in t && Executes(t, step.undo, !step.renamed, x, world, u, ok)
    ensures Outcome(a, u, target, step, Undoable(b, step.undo, !step.renamed, world), ok)
    ensures Alike(a, u) <==> Undoable(b, step.undo, !step.renamed, world)
    ensures Undoable(b, step.undo, !step.renamed, world) && t == b && KeepsInode(step) ==> u == a
  {
    hide Leads, Closed, Alike, ByShape, Executes, Undoable, Differs;
    match step.undo {
      case Created(p) => UndoCreated(a, b, step, target, policy, world, t, x, u, ok);
      case Moved(s, d) => UndoMoved(a, b, step, target, policy, world, t, x, u, ok);
      case ReplacedCopy(d, k) => UndoReplacedCopy(a, b, step, target, policy, world, t, x, u, ok);
      case ReplacedMove(s, d, k) => UndoReplacedMove(a, b, step, target, policy, world, t, x, u, ok);
    }
    if Differs(a, u, target, step) { DiffersIsNotAlike(a, u, target, step); }
  }

  lemma DiffersIsNotAlike(a: Tree, u: Tree, target: Path, step: Step)
    requires Differs(a, u, target, step)
    ensures !Alike(a, u)
  {
    if p :| NewEntry(a, u, target, p) {
      NotAlike(u, a, p);
      if Alike(a, u) { AlikeBack(a, u); }
    } else {
      var p :| Spoilt(a, u, step.source, p);
      if Alike(a, u) { AlikeAt(a, u, p); }
    }
  }

  // ---- What undoing does not touch

  predicate BesidePaths(undo: TransferUndo, x: Path, q: Path) {
    match undo
    case Created(p) => !(p <= q)
    case Moved(s, d) => !(s <= q) && !(d <= q)
    case ReplacedCopy(d, k) => !(d <= q) && !(k <= q) && !(x <= q)
    case ReplacedMove(s, d, k) => !(s <= q) && !(d <= q) && !(k <= q)
  }

  lemma TryRenameBeside(t: Tree, from: Path, to: Path, q: Path)
    requires !(from <= q) && !(to <= q)
    ensures var r := TryRename(t, from, to); r.Some? ==> SameAt(t, r.value, q)
  {
    hide Renamed;
    if CanRename(t, from, to) && Apart(from, to) { RenamedBeside(t, from, to, q); }
  }

  lemma MovedExactlyBeside(t: Tree, u: Tree, from: Path, to: Path, across: bool, world: World, ok: bool, q: Path)
    requires MovedExactly(t, u, from, to, across, world, ok) && !(from <= q) && !(to <= q)
    ensures SameAt(t, u, q)
  {
    hide TryRename;
    TryRenameBeside(t, from, to, q);
    assert q != to;
    if u != t && !(!across && TryRename(t, from, to).Some?) {
      var n :| u == Without(t, from)[to := n];
      WithoutKeeps(t, from, q);
    }
  }

  lemma MoveBackBeside(t: Tree, u: Tree, s: Path, d: Path, across: bool, world: World, ok: bool, q: Path)
    requires MoveBack(t, u, s, d, across, world, ok) && !(s <= q) && !(d <= q)
    ensures SameAt(t, u, q)
  {
    hide TryRename, Exists, BackCopied, NoLinks, CanCreate;
    TryRenameBeside(t, d, s, q);
  }

  lemma RestoredBeside(t: Tree, d: Path, k: Path, x: Path, q: Path)
    requires !(d <= q) && !(k <= q) && !(x <= q)
    ensures var r := CopyRestored(t, d, k, x); r.Some? ==> SameAt(t, r.value, q)
  {
    hide TryRename;
    TryRenameBeside(t, d, x, q);
    var aside := TryRename(t, d, x);
    if aside.Some? { TryRenameBeside(aside.value, k, d, q); }
  }

  /** Executing a step, whatever comes of it, leaves everything beside its paths. */
  lemma ExecutesBeside(t: Tree, undo: TransferUndo, across: bool, x: Path, world: World, u: Tree, ok: bool, q: Path)
    requires Executes(t, undo, across, x, world, u, ok) && BesidePaths(undo, x, q)
    ensures SameAt(t, u, q)
  {
    hide TryRename, Exists, MoveBack, MovedExactly, CopyRestored;
    match undo
    case Created(p) =>
      assert SameAt(t, u, q);
    case Moved(s, d) =>
      MoveBackBeside(t, u, s, d, across, world, ok, q);
    case ReplacedCopy(d, k) =>
      RestoredBeside(t, d, k, x, q);
      assert SameAt(t, u, q);
    case ReplacedMove(s, d, k) =>
      if !(s in t || d !in t || k !in t) {
        var m, moved :| MovedExactly(t, m, d, s, across, world, moved) && PutBackAfter(m, moved, u, s, d, k, across, world, ok);
        MovedExactlyBeside(t, m, d, s, across, world, moved, q);
        TryRenameBeside(m, k, d, q);
        if moved && TryRename(m, k, d).None? {
          var back :| MovedExactly(m, u, s, d, across, world, back);
          MovedExactlyBeside(m, u, s, d, across, world, back, q);
        }
        assert SameAt(m, u, q);
      }
  }

  // ---- What the conditions mean before the step, and why they are needed

  /** Whether a move by copying can be undone shows on the source before the move. */
  lemma PlainBefore(a: Tree, b: Tree, step: Step, target: Path, policy: ConflictPolicy)
    requires Closed(a) && Leads(a, b, step, target, policy) && step.undo.Moved?
    ensures PlainTree(b, step.undo.destination) <==> PlainTree(a, step.source)
  {
    var s, d := step.source, step.undo.destination;
    MovedMeans(a, b, step, target, policy);
    MovedRelocates(a, b, step, target, policy);
    TriedIsRenamed(b, d, s);
    hide Leads, Fits, Lands, Closed, WithCopy, Alike, TryRename, Renamed;
    AlikePlain(a, Renamed(b, d, s), s);
    PlainRenamed(b, d, s);
  }

  lemma PlainRenamed(t: Tree, d: Path, s: Path)
    requires Apart(d, s)
    ensures PlainTree(t, d) <==> PlainTree(Renamed(t, d, s), s)
  {
    hide Renamed;
    var r := Renamed(t, d, s);
    forall q | d <= q ensures q in t ==> At(s, q[|d|..]) in r && s <= At(s, q[|d|..]) && r[At(s, q[|d|..])] == t[q] {
      Split(d, q);
      RenamedBelow(t, d, s, q[|d|..]);
      AtSlice(s, q[|d|..]);
    }
    forall q | s <= q ensures q in r ==> At(d, q[|s|..]) in t && d <= At(d, q[|s|..]) && t[At(d, q[|s|..])] == r[q] {
      Split(s, q);
      RenamedBelow(t, d, s, q[|s|..]);
      AtSlice(d, q[|s|..]);
    }
  }

  /** A link anywhere in a folder that was moved across devices, or a folder mode other than the usual one, is not
      brought back by undoing the move. */
  lemma MovedLinkIsLost(a: Tree, b: Tree, step: Step, target: Path, policy: ConflictPolicy, world: World,
                        x: Path, u: Tree, ok: bool, p: Path)
    requires Closed(a) && Closed(b) && Leads(a, b, step, target, policy) && step.undo.Moved? && !step.renamed
    requires step.source <= p && p in a && (a[p].Link? || (a[p].Dir? && a[p].mode != NEW_DIR_MODE)) && ByShape(world)
    requires Entry(target, x) && x !in b && Executes(b, step.undo, true, x, world, u, ok)
    ensures !Alike(a, u)
  {
    PlainBefore(a, b, step, target, policy);
    assert !PlainTree(a, step.source);
    SameAsAll(b);
    hide Leads, Closed, Executes, ByShape, Alike, PlainTree, Outcome;
    UndoStep(a, b, step, target, policy, world, b, x, u, ok);
  }

  /** A link that leads nowhere stays where it was created or moved to, whether the step says that it went well or
      not. */
  lemma LinkToNowhereStays(t: Tree, undo: TransferUndo, across: bool, x: Path, world: World, u: Tree, ok: bool, p: Path)
    requires undo == Created(p) || (undo.Moved? && undo.destination == p)
    requires p in t && t[p].Link? && world.leadsTo(t, p).None? && Executes(t, undo, across, x, world, u, ok)
    ensures u == t && p in u && (ok <==> undo.Created?)
  {
  }

  /** When the removal of a moved source fails, the log calls the copy created, or the item below it replaced by a
      copy. Undoing that restores the tree exactly when the removal had taken nothing; what it had taken is gone
      with the copy. */
  lemma UndoAfterFailedRemoval(a: Tree, c: Tree, b: Tree, s: Path, d: Path, x: Path, world: World, u: Tree, ok: bool)
    requires Closed(a) && WithCopy(a, a, c, s, d) && Apart(s, d) && Exists(b, d, world) && LessBelow(c, b, s)
    requires Executes(b, Created(d), true, x, world, u, ok)
    ensures u == a <==> b == c
  {
    WithoutCopy(a, a, c, s, d);
    if b != c {
      LostBelow(c, b, s);
      var q :| q in c && q !in b && s <= q;
      ApartTrees(s, d, q);
      WithoutKeeps(c, d, q);
      WithoutKeeps(b, d, q);
    }
  }

  lemma LostBelow(t: Tree, u: Tree, s: Path)
    requires LessBelow(t, u, s) && t != u
    ensures exists q :: q in t && q !in u && s <= q
  {
    if forall q | q in t :: q in u { SameTree(t, u); }
  }

  /** The same when an item was replaced. A source that came from inside the replaced item is not lost: it is whole
      in the backup. */
  lemma UndoAfterFailedReplacement(a: Tree, c: Tree, b: Tree, target: Path, s: Path, d: Path, k: Path, x: Path,
                                   world: World, u: Tree, ok: bool)
    requires Closed(a) && Closed(c) && IsDir(a, target) && IsDir(c, target) && s in a && !(s <= target) && !Entry(target, s)
    requires Entry(target, d) && Entry(target, k) && Entry(target, x) && d in a && k !in a && x !in c && Apart(d, k)
    requires WithCopy(a, Renamed(a, d, k), c, s, d) && LessBelow(c, b, s)
    requires Executes(b, ReplacedCopy(d, k), true, x, world, u, ok)
    ensures if d <= s then u == a else u == a <==> b == c
  {
    hide Closed, WithCopy, Renamed, Without, CopyRestored, LessBelow, Beside;
    assert Apart(k, d);
    SourceBeside(target, s, d);
    SourceBeside(target, s, k);
    SourceBeside(target, s, x);
    CopyBackupThere(a, c, target, s, d, k);
    CopyBesides(a, Renamed(a, d, k), c, s, d);
    if d <= s {
      LessIsBeside(Renamed(a, d, k), c, b, d, s);
      LessKeeps(c, b, s, d);
      LessKeeps(c, b, s, x);
      ReplacedAgain(a, b, target, d, k, x);
    } else {
      SourceKept(a, c, s, d, k);
      AbsentBelow(c, x);
      CopyRestores(a, c, target, s, d, k, x);
      if b != c {
        LostBelow(c, b, s);
        var q :| q in c && q !in b && s <= q;
        ApartTrees(s, d, q);
        ApartTrees(s, k, q);
        ApartTrees(s, x, q);
        RestoredBeside(b, d, k, x, q);
        RestoredBeside(c, d, k, x, q);
      }
    }
  }

  lemma LessIsBeside(m: Tree, t: Tree, u: Tree, d: Path, s: Path)
    requires Beside(m, t, d) && LessBelow(t, u, s) && d <= s
    ensures Beside(m, u, d)
  {
  }

  lemma LessKeeps(t: Tree, u: Tree, s: Path, q: Path)
    requires LessBelow(t, u, s) && !(s <= q)
    ensures q in u <==> q in t
  {
  }

  lemma SourceKept(a: Tree, c: Tree, s: Path, d: Path, k: Path)
    requires Closed(a) && s in a && k !in a && Apart(d, k) && Beside(Renamed(a, d, k), c, d) && !(d <= s)
    ensures s in c && !(k <= s)
  {
    hide Renamed;
    AbsentBelow(a, k);
    RenamedBeside(a, d, k, s);
  }

  /** Why sources inside the target directory are special: what undoing a move across devices has spoilt is
      hidden when the item was taken out of a copy that is itself taken away afterwards. */
  lemma HiddenByReplacement(a: Tree, b: Tree, c: Tree, first: Step, second: Step, target: Path, policy: ConflictPolicy,
                            world: World, u: Tree, y: Path, v: Tree, ok: bool)
    requires Closed(a) && Closed(b) && Closed(c) && Leads(a, b, first, target, policy) && Leads(b, c, second, target, policy)
    requires first.undo.ReplacedCopy? && second.undo.Moved? && !second.renamed
    requires first.undo.destination <= second.source
    requires Executes(c, second.undo, true, y, world, u, true)
    requires Entry(target, y) && y !in u && Executes(u, first.undo, true, y, world, v, ok)
    ensures ok && v == a
  {
    var d, k, s, d2 := first.undo.destination, first.undo.backup, second.source, second.undo.destination;
    ReplacedCopyMeans(a, b, first, target, policy);
    MovedMeans(b, c, second, target, policy);
    hide Leads, Fits, Lands, Closed, WithCopy, Renamed, Beside, Executes, FellBack;
    CopyBackupThere(a, b, target, first.source, d, k);
    MovedAndBack(b, c, u, s, d2, d, world);
    CopyBesides(a, Renamed(a, d, k), b, first.source, d);
    BesideWidened(Renamed(a, d, k), b, u, d, s);
    ReplacedAgain(a, u, target, d, k, y);
    ReplacedCopyExecuted(u, d, k, y, world, v, ok);
  }

  lemma ReplacedCopyExecuted(t: Tree, d: Path, k: Path, x: Path, world: World, u: Tree, ok: bool)
    requires Executes(t, ReplacedCopy(d, k), true, x, world, u, ok) && CopyRestored(t, d, k, x).Some?
    ensures ok && u == CopyRestored(t, d, k, x).value
  {
  }

  lemma CopyBesides(a: Tree, m: Tree, b: Tree, s: Path, d: Path)
    requires WithCopy(a, m, b, s, d)
    ensures Beside(m, b, d)
  {
  }

  /** A move by copying and its undoing change nothing but what was moved. */
  lemma MovedAndBack(b: Tree, c: Tree, u: Tree, s: Path, d2: Path, p: Path, world: World)
    requires Closed(b) && exists c0 :: WithCopy(b, b, c0, s, d2) && c == Without(c0, s)
    requires MoveBack(c, u, s, d2, true, world, true) && Apart(s, d2) && p in b && p <= s && !(d2 <= p)
    ensures Beside(b, u, s) && p in u
  {
    hide Copied, BackCopied, SharesAlike, NoLinks, At;
    AbsentBelow(b, d2);
    var c' :| BackCopy(c, c', d2, s) && u == Without(c', d2);
    assert Beside(b, u, s);
    if p == s {
      CopiedBackIsThere(c, c', d2, s);
    }
  }

  lemma CopiedBackIsThere(t: Tree, c: Tree, d: Path, s: Path)
    requires BackCopied(t, c, d, s, []) && d in t
    ensures s in c
  {
    AtNone(s);
    AtNone(d);
    assert !UnderLink(t, d, []);
    assert BackMirrors(t, c, d, s, []);
  }

  lemma BesideWidened(m: Tree, b: Tree, u: Tree, d: Path, s: Path)
    requires Beside(m, b, d) && Beside(b, u, s) && d <= s
    ensures Beside(m, u, d)
  {
  }

  /** The replaced item is put back whatever is at its place, and that is taken away. */
  lemma ReplacedAgain(a: Tree, u: Tree, target: Path, d: Path, k: Path, y: Path)
    requires Closed(a) && IsDir(a, target) && Entry(target, d) && Entry(target, k) && Entry(target, y)
    requires d in a && k !in a && Apart(d, k) && Beside(Renamed(a, d, k), u, d) && d in u && y !in u
    ensures CopyRestored(u, d, k, y) == Some(a)
  {
    SiblingsApart(d, y);
    var m, u1 := Renamed(a, d, k), Renamed(u, d, y);
    hide Renamed, Closed, Beside, CanRename;
    EntryRenamed(a, target, d, k);
    BesideSame(m, u, d, k);
    SiblingsApart(k, y);
    BesideSame(m, u, d, y);
    BesideSame(m, u, d, target);
    EntryRename(u, target, d, y);
    SetAsideBeside(m, u, d, y);
    SetAsideKept(u, target, d, k, y);
    SwappedAgain(a, u1, target, d, k, y);
  }

  lemma SwappedAgain(a: Tree, t: Tree, target: Path, d: Path, k: Path, y: Path)
    requires Closed(a) && IsDir(t, target) && Entry(target, d) && Entry(target, k)
    requires Apart(d, k) && Apart(d, y) && Apart(k, y) && y !in Renamed(a, d, k)
    requires Beside(Renamed(a, d, k), t, y) && k in t && d !in t
    ensures var r := TryRename(t, k, d); r.Some? && Without(r.value, y) == a
  {
    hide Renamed, Closed, Beside, CanRename, Without;
    EntryRename(t, target, k, d);
    BesideRenamed(Renamed(a, d, k), t, y, k, d);
    RenamedBack(a, d, k);
    RenamedBeside(a, d, k, y);
    BesideTaken(a, Renamed(t, k, d), y);
  }

  lemma SetAsideKept(u: Tree, target: Path, d: Path, k: Path, y: Path)
    requires IsDir(u, target) && Entry(target, d) && Entry(target, y) && y !in u && Apart(d, y) && Apart(k, y) && Apart(d, k)
    ensures var u1 := Renamed(u, d, y); IsDir(u1, target) && d !in u1 && (k in u1 <==> k in u)
  {
    hide Renamed;
    RenamedBeside(u, d, y, target);
    RenamedBeside(u, d, y, k);
    RenamedBelow(u, d, y, []);
    AtNone(d);
    AtNone(y);
  }

  lemma BesideSame(m: Tree, u: Tree, d: Path, q: Path)
    requires Beside(m, u, d) && !(d <= q)
    ensures SameAt(m, u, q)
  {
  }

  lemma SetAsideBeside(m: Tree, u: Tree, d: Path, y: Path)
    requires Closed(m) && Beside(m, u, d) && Apart(d, y) && d !in m && y !in m
    ensures Beside(m, Renamed(u, d, y), y)
  {
    hide Renamed, Closed;
    var u1 := Renamed(u, d, y);
    AbsentBelow(m, d);
    AbsentBelow(m, y);
    forall q | !(y <= q) && (q in m || q in u1) ensures q in m && q in u1 && u1[q] == m[q] {
      if d <= q {
        Split(d, q);
        RenamedBelow(u, d, y, q[|d|..]);
        AtSlice(y, q[|d|..]);
        ApartTrees(d, y, At(y, q[|d|..]));
      } else {
        RenamedBeside(u, d, y, q);
      }
    }
  }

  lemma BesideTaken(a: Tree, u: Tree, y: Path)
    requires Closed(a) && Beside(a, u, y) && y !in a
    ensures Without(u, y) == a
  {
    AbsentBelow(a, y);
    SameTree(Without(u, y), a);
  }
}

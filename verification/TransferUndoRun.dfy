/** Undoing a whole transfer, last step first, going on after errors. */
module TransferUndoRun {
  import opened Basics
  import opened Paths
  import opened TransferTree
  import opened TransferDisk
  import opened TransferCopy
  import opened TransferSteps
  import opened TransferCommit
  import opened Transfer
  import opened TransferUndoTrees
  import opened TransferUndoCopy
  import opened TransferUndoSteps

  /** A log with the chain of states that it belongs to. */
  ghost predicate Logs(states: seq<Tree>, steps: seq<Step>, undo: seq<TransferUndo>, target: Path, policy: ConflictPolicy) {
    && Chain(states, steps, target, policy) && |undo| == |steps|
    && (forall i | 0 <= i < |steps| :: undo[i] == steps[i].undo)
  }

  /** One undoing of the log: `run[i]` is the tree when all from step i on have been executed, so that it starts
      at the end of `run`. A step that ends in an error is passed over. */
  ghost predicate UndoRun(run: seq<Tree>, oks: seq<bool>, steps: seq<Step>, undo: seq<TransferUndo>, displaced: seq<Path>,
                          target: Path, world: World)
  {
    && |run| == |undo| + 1 && |oks| == |displaced| == |steps| == |undo|
    && (forall i {:trigger undo[i]} | 0 <= i < |undo| ::
          Executes(run[i + 1], undo[i], !steps[i].renamed, displaced[i], world, run[i], oks[i]))
    && (forall i | 0 <= i < |displaced| :: Entry(target, displaced[i]) && displaced[i] !in run[i + 1])
  }

  ghost predicate AllUndoable(states: seq<Tree>, steps: seq<Step>, undo: seq<TransferUndo>, world: World, from: nat)
    requires |states| == |undo| + 1 && |steps| == |undo|
  {
    forall i {:trigger undo[i]} | from <= i < |undo| :: Undoable(states[i + 1], undo[i], !steps[i].renamed, world)
  }

  /** No item that was moved by copying came from inside the target directory. */
  predicate CopiedFromOutside(steps: seq<Step>, target: Path) {
    forall i | 0 <= i < |steps| ::
      (steps[i].undo.Moved? || steps[i].undo.ReplacedMove?) && !steps[i].renamed ==> !(target <= steps[i].source)
  }

  predicate KeepsInodes(steps: seq<Step>) {
    forall i | 0 <= i < |steps| :: KeepsInode(steps[i])
  }

  /** Step i of the log and of its undoing. */
  lemma LogStep(states: seq<Tree>, steps: seq<Step>, undo: seq<TransferUndo>, run: seq<Tree>, oks: seq<bool>,
                displaced: seq<Path>, target: Path, policy: ConflictPolicy, world: World, i: nat)
    requires Logs(states, steps, undo, target, policy) && UndoRun(run, oks, steps, undo, displaced, target, world) && i < |undo|
    ensures |states| == |run| == |undo| + 1 && |steps| == |displaced| == |oks| == |undo|
    ensures Closed(states[i]) && Closed(states[i + 1]) && Leads(states[i], states[i + 1], steps[i], target, policy)
    ensures Executes(run[i + 1], steps[i].undo, !steps[i].renamed, displaced[i], world, run[i], oks[i])
    ensures undo[i] == steps[i].undo && Entry(target, displaced[i]) && displaced[i] !in run[i + 1]
  {
    hide Leads, Closed, Entry, Executes;
    assert steps[i] == steps[i] && undo[i] == undo[i];
  }

  lemma UndoRunStep(states: seq<Tree>, steps: seq<Step>, undo: seq<TransferUndo>, run: seq<Tree>, oks: seq<bool>,
                    displaced: seq<Path>, target: Path, policy: ConflictPolicy, world: World, i: nat)
    requires Logs(states, steps, undo, target, policy) && UndoRun(run, oks, steps, undo, displaced, target, world) && i < |undo|
    requires |states| == |run| == |undo| + 1 && |steps| == |undo| && Alike(states[i + 1], run[i + 1]) && ByShape(world)
    ensures Alike(states[i], run[i]) <==> Undoable(states[i + 1], undo[i], !steps[i].renamed, world)
    ensures |oks| == |undo| && (Undoable(states[i + 1], undo[i], !steps[i].renamed, world) ==> oks[i])
    ensures !Undoable(states[i + 1], undo[i], !steps[i].renamed, world) ==> Differs(states[i], run[i], target, steps[i])
    ensures Undoable(states[i + 1], undo[i], !steps[i].renamed, world) && states[i + 1] == run[i + 1] && KeepsInodes(steps) ==>
              run[i] == states[i]
  {
    LogStep(states, steps, undo, run, oks, displaced, target, policy, world, i);
    hide Logs, UndoRun, Leads, Closed, Entry, Executes, Undoable, Alike, ByShape, Differs;
    UndoStep(states[i], states[i + 1], steps[i], target, policy, world, run[i + 1], displaced[i], run[i], oks[i]);
  }

  lemma LogLengths(run: seq<Tree>, oks: seq<bool>, steps: seq<Step>, undo: seq<TransferUndo>, displaced: seq<Path>,
                   target: Path, world: World)
    requires UndoRun(run, oks, steps, undo, displaced, target, world)
    ensures |run| == |undo| + 1 && |oks| == |displaced| == |steps| == |undo|
  {
  }

  /** While the steps are undoable the trees of the undoing are those of the run. */
  lemma {:induction false} UndoBack(states: seq<Tree>, steps: seq<Step>, undo: seq<TransferUndo>, run: seq<Tree>,
                                    oks: seq<bool>, displaced: seq<Path>, target: Path, policy: ConflictPolicy,
                                    world: World, i: nat)
    requires Logs(states, steps, undo, target, policy) && UndoRun(run, oks, steps, undo, displaced, target, world)
    requires |states| == |run| == |undo| + 1 && |steps| == |undo| && i <= |undo| && ByShape(world)
    requires Alike(states[|undo|], run[|undo|]) && AllUndoable(states, steps, undo, world, i)
    ensures Alike(states[i], run[i]) && |oks| == |undo| && (forall j | i <= j < |undo| :: oks[j])
    ensures run[|undo|] == states[|undo|] && KeepsInodes(steps) ==> run[i] == states[i]
    decreases |undo| - i
  {
    hide Logs, UndoRun, Undoable, Alike, ByShape, KeepsInodes;
    if i == |undo| {
      LogLengths(run, oks, steps, undo, displaced, target, world);
    } else {
      assert undo[i] == undo[i];
      UndoBack(states, steps, undo, run, oks, displaced, target, policy, world, i + 1);
      UndoRunStep(states, steps, undo, run, oks, displaced, target, policy, world, i);
    }
  }

  // ---- What stays behind when a step cannot be undone

  /** A difference that no earlier step hides: an entry of the target that should not be there, or outside the
      target something other than there was. */
  predicate Lasting(a: Tree, u: Tree, target: Path, p: Path) {
    || NewEntry(a, u, target, p)
    || (!(target <= p) && p in a && (p in u ==> !SameItem(a[p], u[p])))
  }

  lemma DiffersIsLasting(a: Tree, u: Tree, target: Path, step: Step)
    requires Differs(a, u, target, step) && !(step.source <= target)
    requires (step.undo.Moved? || step.undo.ReplacedMove?) && !step.renamed ==> !(target <= step.source)
    ensures exists p :: Lasting(a, u, target, p)
  {
    if p :| NewEntry(a, u, target, p) {
      assert Lasting(a, u, target, p);
    } else {
      var p :| Spoilt(a, u, step.source, p);
      if target <= p { PrefixesCompare(target, step.source, p); }
      assert Lasting(a, u, target, p);
    }
  }

  /** The entries of the target directory only become more. */
  lemma EntriesGrow(a: Tree, b: Tree, step: Step, target: Path, policy: ConflictPolicy, p: Path)
    requires Closed(a) && Leads(a, b, step, target, policy) && Entry(target, p) && p in a
    ensures p in b
  {
    var s := step.source;
    DestinationIsEntry(target, s);
    SourceBeside(target, s, p);
    match step.undo
    case Created(d) =>
      CopyKeeps(a, a, b, s, d, target, p);
    case Moved(s', d) =>
      SiblingsApart(p, d);
      if step.renamed { RenamedBeside(a, s, d, p); }
    case ReplacedCopy(d, k) =>
      ReplacedKeeps(a, target, d, k, p);
      CopyIsThere(a, Renamed(a, d, k), b, s, d);
      CopyKeeps(a, Renamed(a, d, k), b, s, d, target, p);
    case ReplacedMove(s', d, k) =>
      ReplacedKeeps(a, target, d, k, p);
      if step.renamed {
        ThroughKeeps(a, b, target, s, step.stage, d, k, p);
      } else {
        var c :| WithCopy(a, Renamed(a, d, k), c, s, d) && b == Without(c, s);
        CopyIsThere(a, Renamed(a, d, k), c, s, d);
        CopyKeeps(a, Renamed(a, d, k), c, s, d, target, p);
        WithoutKeeps(c, s, p);
      }
  }

  lemma ReplacedKeeps(a: Tree, target: Path, d: Path, k: Path, p: Path)
    requires Apart(d, k) && Entry(target, d) && Entry(target, k) && Entry(target, p) && p in a && k !in a
    ensures p != d ==> p in Renamed(a, d, k)
  {
    SiblingsApart(p, k);
    if p != d {
      SiblingsApart(p, d);
      RenamedBeside(a, d, k, p);
    }
  }

  lemma ThroughKeeps(a: Tree, b: Tree, target: Path, s: Path, g: Path, d: Path, k: Path, p: Path)
    requires ReplacedThrough(a, b, s, g, d, k) && s in a && d in a && k !in a && !(s <= p) && p in a
    requires Entry(target, g) && Entry(target, d) && Entry(target, k) && Entry(target, p)
    ensures p in b
  {
    hide Renamed;
    var t1 := Renamed(a, s, g);
    var t2 := Renamed(t1, d, k);
    SiblingsApart(p, g);
    SiblingsApart(p, k);
    RenamedBeside(a, s, g, p);
    RenamedBelow(a, s, g, []);
    RenamedBeside(t1, d, k, g);
    RenamedBelow(t2, g, d, []);
    AtNone(g);
    AtNone(s);
    AtNone(d);
    if p != d {
      SiblingsApart(p, d);
      RenamedBeside(t1, d, k, p);
      RenamedBeside(t2, g, d, p);
    }
  }

  /** A step forward takes away and brings nothing outside the target directory but its own source. */
  lemma OutsideKept(a: Tree, b: Tree, step: Step, target: Path, policy: ConflictPolicy, p: Path)
    requires Closed(a) && Leads(a, b, step, target, policy) && !(target <= p) && p in b
    ensures p in a && a[p] == b[p]
    ensures step.undo.Moved? || step.undo.ReplacedMove? ==> !(step.source <= p)
  {
    var s := step.source;
    DestinationIsEntry(target, s);
    match step.undo
    case Created(d) =>
      BelowEntry(target, d, p);
    case ReplacedCopy(d, k) =>
      BelowEntry(target, d, p);
      BelowEntry(target, k, p);
      RenamedBeside(a, d, k, p);
    case Moved(s', d) =>
      BelowEntry(target, d, p);
      if step.renamed { RenamedOutside(a, s, d, p); }
    case ReplacedMove(s', d, k) =>
      BelowEntry(target, d, p);
      BelowEntry(target, k, p);
      if step.renamed {
        BelowEntry(target, step.stage, p);
        ThroughOutside(a, b, s, step.stage, d, k, p);
      } else {
        RenamedBeside(a, d, k, p);
      }
  }

  lemma BelowEntry(target: Path, d: Path, p: Path)
    requires Entry(target, d)
    ensures d <= p ==> target <= p
  {
    assert target <= d;
  }

  lemma RenamedOutside(a: Tree, s: Path, d: Path, p: Path)
    requires Apart(s, d) && p in Renamed(a, s, d) && !(d <= p) && d !in a && Closed(a)
    ensures p in a && a[p] == Renamed(a, s, d)[p] && !(s <= p)
  {
    hide Renamed;
    AbsentBelow(a, d);
    if s <= p {
      Split(s, p);
      RenamedBelow(a, s, d, p[|s|..]);
      AtSlice(d, p[|s|..]);
    } else {
      RenamedBeside(a, s, d, p);
    }
  }

  lemma ThroughOutside(a: Tree, b: Tree, s: Path, g: Path, d: Path, k: Path, p: Path)
    requires ReplacedThrough(a, b, s, g, d, k) && Closed(a) && p in b && !(g <= p) && !(d <= p) && !(k <= p)
    ensures p in a && a[p] == b[p] && !(s <= p)
  {
    hide Renamed;
    var t1 := Renamed(a, s, g);
    var t2 := Renamed(t1, d, k);
    RenamedBeside(t2, g, d, p);
    RenamedBeside(t1, d, k, p);
    RenamedOutside(a, s, g, p);
  }

  /** A lasting difference outlasts the undoing of an earlier step, whatever comes of that. */
  lemma DifferenceStays(a: Tree, b: Tree, step: Step, target: Path, policy: ConflictPolicy, world: World,
                        t: Tree, x: Path, u: Tree, ok: bool, p: Path)
    requires Closed(a) && Closed(b) && Leads(a, b, step, target, policy) && Entry(target, x) && x !in t
    requires Executes(t, step.undo, !step.renamed, x, world, u, ok) && Lasting(b, t, target, p)
    ensures Lasting(a, u, target, p)
  {
    if NewEntry(b, t, target, p) {
      if p in a { EntriesGrow(a, b, step, target, policy, p); }
      LaterEntryBeside(a, b, step, target, policy, x, t, p);
    } else {
      OutsideKept(a, b, step, target, policy, p);
      OutsideBeside(a, b, step, target, policy, x, p);
    }
    hide Leads, Closed, Executes;
    ExecutesBeside(t, step.undo, !step.renamed, x, world, u, ok, p);
  }

  lemma LaterEntryBeside(a: Tree, b: Tree, step: Step, target: Path, policy: ConflictPolicy, x: Path, t: Tree, p: Path)
    requires Closed(a) && Closed(b) && Leads(a, b, step, target, policy) && Entry(target, x) && x !in t
    requires Entry(target, p) && p in t && p !in b
    ensures BesidePaths(step.undo, x, p)
  {
    var s := step.source;
    SourceBeside(target, s, p);
    SiblingsDiffer(target, x, p);
    hide Closed, Renamed, WithCopy;
    match step.undo
    case Created(d) =>
      CreatedMeans(a, b, step, target, policy);
      CopyIsThere(a, a, b, s, d);
      SiblingsDiffer(target, d, p);
    case Moved(s', d) =>
      MovedMeans(a, b, step, target, policy);
      MovedRelocates(a, b, step, target, policy);
      SiblingsDiffer(target, d, p);
    case ReplacedCopy(d, k) =>
      ReplacedCopyMeans(a, b, step, target, policy);
      CopyBackupThere(a, b, target, s, d, k);
      SiblingsDiffer(target, d, p);
      SiblingsDiffer(target, k, p);
    case ReplacedMove(s', d, k) =>
      ReplacedMoveMeans(a, b, step, target, policy);
      ReplacedThere(a, b, step, target, policy);
      SiblingsDiffer(target, d, p);
      SiblingsDiffer(target, k, p);
  }

  lemma SiblingsDiffer(target: Path, d: Path, p: Path)
    requires Entry(target, d) && Entry(target, p)
    ensures d != p ==> !(d <= p)
  {
    if d != p { SiblingsApart(d, p); }
  }

  lemma OutsideBeside(a: Tree, b: Tree, step: Step, target: Path, policy: ConflictPolicy, x: Path, p: Path)
    requires Leads(a, b, step, target, policy) && Entry(target, x) && !(target <= p)
    requires step.undo.Moved? || step.undo.ReplacedMove? ==> !(step.source <= p)
    ensures BesidePaths(step.undo, x, p)
  {
    DestinationIsEntry(target, step.source);
    BelowEntry(target, x, p);
    hide Fits;
    match step.undo
    case Created(d) => BelowEntry(target, d, p);
    case Moved(s, d) => BelowEntry(target, d, p);
    case ReplacedCopy(d, k) =>
      BelowEntry(target, d, p);
      BelowEntry(target, k, p);
    case ReplacedMove(s, d, k) =>
      BelowEntry(target, d, p);
      BelowEntry(target, k, p);
  }

  lemma {:induction false} LastsToTheEnd(states: seq<Tree>, steps: seq<Step>, undo: seq<TransferUndo>, run: seq<Tree>,
                                         oks: seq<bool>, displaced: seq<Path>, target: Path, policy: ConflictPolicy,
                                         world: World, i: nat, p: Path)
    requires Logs(states, steps, undo, target, policy) && UndoRun(run, oks, steps, undo, displaced, target, world)
    requires |states| == |run| == |undo| + 1 && i <= |undo| && Lasting(states[i], run[i], target, p)
    ensures Lasting(states[0], run[0], target, p)
    decreases i
  {
    hide Logs, UndoRun, Lasting, Leads, Executes, Closed, Entry;
    if i > 0 {
      LogStep(states, steps, undo, run, oks, displaced, target, policy, world, i - 1);
      DifferenceStays(states[i - 1], states[i], steps[i - 1], target, policy, world, run[i], displaced[i - 1], run[i - 1],
                      oks[i - 1], p);
      LastsToTheEnd(states, steps, undo, run, oks, displaced, target, policy, world, i - 1, p);
    }
  }

  lemma NotAboveTarget(a: Tree, b: Tree, step: Step, target: Path, policy: ConflictPolicy)
    requires Leads(a, b, step, target, policy)
    ensures !(step.source <= target)
  {
  }

  lemma LastingIsNotAlike(a: Tree, u: Tree, target: Path, p: Path)
    requires Lasting(a, u, target, p)
    ensures !Alike(a, u)
  {
    if Alike(a, u) { AlikeAt(a, u, p); }
  }

  /** With a step that cannot be undone there is no way back, although the later steps are still executed. */
  lemma NoWayBack(states: seq<Tree>, steps: seq<Step>, undo: seq<TransferUndo>, run: seq<Tree>, oks: seq<bool>,
                  displaced: seq<Path>, target: Path, policy: ConflictPolicy, world: World, i: nat)
    requires Logs(states, steps, undo, target, policy) && UndoRun(run, oks, steps, undo, displaced, target, world)
    requires |states| == |run| == |undo| + 1 && |steps| == |undo| && i < |undo| && ByShape(world)
    requires Alike(states[|undo|], run[|undo|]) && AllUndoable(states, steps, undo, world, i + 1)
    requires !Undoable(states[i + 1], undo[i], !steps[i].renamed, world) && CopiedFromOutside(steps, target)
    ensures !Alike(states[0], run[0])
  {
    hide Logs, UndoRun, Undoable, Alike, ByShape, Leads, Executes, Closed, Entry, Differs, Lasting;
    UndoBack(states, steps, undo, run, oks, displaced, target, policy, world, i + 1);
    LogStep(states, steps, undo, run, oks, displaced, target, policy, world, i);
    NotAboveTarget(states[i], states[i + 1], steps[i], target, policy);
    UndoRunStep(states, steps, undo, run, oks, displaced, target, policy, world, i);
    DiffersIsLasting(states[i], run[i], target, steps[i]);
    var p :| Lasting(states[i], run[i], target, p);
    LastsToTheEnd(states, steps, undo, run, oks, displaced, target, policy, world, i, p);
    LastingIsNotAlike(states[0], run[0], target, p);
  }

  lemma {:induction false} LastNotUndoable(states: seq<Tree>, steps: seq<Step>, undo: seq<TransferUndo>, world: World, n: nat)
    returns (i: nat)
    requires |states| == |undo| + 1 && |steps| == |undo| && n <= |undo|
    requires AllUndoable(states, steps, undo, world, n) && !AllUndoable(states, steps, undo, world, 0)
    ensures i < |undo| && !Undoable(states[i + 1], undo[i], !steps[i].renamed, world)
    ensures AllUndoable(states, steps, undo, world, i + 1)
    decreases n
  {
    hide Undoable;
    if Undoable(states[n], undo[n - 1], !steps[n - 1].renamed, world) {
      i := LastNotUndoable(states, steps, undo, world, n - 1);
    } else {
      i := n - 1;
    }
  }

  /** Undoing the whole log, last entry first and going on after errors, leads back to the tree from the start if
      every entry can be undone, and without a move that copied to that very tree; and only then, when no item
      moved by copying came from inside the target directory. */
  lemma ExactUndo(states: seq<Tree>, steps: seq<Step>, undo: seq<TransferUndo>, run: seq<Tree>, oks: seq<bool>,
                  displaced: seq<Path>, target: Path, policy: ConflictPolicy, world: World)
    requires Logs(states, steps, undo, target, policy) && UndoRun(run, oks, steps, undo, displaced, target, world)
    requires |states| == |run| == |undo| + 1 && |steps| == |undo| && Alike(states[|undo|], run[|undo|]) && ByShape(world)
    ensures AllUndoable(states, steps, undo, world, 0) ==>
              Alike(states[0], run[0]) && |oks| == |undo| && forall j | 0 <= j < |undo| :: oks[j]
    ensures AllUndoable(states, steps, undo, world, 0) && run[|undo|] == states[|undo|] && KeepsInodes(steps) ==>
              run[0] == states[0]
    ensures CopiedFromOutside(steps, target) && Alike(states[0], run[0]) ==> AllUndoable(states, steps, undo, world, 0)
  {
    hide Logs, UndoRun, Undoable, Alike, ByShape, KeepsInodes, CopiedFromOutside;
    if AllUndoable(states, steps, undo, world, 0) {
      UndoBack(states, steps, undo, run, oks, displaced, target, policy, world, 0);
    } else if CopiedFromOutside(steps, target) {
      var i := LastNotUndoable(states, steps, undo, world, |undo|);
      NoWayBack(states, steps, undo, run, oks, displaced, target, policy, world, i);
    }
  }

  /** The same for the report of a run that had to leave nothing half done. */
  lemma ReportIsUndone(report: TransferReport, states: seq<Tree>, steps: seq<Step>, run: seq<Tree>, oks: seq<bool>,
                       displaced: seq<Path>, target: Path, policy: ConflictPolicy, world: World)
    requires Accounts(report, steps) && Chain(states, steps, target, policy) && ByShape(world)
    requires UndoRun(run, oks, steps, report.undo, displaced, target, world) && run[|report.undo|] == states[|report.undo|]
    ensures AllUndoable(states, steps, report.undo, world, 0) ==> Alike(states[0], run[0])
    ensures AllUndoable(states, steps, report.undo, world, 0) && KeepsInodes(steps) ==> run[0] == states[0]
    ensures CopiedFromOutside(steps, target) ==>
              (Alike(states[0], run[0]) <==> AllUndoable(states, steps, report.undo, world, 0))
  {
    hide Leads, Alike, Undoable, ByShape, Closed, Entry, KeepsInodes, StepBytes, Executes, CopiedFromOutside;
    SameAsAll(states[|report.undo|]);
    ExactUndo(states, steps, report.undo, run, oks, displaced, target, policy, world);
  }
}

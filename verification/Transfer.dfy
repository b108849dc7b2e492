/** `run_transfer_inner`: the preflight, and the loop that stages and commits each source. */
module Transfer {
  import opened Basics
  import opened Paths
  import opened TransferTree
  import opened TransferDisk
  import opened TransferScan
  import opened TransferCopy
  import opened TransferSteps
  import opened TransferCommit
  import opened TransferPreflight

  datatype TransferOperation = Copy | Move

  datatype TransferRequest = TransferRequest(
    sources: seq<Path>, targetDir: Path, operation: TransferOperation, conflictPolicy: ConflictPolicy)

  /** `errors` has the path that each message names. */
  datatype TransferReport = TransferReport(
    completed: nat, skipped: nat, bytes: U64, cancelled: bool, errors: seq<Path>, undo: seq<TransferUndo>)

  // ---- A source and the paths in the target directory

  lemma InParent(s: Path, d: Path)
    requires d != []
    ensures s <= d && s != d ==> s <= Parent(d)
  {
  }

  /** A source that is not already an entry of the target directory, nor at or around it, is not around an entry. */
  lemma SourceBeside(target: Path, s: Path, d: Path)
    requires !(s <= target) && !Entry(target, s) && Entry(target, d)
    ensures !(s <= d) && s != []
  {
    InParent(s, d);
  }

  /** It is apart from every entry that is absent. */
  lemma SourceApart(t: Tree, target: Path, s: Path, d: Path)
    requires Closed(t) && s in t && !(s <= target) && !Entry(target, s) && Entry(target, d) && d !in t
    ensures Apart(s, d)
  {
    SourceBeside(target, s, d);
    AbsentBelow(t, d);
  }

  lemma StagedEntries(a: Tree, c: Tree, target: Path, s: Path, g: Path, renamed: bool, d: Path)
    requires Closed(a) && Staged(a, c, s, g, renamed) && !(s <= target) && !Entry(target, s)
    requires Entry(target, g) && Entry(target, d) && d != g
    ensures d in a <==> d in c
  {
    SourceBeside(target, s, d);
    SiblingsApart(g, d);
    if renamed { RenamedBeside(a, s, g, d); }
  }

  /** Renaming by way of a path that was free is renaming. */
  lemma RenamedThrough(t: Tree, s: Path, g: Path, d: Path)
    requires Closed(t) && Apart(s, g) && Apart(g, d) && Apart(s, d) && g !in t && d !in t
    ensures Renamed(Renamed(t, s, g), g, d) == Renamed(t, s, d)
  {
    hide Renamed, Apart, Closed;
    var c := Renamed(t, s, g);
    var u, v := Renamed(c, g, d), Renamed(t, s, d);
    AbsentBelow(t, g);
    AbsentBelow(t, d);
    forall q ensures (q in u <==> q in v) && (q in u ==> u[q] == v[q]) {
      RenamedAt(c, g, d, q);
      RenamedAt(t, s, g, Swap(q, g, d));
      RenamedAt(t, s, d, q);
      ThroughSwap(t, s, g, d, q);
    }
    SameTree(u, v);
  }

  lemma ThroughSwap(t: Tree, s: Path, g: Path, d: Path, q: Path)
    requires Apart(s, g) && Apart(g, d) && Apart(s, d)
    requires forall p | p in t :: !(g <= p) && !(d <= p)
    ensures var p, p' := Swap(Swap(q, g, d), s, g), Swap(q, s, d);
            (p in t <==> p' in t) && (p in t ==> p == p')
  {
    if s <= q {
      ApartTrees(s, g, q);
      ApartTrees(s, d, q);
      Split(s, q);
      SwapBelow(s, g, q[|s|..]);
      SwapBelow(s, d, q[|s|..]);
    } else if d <= q {
      ApartTrees(g, d, q);
      Split(d, q);
      SwapBelow(g, d, q[|d|..]);
      SwapBelow(s, g, q[|d|..]);
      SwapBelow(s, d, q[|d|..]);
    } else if g <= q {
      Split(g, q);
      SwapBelow(g, d, q[|g|..]);
      AtSlice(d, q[|g|..]);
      ApartTrees(g, d, At(d, q[|g|..]));
      ApartTrees(s, d, At(d, q[|g|..]));
    }
  }

  // ---- Staging and committing together

  /** The source is at the destination d, and still in place if it was copied. */
  ghost predicate Arrived(a: Tree, b: Tree, s: Path, g: Path, renamed: bool, d: Path, backup: Option<Path>) {
    match backup
    case None =>
      && d !in a && s in a && Apart(s, d)
      && (if renamed then b == Renamed(a, s, d) else WithCopy(a, a, b, s, d))
    case Some(k) =>
      && d in a && k !in a && s in a && Apart(d, k) && !(s <= d) && Apart(s, k)
      && (if renamed then ReplacedThrough(a, b, s, g, d, k) else WithCopy(a, Renamed(a, d, k), b, s, d))
  }

  lemma ArrivedFree(a: Tree, c: Tree, target: Path, s: Path, g: Path, renamed: bool, d: Path)
    requires Closed(a) && Closed(c) && Staged(a, c, s, g, renamed) && !(s <= target) && !Entry(target, s)
    requires Entry(target, g) && Entry(target, d) && d != g && d !in c && Apart(g, d)
    ensures Arrived(a, Renamed(c, g, d), s, g, renamed, d, None)
  {
    hide Closed, Apart, Beside, Copied, SharesAlike, Renamed;
    StagedEntries(a, c, target, s, g, renamed, d);
    SourceApart(a, target, s, d);
    if renamed { RenamedThrough(a, s, g, d); } else { CopyRenamed(a, a, c, s, g, d); }
  }

  lemma ArrivedReplacing(a: Tree, c: Tree, target: Path, s: Path, g: Path, renamed: bool, d: Path, k: Path)
    requires Closed(a) && Closed(c) && Staged(a, c, s, g, renamed) && !(s <= target) && !Entry(target, s)
    requires IsDir(a, target) && IsDir(c, target)
    requires Entry(target, g) && Entry(target, d) && Entry(target, k) && d in c && k !in c && g in c && d != g
    requires Apart(g, d) && Apart(g, k) && Apart(d, k)
    ensures Arrived(a, Renamed(Renamed(c, d, k), g, d), s, g, renamed, d, Some(k))
  {
    hide Closed, Apart, Beside, Copied, SharesAlike, Renamed;
    StagedEntries(a, c, target, s, g, renamed, d);
    StagedEntries(a, c, target, s, g, renamed, k);
    SourceApart(a, target, s, k);
    SourceBeside(target, s, d);
    if !renamed {
      CopyBeside(a, a, c, s, g, d, k);
      EntryRenamed(a, target, d, k);
      EntryRenamed(c, target, d, k);
      CopyRenamed(a, Renamed(a, d, k), Renamed(c, d, k), s, g, d);
    }
  }

  lemma ArrivedAt(a: Tree, c: Tree, b: Tree, target: Path, s: Path, g: Path, renamed: bool, requested: Path,
                  policy: ConflictPolicy, isText: Name -> bool, d: Path, backup: Option<Path>)
    requires Closed(a) && Closed(c) && Staged(a, c, s, g, renamed) && !(s <= target) && !Entry(target, s)
    requires IsDir(a, target) && IsDir(c, target) && Entry(target, g) && Entry(target, requested) && Entry(target, d)
    requires requested != g && g in c && CommittedTo(c, b, g, requested, policy, isText, d, backup)
    ensures Arrived(a, b, s, g, renamed, d, backup)
    ensures requested !in a ==> backup.None? && d == requested
    ensures requested in a ==> policy != Skip && (backup.Some? <==> policy == Replace)
  {
    hide Closed, Renamed, Staged, Arrived, FirstFree;
    StagedEntries(a, c, target, s, g, renamed, requested);
    match backup
    case None =>
      assert d != g;
      ArrivedFree(a, c, target, s, g, renamed, d);
    case Some(k) =>
      ArrivedReplacing(a, c, target, s, g, renamed, d, k);
  }

  function UndoOf(operation: TransferOperation, s: Path, d: Path, backup: Option<Path>): TransferUndo {
    match (operation, backup)
    case (Copy, Some(k)) => ReplacedCopy(d, k)
    case (Copy, None) => Created(d)
    case (Move, Some(k)) => ReplacedMove(s, d, k)
    case (Move, None) => Moved(s, d)
  }

  lemma ArrivedFits(a: Tree, b: Tree, s: Path, g: Path, renamed: bool, operation: TransferOperation, d: Path,
                    backup: Option<Path>, step: Step)
    requires Arrived(a, b, s, g, renamed, d, backup)
    requires step.source == s && step.stage == g && step.renamed == renamed && step.undo == UndoOf(operation, s, d, backup)
    ensures operation == Copy && !renamed ==> Fits(a, b, step)
    ensures operation == Move && renamed ==> Fits(a, b, step)
    ensures operation == Move && !renamed ==> Fits(a, Without(b, s), step)
  {
    hide WithCopy, Renamed, Apart, Without, ReplacedThrough;
  }

  // ---- One source

  lemma BesideWithout(a: Tree, c: Tree, g: Path)
    requires Beside(a, c, g) && Closed(a) && g !in a
    ensures Without(c, g) == a
  {
    AbsentBelow(a, g);
    SameTree(Without(c, g), a);
  }

  lemma CopyMade(a: Tree, c: Tree, s: Path, g: Path, links: map<nat, Path>)
    requires Staging(a, c, s, g, links) && Copied(a, c, s, g, []) && g !in a && s in a && Apart(s, g)
    ensures Staged(a, c, s, g, false) && g in c
  {
    AtNone(s);
    AtNone(g);
    assert Mirrors(a, c, s, g, []);
  }

  lemma NothingStaged(a: Tree, s: Path, g: Path)
    requires Closed(a) && g !in a
    ensures Staging(a, a, s, g, map[]) && LinksComplete(a, a, s, g, map[])
  {
    AbsentBelow(a, g);
    forall r ensures At(g, r) !in a { AtSlice(g, r); }
  }

  lemma RenamedThere(a: Tree, s: Path, g: Path)
    requires s in a && g !in a && Apart(s, g)
    ensures g in Renamed(a, s, g) && s !in Renamed(a, s, g) && Staged(a, Renamed(a, s, g), s, g, true)
  {
    AtNone(s);
    AtNone(g);
    RenamedBelow(a, s, g, []);
  }

  lemma TargetBeside(a: Tree, c: Tree, target: Path, g: Path)
    requires IsDir(a, target) && Beside(a, c, g) && Entry(target, g)
    ensures IsDir(c, target)
  {
  }

  /** Stages a source: on one device by a rename, otherwise by a copy. */
  method StageRoot(fs: FileSystem, context: CopyContext, root: ScannedRoot, stage: Path, operation: TransferOperation)
    returns (error: Option<TransferError>, renamed: bool)
    requires fs.Valid() && IsDir(fs.tree, fs.target) && root.path in fs.sources && root.path in fs.tree
    requires !(root.path <= fs.target) && !Entry(fs.target, root.path) && Entry(fs.target, stage) && stage !in fs.tree
    requires context.hardLinks == map[]
    modifies fs, context, context.cancelled
    ensures fs.Valid() && fs.Framed() && IsDir(fs.tree, fs.target) && context.cancelled.Monotone()
    ensures renamed ==> operation == Move
    ensures fs.stuck == old(fs.stuck)
    ensures error.None? ==>
              && Staged(old(fs.tree), fs.tree, root.path, stage, renamed) && stage in fs.tree
              && (if renamed
                  then root.path !in fs.tree && fs.where == Relocated(old(fs.where), root.path, stage)
                  else fs.Spare(stage) && fs.where == old(fs.where))
    ensures error.Some? ==>
              && Beside(old(fs.tree), fs.tree, stage) && fs.Spare(stage)
              && (|| context.cancelled.raised || fs.Troubled()
                  || (HasSpecial(old(fs.tree), root.path) && error.value.Failed?))
    ensures error.None? ==>
              context.completedBytes ==
              SaturatingAdd(old(context.completedBytes), if renamed then root.bytes else TreeBytes(old(fs.tree), root.path))
  {
    hide Closed, Coherent, Ledger, NothingLost, Renamed, Relocated, FileSystem.Valid, Apart, Staging, LinksComplete,
      Copied, Beside, SharesAlike, TreeBytes, HasSpecial, SaturatingAdd, Staged;
    ghost var a := fs.tree;
    fs.IsSound();
    fs.AbsentIsSpare(stage);
    SourceApart(a, fs.target, root.path, stage);
    BesideSelf(a, stage);
    var sameDevice: bool := *;
    renamed := operation == Move && sameDevice;
    if renamed {
      StageByRename(a, fs.target, root.path, stage);
      var ok := fs.Rename(root.path, stage, false);
      if !ok { return Some(Failed), renamed; }
      RenamedThere(a, root.path, stage);
      TargetKept(a, fs.target, root.path, stage);
      context.Advance(root.bytes);
      return None, renamed;
    }
    NothingStaged(a, root.path, stage);
    AtNone(root.path);
    AtNone(stage);
    error := CopyEntry(fs, context, root.path, stage, a, root.path, stage, []);
    TargetBeside(a, fs.tree, fs.target, stage);
    if error.None? { CopyMade(a, fs.tree, root.path, stage, context.hardLinks); }
  }

  lemma StageByRename(t: Tree, target: Path, s: Path, g: Path)
    requires s in t && g !in t && IsDir(t, target) && Entry(target, g) && Apart(s, g)
    ensures CanRename(t, s, g)
  {
  }

  lemma CopiedItem(a: Tree, m: Tree, b: Tree, s: Path, d: Path, q: Path)
    requires WithCopy(a, m, b, s, d) && Apart(s, d) && s <= q && q in b
    requires q in m ==> q in a && a[q] == m[q]
    ensures Swap(q, s, d) in b && SameItem(b[q], b[Swap(q, s, d)])
  {
    ApartTrees(s, d, q);
    Split(s, q);
    assert Mirrors(a, b, s, d, q[|s|..]);
  }

  /** Nothing on the record stands in the new copy or, once its items are listed there, at the source. */
  ghost method Credit(fs: FileSystem, a: Tree, where: map<Path, Path>, s: Path, g: Path, d: Path, backup: Option<Path>)
    requires fs.Valid() && IsSpot(fs.sources, fs.target, s) && IsSpot(fs.sources, fs.target, d)
    requires Closed(a) && Arrived(a, fs.tree, s, g, false, d, backup) && !(s <= d)
    requires Apart(g, d) && forall q | q in where.Values :: q in a && !(g <= q)
    requires backup.Some? ==> Apart(g, backup.value)
    requires fs.where == match backup
                         case None => Relocated(where, g, d)
                         case Some(k) => Relocated(Relocated(where, d, k), g, d)
    modifies fs`where
    ensures fs.Valid() && fs.Spare(s)
  {
    hide Closed, Coherent, Ledger, NothingLost, FileSystem.Valid, SameItem, Relocated, Beside, Copied, SharesAlike;
    ghost var listed := where;
    match backup {
      case None =>
        AbsentBelow(a, d);
      case Some(k) =>
        AbsentBelow(a, k);
        SpareAfter(where, d, k, g);
        RepointSpare(where, d, k);
        listed := Relocated(where, d, k);
    }
    RelocatedSame(listed, g, d);
    if d <= s {
      fs.SpareBelow(d, s);
    } else {
      ghost var m := if backup.None? then a else Renamed(a, d, backup.value);
      forall q | q in fs.where.Values && s <= q
        ensures q in fs.tree && Swap(q, s, d) in fs.tree && SameItem(fs.tree[q], fs.tree[Swap(q, s, d)])
      {
        fs.ListedIsThere(q);
        if backup.Some? {
          ApartTrees(s, d, q);
          ApartTrees(s, backup.value, q);
          RenamedBeside(a, d, backup.value, q);
        }
        CopiedItem(a, m, fs.tree, s, d, q);
      }
      fs.Repoint(s, d);
    }
  }

  // ---- What is reported

  datatype Flow = Continue | Break | Return(error: TransferError)

  function Destination(target: Path, source: Path): Path
    requires source != []
  {
    target + [source[|source| - 1]]
  }

  lemma DestinationIsEntry(target: Path, source: Path)
    requires source != []
    ensures Entry(target, Destination(target, source))
    ensures Destination(target, source) == source <==> Entry(target, source)
  {
    assert source == Parent(source) + [source[|source| - 1]];
  }

  predicate Stays(undo: TransferUndo) { undo.Created? || undo.ReplacedCopy? }

  /** A copy leaves its source where it is; so does a move whose source could not be removed, and only that. */
  predicate Asked(operation: TransferOperation, undo: TransferUndo, failed: bool) {
    Stays(undo) <==> operation == Copy || failed
  }

  ghost predicate Reported(operation: TransferOperation, before: TransferReport, report: TransferReport, flow: Flow,
                           step: Option<Step>, root: ScannedRoot, index: nat)
  {
    && (flow.Break? <==> report.cancelled)
    && before.errors <= report.errors <= before.errors + [root.path]
    && before.skipped <= report.skipped
    && (match step
        case None =>
          && report.undo == before.undo && report.completed == before.completed && report.bytes == before.bytes
          && report.skipped + |report.errors| == before.skipped + |before.errors| + (if flow.Continue? then 1 else 0)
        case Some(done) =>
          && done.index == index && done.source == root.path && done.bytes == root.bytes
          && Asked(operation, done.undo, report.errors != before.errors)
          && (report.errors != before.errors ==> operation == Move)
          && report.undo == before.undo + [done.undo] && report.completed == before.completed + 1
          && report.bytes == SaturatingAdd(before.bytes, root.bytes)
          && report.skipped == before.skipped && flow.Continue?)
  }

  /** The effect on the tree: none, or that of the step. */
  ghost predicate Effect(a: Tree, b: Tree, step: Option<Step>) {
    match step
    case None => b == a
    case Some(done) => Fits(a, b, done)
  }

  /** Under which name a source arrives, by the policy. */
  ghost predicate Lands(a: Tree, target: Path, policy: ConflictPolicy, source: Path, undo: TransferUndo)
    requires source != []
  {
    var d := Destination(target, source);
    match undo
    case Created(p) => Entry(target, p) && (if d in a then policy == KeepBoth else p == d)
    case Moved(s, p) => s == source && Entry(target, p) && (if d in a then policy == KeepBoth else p == d)
    case ReplacedCopy(p, k) => Entry(target, k) && d in a && policy == Replace && p == d
    case ReplacedMove(s, p, k) => s == source && Entry(target, k) && d in a && policy == Replace && p == d
  }

  lemma ArrivedLands(a: Tree, b: Tree, target: Path, policy: ConflictPolicy, s: Path, g: Path, renamed: bool,
                     operation: TransferOperation, d: Path, backup: Option<Path>)
    requires s != [] && Arrived(a, b, s, g, renamed, d, backup) && Entry(target, d)
    requires backup.Some? ==> Entry(target, backup.value) && d == Destination(target, s)
    requires Destination(target, s) !in a ==> backup.None? && d == Destination(target, s)
    requires Destination(target, s) in a ==> policy != Skip && (backup.Some? <==> policy == Replace)
    ensures Lands(a, target, policy, s, UndoOf(operation, s, d, backup))
  {
  }

  /** No name is free beside the stage. */
  ghost predicate Crowded(a: Tree, requested: Path, policy: ConflictPolicy, isText: Name -> bool)
    requires requested != []
  {
    || NoSibling(a, requested, Ascii("partial"))
    || exists stage {:trigger a[stage := SpecialFile]} | Entry(Parent(requested), stage) ::
         NoNames(a[stage := SpecialFile], requested, policy, isText)
  }

  lemma CrowdedBy(a: Tree, c: Tree, target: Path, s: Path, g: Path, renamed: bool, requested: Path,
                  policy: ConflictPolicy, isText: Name -> bool)
    requires Closed(a) && Staged(a, c, s, g, renamed) && !(s <= target) && !Entry(target, s)
    requires Entry(target, g) && Entry(target, requested) && NoNames(c, requested, policy, isText)
    ensures Crowded(a, requested, policy, isText)
  {
    hide Closed, Staged, SiblingName, CopyName;
    var t := a[g := SpecialFile];
    forall d | Entry(target, d) && d in c ensures d in t {
      if d != g { StagedEntries(a, c, target, s, g, renamed, d); }
    }
    match policy
    case Skip =>
    case KeepBoth =>
      forall k: nat | 1 <= k <= COPY_NAMES ensures CopyPath(requested, k, isText) in t {
        var p := CopyPath(requested, k, isText);
        assert p in c && Parent(p) == target;
      }
      assert AllTaken(t, requested, isText);
    case Replace =>
      var stamp :| SiblingsTaken(c, Parent(requested), stamp, Ascii("replaced"), SIBLING_ATTEMPTS);
      forall k: nat | k < SIBLING_ATTEMPTS
        ensures Parent(requested) + [SiblingName(stamp, k, Ascii("replaced"))] in t
      {
        var p := Parent(requested) + [SiblingName(stamp, k, Ascii("replaced"))];
        assert p in c && Parent(p) == target;
      }
      NoneLeft(t, requested, stamp, Ascii("replaced"));
  }

  /** When the item to be replaced stays aside, nothing has come to be at the source. */
  lemma SourceStaysAbsent(a: Tree, c: Tree, target: Path, s: Path, g: Path, requested: Path, k: Path)
    requires Closed(a) && Closed(c) && Staged(a, c, s, g, true) && s !in c && !(s <= target) && !Entry(target, s)
    requires Entry(target, g) && Entry(target, requested) && Entry(target, k) && k !in c && g in c && Apart(requested, k)
    ensures s !in Renamed(c, requested, k)
  {
    StagedEntries(a, c, target, s, g, true, k);
    SourceApart(a, target, s, k);
    RenamedAt(c, requested, k, s);
    if requested <= s {
      AbsentBelow(c, k);
      Split(requested, s);
      SwapBelow(requested, k, s[|requested|..]);
      AtSlice(k, s[|requested|..]);
    }
  }

  lemma StagedApart(a: Tree, c: Tree, s: Path, g: Path, renamed: bool)
    requires Staged(a, c, s, g, renamed)
    ensures Apart(s, g) && s in a && g !in a
  {
  }

  lemma LeftAsideSource(a: Tree, c: Tree, u: Tree, target: Path, s: Path, g: Path, renamed: bool, requested: Path)
    requires Closed(a) && Closed(c) && Staged(a, c, s, g, renamed) && !(s <= target) && !Entry(target, s) && g in c
    requires Entry(target, g) && Entry(target, requested) && LeftAside(c, u, requested)
    ensures renamed && s !in c ==> s !in u
  {
    if renamed && s !in c {
      var k :| k !in c && Entry(Parent(requested), k) && Apart(requested, k) && u == Renamed(c, requested, k);
      SourceStaysAbsent(a, c, target, s, g, requested, k);
    }
  }

  lemma CommittedApart(t: Tree, u: Tree, stage: Path, requested: Path, policy: ConflictPolicy, isText: Name -> bool,
                       destination: Path, backup: Option<Path>)
    requires requested != [] && CommittedTo(t, u, stage, requested, policy, isText, destination, backup)
    ensures Apart(stage, destination) && (backup.Some? ==> destination == requested)
    ensures backup.Some? ==> Apart(stage, backup.value) && Entry(Parent(requested), backup.value)
  {
  }

  /** After the commit: a move that copied removes the source, and the step is logged. */
  method FinishRoot(fs: FileSystem, request: TransferRequest, root: ScannedRoot, ghost requested: Path, ghost stage: Path,
                    renamed: bool, destination: Path, backup: Option<Path>, before: TransferReport,
                    ghost index: nat, ghost a: Tree, ghost where: map<Path, Path>)
    returns (report: TransferReport, ghost step: Option<Step>, ghost clean: bool)
    requires fs.Valid() && fs.target == request.targetDir && IsDir(fs.tree, fs.target) && Closed(a)
    requires root.path in fs.sources && !(root.path <= fs.target) && !Entry(fs.target, root.path) && !before.cancelled
    requires root.path != [] && requested == Destination(fs.target, root.path)
    requires Arrived(a, fs.tree, root.path, stage, renamed, destination, backup)
    requires Entry(fs.target, destination) && Apart(stage, destination)
    requires backup.Some? ==> Apart(stage, backup.value) && Entry(fs.target, backup.value) && destination == requested
    requires requested !in a ==> backup.None? && destination == requested
    requires requested in a ==> request.conflictPolicy != Skip && (backup.Some? <==> request.conflictPolicy == Replace)
    requires renamed ==> request.operation == Move
    requires forall q | q in where.Values :: q in a && !(stage <= q)
    requires !renamed ==>
               fs.where == match backup
                           case None => Relocated(where, stage, destination)
                           case Some(k) => Relocated(Relocated(where, destination, k), stage, destination)
    modifies fs
    ensures fs.Valid() && fs.Framed() && IsDir(fs.tree, fs.target)
    ensures clean ==> Effect(a, fs.tree, step)
    ensures clean || fs.Troubled()
    ensures fs.stuck == (old(fs.stuck) || !clean)
    ensures Reported(request.operation, before, report, Continue, step, root, index) && step.Some? && report.skipped == before.skipped
    ensures !report.cancelled
    ensures Lands(a, fs.target, request.conflictPolicy, root.path, step.value.undo) && step.value.stage == stage
    ensures |report.errors| > |before.errors| ==> fs.Troubled()
  {
    hide Closed, Coherent, Ledger, NothingLost, Renamed, Relocated, FileSystem.Valid, Apart, Arrived, Fits, Lands,
      SaturatingAdd, Without;
    clean := true;
    ghost var b := fs.tree;
    report := before.(completed := before.completed + 1, bytes := SaturatingAdd(before.bytes, root.bytes));
    ArrivedLands(a, b, fs.target, request.conflictPolicy, root.path, stage, renamed, Copy, destination, backup);
    ArrivedLands(a, b, fs.target, request.conflictPolicy, root.path, stage, renamed, Move, destination, backup);
    if request.operation == Move && !renamed {
      SourceBeside(fs.target, root.path, destination);
      Credit(fs, a, where, root.path, stage, destination, backup);
      var removed := fs.RemovePath(root.path, false);
      if !removed {
        report := report.(errors := report.errors + [root.path]);
        var undo := if backup.Some? then ReplacedCopy(destination, backup.value) else Created(destination);
        report := report.(undo := report.undo + [undo]);
        clean := fs.tree == b;
        step := Some(Step(index, root.path, root.bytes, stage, renamed, undo));
        ArrivedFits(a, b, root.path, stage, renamed, Copy, destination, backup, step.value);
        return;
      }
    }
    var undo := UndoOf(request.operation, root.path, destination, backup);
    report := report.(undo := report.undo + [undo]);
    step := Some(Step(index, root.path, root.bytes, stage, renamed, undo));
    ArrivedFits(a, b, root.path, stage, renamed, request.operation, destination, backup, step.value);
  }

  /** The reports of a source that was not transferred. */
  lemma ReportedNone(operation: TransferOperation, before: TransferReport, root: ScannedRoot, index: nat)
    requires !before.cancelled
    ensures Reported(operation, before, before.(cancelled := true), Break, None, root, index)
    ensures Reported(operation, before, before.(errors := before.errors + [root.path]), Continue, None, root, index)
    ensures Reported(operation, before, before.(skipped := before.skipped + 1), Continue, None, root, index)
  {
  }

  /** From the stage on: a last look at the flag, the commit, the removal of what was moved by copying. */
  method CommitRoot(fs: FileSystem, context: CopyContext, request: TransferRequest, isText: Name -> bool,
                    root: ScannedRoot, requested: Path, stage: Path, renamed: bool, before: TransferReport,
                    ghost index: nat, ghost a: Tree, ghost where: map<Path, Path>)
    returns (report: TransferReport, flow: Flow, ghost step: Option<Step>, ghost clean: bool)
    requires fs.Valid() && fs.target == request.targetDir && IsDir(fs.tree, fs.target) && IsDir(a, fs.target)
    requires root.path in fs.sources && !(root.path <= fs.target) && !Entry(fs.target, root.path) && !before.cancelled
    requires root.path != [] && requested == Destination(fs.target, root.path)
    requires Closed(a) && Staged(a, fs.tree, root.path, stage, renamed) && stage in fs.tree
    requires Entry(fs.target, stage) && stage != requested
    requires if renamed then root.path !in fs.tree && request.operation == Move else fs.Spare(stage) && fs.where == where
    requires forall q | q in where.Values :: q in a && !(stage <= q)
    modifies fs, context.cancelled
    ensures fs.Valid() && fs.Framed() && IsDir(fs.tree, fs.target) && context.cancelled.Monotone()
    ensures clean ==> Effect(a, fs.tree, step)
    ensures clean || fs.Troubled()
    ensures fs.stuck == (old(fs.stuck) || !clean)
    ensures Reported(request.operation, before, report, flow, step, root, index) && !flow.Return?
    ensures step.Some? ==>
              Lands(a, fs.target, request.conflictPolicy, root.path, step.value.undo) && step.value.stage == stage
    ensures report.cancelled ==> context.cancelled.raised
    ensures old(context.cancelled.raised) ==> step.None?
    ensures report.skipped > before.skipped ==> requested in a && request.conflictPolicy == Skip
    ensures |report.errors| > |before.errors| ==>
              fs.Troubled() || Crowded(a, requested, request.conflictPolicy, isText)
  {
    hide Closed, Coherent, Ledger, NothingLost, Renamed, Relocated, FileSystem.Valid, Apart, Staged, Arrived, Crowded,
      NoNames, FirstFree, Fits, Lands, SaturatingAdd, Without, CommittedTo, LeftAside, Reported, Destination, IsDir,
      SiblingName, CopyName;
    report, flow, step, clean := before, Continue, None, true;
    ReportedNone(request.operation, before, root, index);
    ghost var c := fs.tree;
    fs.IsSound();
    StagedApart(a, c, root.path, stage, renamed);
    DestinationIsEntry(fs.target, root.path);
    var cancelled := context.cancelled.Load();
    if cancelled {
      clean := TakeBack(fs, stage, root.path, renamed, a);
      report, flow := report.(cancelled := true), Break;
      return;
    }
    var commit;
    commit, clean := CommitStage(fs, stage, requested, request.conflictPolicy, isText);
    if commit.Err? || commit.value.Skipped? {
      if !clean { LeftAsideSource(a, c, fs.tree, fs.target, root.path, stage, renamed, requested); }
      ghost var back := TakeBack(fs, stage, root.path, renamed, a);
      clean := clean && back;
      if commit.Err? {
        if NoNames(c, requested, request.conflictPolicy, isText) {
          CrowdedBy(a, c, fs.target, root.path, stage, renamed, requested, request.conflictPolicy, isText);
        }
        report := report.(errors := report.errors + [root.path]);
      } else {
        StagedEntries(a, c, fs.target, root.path, stage, renamed, requested);
        report := report.(skipped := report.skipped + 1);
      }
      return;
    }
    var destination, backup := commit.value.destination, commit.value.backup;
    CommittedApart(c, fs.tree, stage, requested, request.conflictPolicy, isText, destination, backup);
    ArrivedAt(a, c, fs.tree, fs.target, root.path, stage, renamed, requested, request.conflictPolicy, isText, destination, backup);
    report, step, clean := FinishRoot(fs, request, root, requested, stage, renamed, destination, backup, before, index, a, where);
  }

  /** Whether the path can be transferred by itself: there, with no special file below. */
  ghost predicate Copyable(a: Tree, s: Path) { s in a && !HasSpecial(a, s) }

  /** One turn of the loop. `step` tells what was done when something was logged; `clean` that everything which
      had to be taken back was, and nothing of a source is gone in part. */
  method RunRoot(fs: FileSystem, context: CopyContext, request: TransferRequest, isText: Name -> bool,
                 root: ScannedRoot, before: TransferReport, ghost index: nat)
    returns (report: TransferReport, flow: Flow, ghost step: Option<Step>, ghost clean: bool)
    requires fs.Valid() && fs.target == request.targetDir && IsDir(fs.tree, fs.target)
    requires root.path in fs.sources && !(root.path <= fs.target) && root.path != [] && !before.cancelled
    modifies fs, context, context.cancelled
    ensures fs.Valid() && fs.Framed() && IsDir(fs.tree, fs.target) && context.cancelled.Monotone()
    ensures clean ==> Effect(old(fs.tree), fs.tree, step)
    ensures clean || fs.Troubled()
    ensures fs.stuck == (old(fs.stuck) || !clean)
    ensures Reported(request.operation, before, report, flow, step, root, index)
    ensures step.Some? ==>
              && Lands(old(fs.tree), fs.target, request.conflictPolicy, root.path, step.value.undo)
              && Entry(fs.target, step.value.stage) && !Entry(fs.target, root.path)
    ensures report.cancelled ==> context.cancelled.raised || fs.Troubled()
    ensures old(context.cancelled.raised) ==> step.None? && flow.Break? && fs.history == old(fs.history)
    ensures report.skipped > before.skipped ==>
              || Entry(fs.target, root.path)
              || (Destination(fs.target, root.path) in old(fs.tree) && request.conflictPolicy == Skip)
    ensures |report.errors| > |before.errors| || flow.Return? ==>
              || context.cancelled.raised || fs.Troubled() || !Copyable(old(fs.tree), root.path)
              || Crowded(old(fs.tree), Destination(fs.target, root.path), request.conflictPolicy, isText)
  {
    hide Closed, Coherent, Ledger, NothingLost, Renamed, Relocated, FileSystem.Valid, Apart, Staged, Crowded, NoNames,
      Fits, Lands, SaturatingAdd, Without, Beside, HasSpecial, NoSibling;
    report, flow, step, clean := before, Continue, None, true;
    ghost var a, where := fs.tree, fs.where;
    fs.IsSound();
    DestinationIsEntry(fs.target, root.path);
    context.hardLinks := map[];
    var cancelled := context.cancelled.Load();
    if cancelled {
      report, flow := report.(cancelled := true), Break;
      return;
    }
    var destination := Destination(request.targetDir, root.path);
    if destination == root.path || (request.conflictPolicy == Skip && destination in fs.tree) {
      report := report.(skipped := report.skipped + 1);
      context.Advance(root.bytes);
      return;
    }
    var sibling := UniqueSibling(fs, destination, Ascii("partial"));
    if sibling.None? {
      CrowdedAtOnce(a, destination, request.conflictPolicy, isText);
      flow := Return(Failed);
      return;
    }
    var stage := sibling.value;
    if root.path !in fs.tree {
      report := report.(errors := report.errors + [root.path]);
      return;
    }
    fs.AbsentIsSpare(stage);
    ListedBeside(fs, stage);
    var error, renamed := StageRoot(fs, context, root, stage, request.operation);
    if error.Some? {
      BesideWithout(a, fs.tree, stage);
      clean := fs.RemovePath(stage, true);
      if error.value.Interrupted? {
        report, flow := report.(cancelled := true), Break;
      } else {
        report := report.(errors := report.errors + [root.path]);
      }
      return;
    }
    report, flow, step, clean :=
      CommitRoot(fs, context, request, isText, root, destination, stage, renamed, before, index, a, where);
  }

  lemma CrowdedAtOnce(a: Tree, requested: Path, policy: ConflictPolicy, isText: Name -> bool)
    requires requested != [] && NoSibling(a, requested, Ascii("partial"))
    ensures Crowded(a, requested, policy, isText)
  {
  }

  lemma ListedBeside(fs: FileSystem, stage: Path)
    requires fs.Valid() && fs.Spare(stage)
    ensures forall q | q in fs.where.Values :: q in fs.tree && !(stage <= q)
  {
  }

  // ---- The run

  function StepBytes(steps: seq<Step>): nat {
    if steps == [] then 0 else StepBytes(steps[..|steps| - 1]) + steps[|steps| - 1].bytes
  }

  lemma StepBytesAdd(steps: seq<Step>, step: Step)
    ensures StepBytes(steps + [step]) == StepBytes(steps) + step.bytes
  {
    assert (steps + [step])[..|steps|] == steps;
  }

  /** Each step is that of a source, in the order of the sources, each at most once. */
  ghost predicate InOrder(t: Tree, sources: seq<Path>, steps: seq<Step>, end: nat)
    requires end <= |sources|
  {
    && (forall i | 0 <= i < |steps| ::
          steps[i].index < end && steps[i].source == sources[steps[i].index] && steps[i].bytes == TreeBytes(t, steps[i].source))
    && (forall i, j | 0 <= i < j < |steps| :: steps[i].index < steps[j].index)
  }

  /** The report counts the steps, sums their sizes, and lists how to undo them. */
  predicate Accounts(report: TransferReport, steps: seq<Step>) {
    && report.completed == |report.undo| == |steps| && report.bytes == StepBytes(steps)
    && (forall i | 0 <= i < |steps| :: report.undo[i] == steps[i].undo)
  }

  /** Each step did what was asked for; a move that had to leave its source is among the errors. */
  predicate AsAsked(operation: TransferOperation, report: TransferReport, steps: seq<Step>) {
    forall i | 0 <= i < |steps| ::
      if Stays(steps[i].undo) then operation == Copy || steps[i].source in report.errors else operation == Move
  }

  lemma AsAskedNext(operation: TransferOperation, before: TransferReport, report: TransferReport, steps: seq<Step>,
                    flow: Flow, step: Option<Step>, root: ScannedRoot, i: nat)
    requires AsAsked(operation, before, steps) && Reported(operation, before, report, flow, step, root, i)
    ensures AsAsked(operation, report, Grown(steps, step))
  {
    var more := Grown(steps, step);
    forall j | 0 <= j < |more|
      ensures if Stays(more[j].undo) then operation == Copy || more[j].source in report.errors else operation == Move
    {
      if j < |steps| {
        assert more[j] == steps[j];
      } else if report.errors != before.errors {
        assert report.errors == before.errors + [root.path];
      }
    }
  }

  /** The step leads from tree a to tree b, by the policy, within the target directory. */
  ghost predicate Leads(a: Tree, b: Tree, step: Step, target: Path, policy: ConflictPolicy) {
    && IsDir(a, target) && IsDir(b, target) && Fits(a, b, step) && Entry(target, step.stage)
    && !(step.source <= target) && !Entry(target, step.source) && step.source != []
    && Lands(a, target, policy, step.source, step.undo)
  }

  /** The states between the steps: each step leads from one to the next. */
  ghost predicate Chain(states: seq<Tree>, steps: seq<Step>, target: Path, policy: ConflictPolicy) {
    && |states| == |steps| + 1 && (forall t | t in states :: Closed(t))
    && (forall i {:trigger steps[i]} | 0 <= i < |steps| :: Leads(states[i], states[i + 1], steps[i], target, policy))
  }

  lemma ChainAdd(states: seq<Tree>, steps: seq<Step>, target: Path, policy: ConflictPolicy, b: Tree, step: Step)
    requires Chain(states, steps, target, policy) && Leads(states[|steps|], b, step, target, policy) && Closed(b)
    ensures |states| == |steps| + 1 && Chain(states + [b], steps + [step], target, policy)
  {
    hide Leads, Closed;
    var more, longer := states + [b], steps + [step];
    forall i {:trigger longer[i]} | 0 <= i < |longer| ensures Leads(more[i], more[i + 1], longer[i], target, policy) {
      if i < |steps| { assert longer[i] == steps[i]; }
    }
  }

  /** The sizes up to here fit the total. */
  lemma TotalFits(t: Tree, sources: seq<Path>, i: nat, done: nat)
    requires i < |sources| && done <= TotalBytes(t, sources[..i]) && TotalBytes(t, sources) <= U64_MAX
    ensures SaturatingAdd(done, TreeBytes(t, sources[i])) == done + TreeBytes(t, sources[i]) <= TotalBytes(t, sources[..i + 1])
    ensures done <= TotalBytes(t, sources[..i + 1])
  {
    NextSource(t, sources, i);
    TotalBytesPrefix(t, sources, i + 1);
  }

  ghost predicate Untouched(a: Tree, b: Tree, p: Path) {
    && (forall q | q in a && p <= q :: q in b && b[q] == a[q])
    && (forall q | q in b && p <= q :: q in a)
  }

  function SourceSet(sources: seq<Path>): set<Path> { set s | s in sources }

  predicate DistinctPaths(s: seq<Path>) { forall i, j | 0 <= i < j < |s| :: s[i] != s[j] }

  /** A step changes nothing at the other sources. */
  lemma StepLeaves(a: Tree, b: Tree, step: Step, sources: set<Path>, target: Path, policy: ConflictPolicy, p: Path)
    requires Closed(a) && Fits(a, b, step) && step.source != [] && Lands(a, target, policy, step.source, step.undo)
    requires Separate(sources, target) && step.source in sources && p in sources && p != step.source
    requires Entry(target, step.stage)
    ensures Untouched(a, b, p)
  {
    hide Closed, Copied, SharesAlike, Renamed, Apart;
    var s := step.source;
    DestinationIsEntry(target, s);
    forall q | p <= q ensures (q in a <==> q in b) && (q in a ==> a[q] == b[q]) {
      BesideSpots(sources, target, s, p, q);
      match step.undo
      case Created(d) =>
      case ReplacedCopy(d, k) =>
        RenamedBeside(a, d, k, q);
      case Moved(s', d) =>
        if step.renamed { RenamedBeside(a, s, d, q); }
      case ReplacedMove(s', d, k) =>
        if step.renamed {
          var g := step.stage;
          RenamedBeside(a, s, g, q);
          RenamedBeside(Renamed(a, s, g), d, k, q);
          RenamedBeside(Renamed(Renamed(a, s, g), d, k), g, d, q);
        } else {
          RenamedBeside(a, d, k, q);
        }
    }
  }

  lemma BesideSpots(sources: set<Path>, target: Path, s: Path, p: Path, q: Path)
    requires Separate(sources, target) && s in sources && p in sources && p != s && p <= q
    ensures !(s <= q) && forall d | Entry(target, d) :: !(d <= q)
  {
    SpotsApart(sources, target, s, p);
    ApartTrees(s, p, q);
    forall d | Entry(target, d) ensures !(d <= q) {
      assert target <= d;
      if d <= q { BelowTransitive(target, d, q); ApartTrees(target, p, q); }
    }
  }

  predicate Gone(t: Tree, p: Path) { forall q | q in t :: !(p <= q) }

  /** What becomes of a source by its own step: left alone or gone. */
  lemma StepTakes(a: Tree, b: Tree, step: Step, sources: set<Path>, target: Path, policy: ConflictPolicy)
    requires Closed(a) && Fits(a, b, step) && step.source != [] && Lands(a, target, policy, step.source, step.undo)
    requires Separate(sources, target) && step.source in sources && Entry(target, step.stage)
    ensures if Stays(step.undo) then Untouched(a, b, step.source) else Gone(b, step.source)
  {
    hide Copied, SharesAlike, Renamed, Apart, Closed;
    var s := step.source;
    DestinationIsEntry(target, s);
    forall q | s <= q
      ensures if Stays(step.undo) then (q in a <==> q in b) && (q in a ==> a[q] == b[q]) else q !in b
    {
      BesideEntries(sources, target, s, q);
      match step.undo
      case Created(d) =>
      case ReplacedCopy(d, k) =>
        RenamedBeside(a, d, k, q);
      case Moved(s', d) =>
        if step.renamed { MovedAway(a, s, d, q); }
      case ReplacedMove(s', d, k) =>
        if step.renamed {
          var g := step.stage;
          MovedAway(a, s, g, q);
          RenamedBeside(Renamed(a, s, g), d, k, q);
          RenamedBeside(Renamed(Renamed(a, s, g), d, k), g, d, q);
        }
    }
  }

  lemma MovedAway(a: Tree, s: Path, g: Path, q: Path)
    requires Closed(a) && Apart(s, g) && g !in a && s <= q
    ensures q !in Renamed(a, s, g)
  {
    hide Renamed;
    AbsentBelow(a, g);
    Split(s, q);
    RenamedBelow(a, s, g, q[|s|..]);
    AtSlice(g, q[|s|..]);
  }

  lemma BesideEntries(sources: set<Path>, target: Path, s: Path, q: Path)
    requires Separate(sources, target) && s in sources && s <= q
    ensures forall d | Entry(target, d) :: !(d <= q)
  {
    forall d | Entry(target, d) ensures !(d <= q) {
      assert target <= d;
      if d <= q { BelowTransitive(target, d, q); ApartTrees(target, s, q); }
    }
  }

  lemma UntouchedTransitive(a: Tree, b: Tree, c: Tree, p: Path)
    requires Untouched(a, b, p) && Untouched(b, c, p)
    ensures Untouched(a, c, p)
  {
  }

  lemma UntouchedCopyable(a: Tree, b: Tree, p: Path)
    requires Copyable(a, p) && Untouched(a, b, p)
    ensures Copyable(b, p)
  {
    assert p <= p;
    forall q | q in Below(b, p) ensures !b[q].SpecialFile? { assert q in Below(a, p); }
  }

  lemma AcceptableCopyable(t: Tree, target: Path, sources: seq<Path>, i: nat)
    requires Acceptable(t, target, sources) && i < |sources|
    ensures Copyable(t, sources[i])
  {
    assert AcceptableSource(t, target, sources, i);
    forall q | q in Below(t, sources[i]) ensures !t[q].SpecialFile? { assert Walkable(t, sources[i], 0, q); }
  }

  /** The sources still to come are as they were at the start. */
  ghost predicate Waiting(t: Tree, u: Tree, sources: seq<Path>, i: nat) {
    forall j | i <= j < |sources| :: Untouched(t, u, sources[j])
  }

  lemma WaitingStep(t: Tree, a: Tree, b: Tree, sources: seq<Path>, i: nat, target: Path, policy: ConflictPolicy,
          step: Option<Step>)
    requires Waiting(t, a, sources, i) && i < |sources| && DistinctPaths(sources) && Separate(SourceSet(sources), target)
    requires Closed(a) && Effect(a, b, step) && sources[i] != []
    requires step.Some? ==>
               && step.value.source == sources[i] && Entry(target, step.value.stage)
               && Lands(a, target, policy, sources[i], step.value.undo)
    ensures Waiting(t, b, sources, i + 1)
  {
    hide Closed, Fits, Lands, Separate, Untouched;
    forall j | i + 1 <= j < |sources| ensures Untouched(t, b, sources[j]) {
      assert Untouched(t, a, sources[j]);
      if step.Some? {
        StepLeaves(a, b, step.value, SourceSet(sources), target, policy, sources[j]);
        UntouchedTransitive(t, a, b, sources[j]);
      }
    }
  }

  lemma WaitingStart(t: Tree, sources: seq<Path>)
    ensures Waiting(t, t, sources, 0)
  {
  }

  /** Of the first n steps one has taken the item at p away. */
  predicate Taken(steps: seq<Step>, n: nat, p: Path)
    requires n <= |steps|
  {
    exists k :: 0 <= k < n && steps[k].source == p && !Stays(steps[k].undo)
  }

  /** A source is gone when a step has taken it away; else nothing at it or below it has changed. */
  ghost predicate Fate(t: Tree, u: Tree, steps: seq<Step>, n: nat, p: Path)
    requires n <= |steps|
  {
    if Taken(steps, n, p) then Gone(u, p) else Untouched(t, u, p)
  }

  lemma {:induction false} FateOf(request: TransferRequest, states: seq<Tree>, steps: seq<Step>, t: Tree, n: nat, i: nat)
    requires SeparateSources(request) && InOrder(t, request.sources, steps, |request.sources|) && i < |request.sources|
    requires Chain(states, steps, request.targetDir, request.conflictPolicy) && n <= |steps| == |states| - 1
    ensures Fate(states[0], states[n], steps, n, request.sources[i])
  {
    hide Chain, InOrder, SeparateSources, Untouched, Gone, Fits, Lands, Leads;
    var p := request.sources[i];
    if n == 0 {
      UntouchedItself(states, steps, request, p);
    } else {
      FateOf(request, states, steps, t, n - 1, i);
      var a, b, step := states[n - 1], states[n], steps[n - 1];
      StepOfRun(request, states, steps, t, n - 1, i);
      if step.source == p {
        StepTakes(a, b, step, SourceSet(request.sources), request.targetDir, request.conflictPolicy);
        if Stays(step.undo) { UntouchedTransitive(states[0], a, b, p); }
      } else {
        StepLeaves(a, b, step, SourceSet(request.sources), request.targetDir, request.conflictPolicy, p);
        if Taken(steps, n - 1, p) { GoneStays(a, b, p); } else { UntouchedTransitive(states[0], a, b, p); }
      }
    }
  }

  lemma UntouchedItself(states: seq<Tree>, steps: seq<Step>, request: TransferRequest, p: Path)
    requires Chain(states, steps, request.targetDir, request.conflictPolicy)
    ensures |states| == |steps| + 1 && Untouched(states[0], states[0], p)
  {
  }

  lemma GoneStays(a: Tree, b: Tree, p: Path)
    requires Gone(a, p) && Untouched(a, b, p)
    ensures Gone(b, p)
  {
  }

  /** A step of the run, and that none before it was for the same source. */
  lemma StepOfRun(request: TransferRequest, states: seq<Tree>, steps: seq<Step>, t: Tree, k: nat, i: nat)
    requires SeparateSources(request) && InOrder(t, request.sources, steps, |request.sources|) && i < |request.sources|
    requires Chain(states, steps, request.targetDir, request.conflictPolicy) && k < |steps|
    ensures |states| == |steps| + 1 && Separate(SourceSet(request.sources), request.targetDir)
    ensures var a, b, step := states[k], states[k + 1], steps[k];
            && Closed(a) && Fits(a, b, step) && step.source != [] && Entry(request.targetDir, step.stage)
            && Lands(a, request.targetDir, request.conflictPolicy, step.source, step.undo)
            && step.source in SourceSet(request.sources) && request.sources[i] in SourceSet(request.sources)
            && (step.source == request.sources[i] ==> !Taken(steps, k, step.source))
  {
    hide Closed, Fits, Lands, Separate, TreeBytes;
    assert Leads(states[k], states[k + 1], steps[k], request.targetDir, request.conflictPolicy);
  }

  /** What becomes of every source. */
  ghost predicate Fates(t: Tree, u: Tree, request: TransferRequest, steps: seq<Step>) {
    forall i | 0 <= i < |request.sources| :: Fate(t, u, steps, |steps|, request.sources[i])
  }

  lemma FatesOf(request: TransferRequest, states: seq<Tree>, steps: seq<Step>, t: Tree)
    requires SeparateSources(request) && InOrder(t, request.sources, steps, |request.sources|)
    requires Chain(states, steps, request.targetDir, request.conflictPolicy)
    ensures |states| == |steps| + 1 && Fates(states[0], states[|steps|], request, steps)
  {
    UntouchedItself(states, steps, request, request.targetDir);
    hide Chain, InOrder, SeparateSources, Fate;
    forall i | 0 <= i < |request.sources| ensures Fate(states[0], states[|steps|], steps, |steps|, request.sources[i]) {
      FateOf(request, states, steps, t, |steps|, i);
    }
  }

  ghost predicate AllLeft(t: Tree, u: Tree, sources: seq<Path>) {
    forall s | s in sources :: Untouched(t, u, s)
  }

  /** Every source completed without an error is away from its old place, and the log says that it was moved. */
  predicate AllMoved(u: Tree, report: TransferReport, steps: seq<Step>) {
    forall i | 0 <= i < |steps| && steps[i].source !in report.errors ::
      (steps[i].undo.Moved? || steps[i].undo.ReplacedMove?) && Gone(u, steps[i].source)
  }

  /** In particular a copy leaves all its sources as they were. */
  lemma CopyLeavesSources(t: Tree, u: Tree, request: TransferRequest, report: TransferReport, steps: seq<Step>)
    requires Fates(t, u, request, steps) && AsAsked(request.operation, report, steps) && request.operation == Copy
    ensures AllLeft(t, u, request.sources)
  {
    hide Untouched;
    forall s | s in request.sources ensures Untouched(t, u, s) {
      var i :| 0 <= i < |request.sources| && request.sources[i] == s;
      assert Fate(t, u, steps, |steps|, s);
    }
  }

  /** And a move has every source it completed without an error away from its old place. */
  lemma MoveTakesSources(t: Tree, u: Tree, request: TransferRequest, report: TransferReport, steps: seq<Step>)
    requires Fates(t, u, request, steps) && AsAsked(request.operation, report, steps) && request.operation == Move
    requires InOrder(t, request.sources, steps, |request.sources|)
    ensures AllMoved(u, report, steps)
  {
    hide Gone, TreeBytes;
    forall i | 0 <= i < |steps| && steps[i].source !in report.errors
      ensures (steps[i].undo.Moved? || steps[i].undo.ReplacedMove?) && Gone(u, steps[i].source)
    {
      assert Taken(steps, |steps|, steps[i].source);
      assert Fate(t, u, steps, |steps|, request.sources[steps[i].index]);
    }
  }

  /** In no state of the run all the names tried are taken. */
  ghost predicate RoomAlways(states: seq<Tree>, request: TransferRequest, isText: Name -> bool) {
    forall t, s | t in states && s in request.sources && s != [] :: RoomFor(t, s, request, isText)
  }

  ghost predicate RoomFor(t: Tree, s: Path, request: TransferRequest, isText: Name -> bool)
    requires s != []
  {
    !Crowded(t, Destination(request.targetDir, s), request.conflictPolicy, isText)
  }

  ghost predicate SeparateSources(request: TransferRequest) {
    Separate(SourceSet(request.sources), request.targetDir) && DistinctPaths(request.sources)
  }

  /** Every source looked at was completed or skipped. */
  predicate Smooth(report: TransferReport, i: nat) { report.errors == [] && report.completed + report.skipped == i }

  /** What holds between the turns: u is the tree, i sources have been looked at. */
  ghost predicate SoFar(t: Tree, request: TransferRequest, u: Tree, report: TransferReport,
                        steps: seq<Step>, states: seq<Tree>, i: nat, clean: bool)
  {
    && i <= |request.sources| && InOrder(t, request.sources, steps, i) && Accounts(report, steps)
    && StepBytes(steps) <= TotalBytes(t, request.sources[..i])
    && report.completed + report.skipped + |report.errors| >= i
    && AsAsked(request.operation, report, steps)
    && (clean ==>
          && Chain(states, steps, request.targetDir, request.conflictPolicy)
          && states[0] == t && states[|steps|] == u
          && (SeparateSources(request) ==> Waiting(t, u, request.sources, i)))
  }

  lemma SoFarStart(t: Tree, request: TransferRequest, report: TransferReport)
    requires report == TransferReport(0, 0, 0, false, [], []) && Closed(t)
    ensures Smooth(report, 0)
    ensures SoFar(t, request, t, report, [], [t], 0, true)
  {
    NoSteps(t, request.sources);
    WaitingStart(t, request.sources);
  }

  function Grown(steps: seq<Step>, step: Option<Step>): seq<Step> {
    if step.Some? then steps + [step.value] else steps
  }

  lemma InOrderNext(t: Tree, sources: seq<Path>, steps: seq<Step>, i: nat, step: Option<Step>)
    requires i < |sources| && InOrder(t, sources, steps, i)
    requires step.Some? ==>
               step.value.index == i && step.value.source == sources[i] && step.value.bytes == TreeBytes(t, sources[i])
    ensures InOrder(t, sources, Grown(steps, step), i + 1)
  {
    hide TreeBytes;
  }

  lemma AccountsNext(operation: TransferOperation, before: TransferReport, report: TransferReport, steps: seq<Step>, flow: Flow, step: Option<Step>,
                     root: ScannedRoot, i: nat)
    requires Accounts(before, steps) && Reported(operation, before, report, flow, step, root, i)
    requires step.Some? ==> SaturatingAdd(StepBytes(steps), root.bytes) == StepBytes(steps) + root.bytes
    ensures Accounts(report, Grown(steps, step))
  {
    hide StepBytes, SaturatingAdd;
    if step.Some? { StepBytesAdd(steps, step.value); }
  }

  lemma SoFarNext(t: Tree, request: TransferRequest, a: Tree, b: Tree, before: TransferReport, report: TransferReport,
                  steps: seq<Step>, states: seq<Tree>, i: nat, clean: bool, well: bool, flow: Flow, step: Option<Step>,
                  root: ScannedRoot)
    requires SoFar(t, request, a, before, steps, states, i, clean) && i < |request.sources|
    requires Acceptable(t, request.targetDir, request.sources) && Closed(a) && Closed(b)
    requires IsDir(a, request.targetDir) && IsDir(b, request.targetDir)
    requires root.path == request.sources[i] && root.bytes == TreeBytes(t, root.path)
    requires Reported(request.operation, before, report, flow, step, root, i) && (well ==> Effect(a, b, step))
    requires root.path != []
    requires step.Some? ==>
               && Lands(a, request.targetDir, request.conflictPolicy, root.path, step.value.undo)
               && Entry(request.targetDir, step.value.stage) && !Entry(request.targetDir, root.path)
    ensures SoFar(t, request, b, report, Grown(steps, step),
                  if step.Some? then states + [b] else states, if flow.Continue? then i + 1 else i, clean && well)
    ensures report.cancelled <==> flow.Break?
    ensures Smooth(before, i) && |report.errors| <= |before.errors| && flow.Continue? ==> Smooth(report, i + 1)
  {
    hide Closed, Fits, Lands, TreeBytes, TotalBytes, StepBytes, Transferable, SaturatingAdd, Waiting, Separate,
      DistinctPaths, Acceptable, InOrder, Accounts, Chain, AsAsked;
    AcceptableSources(t, request.targetDir, request.sources);
    TotalFits(t, request.sources, i, StepBytes(steps));
    if step.Some? { StepBytesAdd(steps, step.value); }
    InOrderNext(t, request.sources, steps, i, step);
    AsAskedNext(request.operation, before, report, steps, flow, step, root, i);
    AccountsNext(request.operation, before, report, steps, flow, step, root, i);
    if clean && well {
      if step.Some? { ChainAdd(states, steps, request.targetDir, request.conflictPolicy, b, step.value); }
      if SeparateSources(request) {
        WaitingStep(t, a, b, request.sources, i, request.targetDir, request.conflictPolicy, step);
      }
    }
  }

  lemma SoFarMeans(t: Tree, request: TransferRequest, u: Tree, report: TransferReport,
                   steps: seq<Step>, states: seq<Tree>, i: nat, clean: bool)
    requires SoFar(t, request, u, report, steps, states, i, clean)
    ensures Accounts(report, steps) && InOrder(t, request.sources, steps, |request.sources|)
    ensures AsAsked(request.operation, report, steps)
    ensures clean ==>
              Chain(states, steps, request.targetDir, request.conflictPolicy) && states[0] == t && states[|steps|] == u
    ensures report.completed + report.skipped + |report.errors| >= i
    ensures clean && SeparateSources(request) ==>
              && Fates(t, u, request, steps)
              && (if request.operation == Copy then AllLeft(t, u, request.sources) else AllMoved(u, report, steps))
  {
    if clean && SeparateSources(request) {
      InOrderLater(t, request.sources, steps, i);
      hide SoFar, Chain, InOrder, SeparateSources, AsAsked, Fates, AllLeft, AllMoved;
      FatesOf(request, states, steps, t);
      if request.operation == Copy {
        CopyLeavesSources(t, u, request, report, steps);
      } else {
        MoveTakesSources(t, u, request, report, steps);
      }
    }
  }

  lemma InOrderLater(t: Tree, sources: seq<Path>, steps: seq<Step>, i: nat)
    requires i <= |sources| && InOrder(t, sources, steps, i)
    ensures InOrder(t, sources, steps, |sources|)
  {
  }

  /** The source whose turn it is can be copied, and there is a name for it. */
  lemma Ready(t: Tree, u: Tree, request: TransferRequest, isText: Name -> bool, report: TransferReport,
              steps: seq<Step>, states: seq<Tree>, i: nat)
    requires SoFar(t, request, u, report, steps, states, i, true) && i < |request.sources|
    requires SeparateSources(request) && RoomAlways(states, request, isText)
    requires Acceptable(t, request.targetDir, request.sources) && request.sources[i] != []
    ensures Copyable(u, request.sources[i])
    ensures !Crowded(u, Destination(request.targetDir, request.sources[i]), request.conflictPolicy, isText)
  {
    AcceptableCopyable(t, request.targetDir, request.sources, i);
    WaitingNow(t, u, request.sources, i);
    assert u in states;
    RoomNow(states, request, isText, u, request.sources[i]);
  }

  /** The loop over the sources. */
  method RunRoots(fs: FileSystem, cancelled: CancelFlag, request: TransferRequest, isText: Name -> bool,
          roots: seq<ScannedRoot>)
    returns (r: Result<TransferReport, TransferError>,
             ghost steps: seq<Step>, ghost states: seq<Tree>, ghost clean: bool, ghost looked: nat)
    requires fs.Valid() && fs.target == request.targetDir && fs.sources == SourceSet(request.sources)
    requires Acceptable(fs.tree, request.targetDir, request.sources) && |roots| == |request.sources|
    requires Scanned(fs.tree, request.sources, roots) && Measured(fs.tree, roots)
    modifies fs, cancelled
    ensures fs.Valid() && fs.Framed() && cancelled.Monotone() && (clean || fs.Troubled())
    ensures fs.stuck == (old(fs.stuck) || !clean)
    ensures r.Ok? ==>
              && SoFar(old(fs.tree), request, fs.tree, r.value, steps, states, looked, clean)
              && (if r.value.cancelled then cancelled.raised || fs.Troubled() else looked == |request.sources|)
    ensures old(cancelled.raised) ==> steps == [] && fs.history == old(fs.history)
    ensures r.Err? && clean ==> exists report :: SoFar(old(fs.tree), request, fs.tree, report, steps, states, looked, clean)
    ensures !cancelled.raised && !fs.Troubled() && SeparateSources(request) && RoomAlways(states, request, isText) ==>
              r.Ok? && Smooth(r.value, |request.sources|)
  {
    hide Closed, Coherent, Ledger, NothingLost, FileSystem.Valid, FileSystem.Spare, Fits, Lands, Acceptable,
      TreeBytes, SaturatingAdd, Crowded, Copyable, SeparateSources, RoomAlways, SoFar, Reported, Smooth, Effect,
      Scanned, Measured, SourceSet, IsDir, Destination, Entry, Separate;
    ghost var t := fs.tree;
    steps, states, clean, looked := [], [t], true, 0;
    AcceptableSources(t, fs.target, request.sources);
    var report := TransferReport(0, 0, 0, false, [], []);
    fs.IsSound();
    SoFarStart(t, request, report);
    var context := new CopyContext(cancelled);
    var i := 0;
    while i < |roots|
      invariant i == looked <= |roots| && fs.Valid() && fs.Framed() && cancelled.Monotone()
      invariant context.cancelled == cancelled && fresh(context)
      invariant fs.target == request.targetDir && fs.sources == SourceSet(request.sources)
      invariant IsDir(fs.tree, fs.target) && !report.cancelled && (clean || fs.Troubled())
      invariant fs.stuck == (old(fs.stuck) || !clean)
      invariant SoFar(t, request, fs.tree, report, steps, states, i, clean)
      invariant !cancelled.raised && !fs.Troubled() && SeparateSources(request) && RoomAlways(states, request, isText) ==>
                  Smooth(report, i)
      invariant old(cancelled.raised) ==> i == 0 && steps == [] && fs.history == old(fs.history)
    {
      ghost var before, known, was := fs.tree, states, report;
      fs.IsSound();
      RootIs(t, request.sources, roots, i);
      if SeparateSources(request) && RoomAlways(known, request, isText) && clean {
        Ready(t, before, request, isText, report, steps, states, i);
      }
      var flow; ghost var step, well;
      report, flow, step, well := RunRoot(fs, context, request, isText, roots[i], report, i);
      fs.IsSound();
      SoFarNext(t, request, before, fs.tree, was, report, steps, states, i, clean, well, flow, step, roots[i]);
      steps, states := Grown(steps, step), if step.Some? then states + [fs.tree] else states;
      RoomBefore(known, states, request, isText);
      clean := clean && well;
      if flow.Continue? { looked := looked + 1; }
      if flow.Return? { return Err(flow.error), steps, states, clean, looked; }
      if flow.Break? { break; }
      i := i + 1;
    }
    r := Ok(report);
  }

  lemma RootIs(t: Tree, sources: seq<Path>, roots: seq<ScannedRoot>, i: nat)
    requires |roots| == |sources| && Scanned(t, sources, roots) && Measured(t, roots) && i < |roots|
    ensures roots[i].path == sources[i] && roots[i].bytes == TreeBytes(t, roots[i].path) && sources[i] in SourceSet(sources)
  {
  }

  /** A whole transfer. Whatever calls fail and wherever it is cancelled: the recorded states lead from the first
      tree to the last, one call at a time, and none of them has lost anything; the report counts and sums the
      completed sources exactly; and `clean`, which fails only with a call that was to undo something unfinished,
      each logged step leads from one state of the chain to the next. */
  method RunTransfer(fs: FileSystem, cancelled: CancelFlag, request: TransferRequest, isText: Name -> bool)
    returns (r: Result<TransferReport, TransferError>,
             ghost steps: seq<Step>, ghost states: seq<Tree>, ghost clean: bool)
    requires Closed(fs.tree) && Coherent(fs.tree)
    modifies fs, cancelled
    ensures fs.Valid() && cancelled.Monotone()
    ensures fs.initial == old(fs.tree) && fs.target == request.targetDir && fs.sources == SourceSet(request.sources)
    ensures r.Ok? ==>
              Accounts(r.value, steps) && InOrder(old(fs.tree), request.sources, steps, |request.sources|)
    ensures r.Ok? && !r.value.cancelled ==>
              r.value.completed + r.value.skipped + |r.value.errors| >= |request.sources|
    ensures (clean || fs.Troubled()) && (clean <==> !fs.stuck)
    ensures Trace(old(fs.tree), fs.history, fs.tree)
    ensures forall t | t in fs.history :: NothingLost(old(fs.tree), t, fs.sources, fs.target)
    ensures SeparateSources(request) ==> forall t | t in fs.history :: AllStand(old(fs.tree), t, fs.sources, fs.target)
    ensures clean ==>
              && Chain(states, steps, fs.target, request.conflictPolicy)
              && states[0] == old(fs.tree) && states[|steps|] == fs.tree
    ensures r.Ok? ==> AsAsked(request.operation, r.value, steps)
    ensures clean && SeparateSources(request) ==> Fates(old(fs.tree), fs.tree, request, steps)
    ensures clean && SeparateSources(request) && request.operation == Copy ==>
              AllLeft(old(fs.tree), fs.tree, request.sources)
    ensures clean && SeparateSources(request) && request.operation == Move && r.Ok? ==> AllMoved(fs.tree, r.value, steps)
    ensures r.Ok? && r.value.cancelled ==> cancelled.raised || fs.Troubled()
    ensures old(cancelled.raised) ==> steps == [] && fs.history == []
    ensures Acceptable(old(fs.tree), request.targetDir, request.sources) && !cancelled.raised && !fs.Troubled()
            && SeparateSources(request) && RoomAlways(states, request, isText) ==>
              r.Ok? && Smooth(r.value, |request.sources|)
  {
    hide Closed, Coherent, Ledger, NothingLost, FileSystem.Valid, Fits, Lands, Acceptable, SeparateSources,
      RoomAlways, SoFar, Chain, InOrder, Accounts, Smooth, Trace, AllStand, AsAsked, Fates, AllLeft, AllMoved;
    SeparateMeans(request);
    fs.Begin(SourceSet(request.sources), request.targetDir);
    ghost var t := fs.tree;
    steps, states, clean := [], [t], true;
    ghost var nothing := TransferReport(0, 0, 0, false, [], []);
    fs.IsSound();
    SoFarStart(t, request, nothing);
    SoFarMeans(t, request, t, nothing, steps, states, 0, true);
    var preflight := Preflight(fs, cancelled, request.sources, request.targetDir);
    if preflight.Err? {
      HistoryMeans(fs);
      return Err(preflight.error), steps, states, clean;
    }
    ghost var looked;
    r, steps, states, clean, looked := RunRoots(fs, cancelled, request, isText, preflight.value);
    HistoryMeans(fs);
    if r.Ok? {
      SoFarMeans(t, request, fs.tree, r.value, steps, states, looked, clean);
    } else if clean {
      var report :| SoFar(t, request, fs.tree, report, steps, states, looked, clean);
      SoFarMeans(t, request, fs.tree, report, steps, states, looked, clean);
    }
  }

  lemma SeparateMeans(request: TransferRequest)
    ensures SeparateSources(request) ==> Separate(SourceSet(request.sources), request.targetDir)
  {
  }

  lemma WaitingNow(t: Tree, u: Tree, sources: seq<Path>, i: nat)
    requires Waiting(t, u, sources, i) && i < |sources| && Copyable(t, sources[i])
    ensures Copyable(u, sources[i])
  {
    UntouchedCopyable(t, u, sources[i]);
  }

  lemma RoomNow(states: seq<Tree>, request: TransferRequest, isText: Name -> bool, t: Tree, s: Path)
    requires RoomAlways(states, request, isText) && t in states && s in request.sources && s != []
    ensures !Crowded(t, Destination(request.targetDir, s), request.conflictPolicy, isText)
  {
    assert RoomFor(t, s, request, isText);
  }

  lemma RoomBefore(known: seq<Tree>, states: seq<Tree>, request: TransferRequest, isText: Name -> bool)
    requires known <= states
    ensures RoomAlways(states, request, isText) ==> RoomAlways(known, request, isText)
  {
    forall t | t in known ensures t in states {
      var k :| 0 <= k < |known| && known[k] == t;
      assert states[k] == t;
    }
  }

  lemma NoSteps(t: Tree, sources: seq<Path>)
    ensures StepBytes([]) == 0 && TotalBytes(t, sources[..0]) == 0
  {
    assert sources[..0] == [];
  }

  lemma AcceptableSources(t: Tree, target: Path, sources: seq<Path>)
    requires Acceptable(t, target, sources)
    ensures IsDir(t, target) && TotalBytes(t, sources) <= U64_MAX && sources != []
    ensures forall i | 0 <= i < |sources| :: !(sources[i] <= target) && sources[i] != []
  {
    forall i | 0 <= i < |sources| ensures !(sources[i] <= target) && sources[i] != [] {
      assert AcceptableSource(t, target, sources, i);
    }
  }
}

/** `commit_stage`, the choice of free names, and the taking back of what was staged. */
module TransferCommit {
  import opened Basics
  import opened Numerals
  import opened Paths
  import opened TransferTree
  import opened TransferDisk
  import opened TransferScan
  import opened TransferCopy
  import opened TransferSteps

  const SIBLING_ATTEMPTS := 1000
  const COPY_NAMES := 10_000
  const DOT: Byte := 46

  datatype ConflictPolicy = Replace | Skip | KeepBoth

  datatype CommitResult = Committed(destination: Path, backup: Option<Path>) | Skipped

  function Ascii(text: string): seq<Byte> {
    seq(|text|, i requires 0 <= i < |text| => (text[i] as int) % 256)
  }

  predicate Entry(target: Path, p: Path) { p != [] && Parent(p) == target }

  // ---- Names

  /** A private name; `stamp` holds the process and the time. */
  function SiblingName(stamp: Name, attempt: nat, suffix: Name): Name {
    Ascii(".focaldesk-transfer-") + stamp + Ascii("-") + Digits(attempt, 10) + Ascii("-") + suffix
  }

  /** The time in a private name is not one that the item's own name shows. */
  predicate StampFits(stamp: Name, own: Name, suffix: Name) {
    forall attempt: nat | attempt < SIBLING_ATTEMPTS :: SiblingName(stamp, attempt, suffix) != own
  }

  lemma StampExists(own: Name, suffix: Name)
    ensures StampFits(own, own, suffix)
  {
    forall attempt: nat ensures SiblingName(own, attempt, suffix) != own {
      assert |SiblingName(own, attempt, suffix)| > |own|;
    }
  }

  ghost predicate NoSibling(t: Tree, path: Path, suffix: Name)
    requires path != []
  {
    exists stamp :: SiblingsTaken(t, Parent(path), stamp, suffix, SIBLING_ATTEMPTS)
  }

  predicate SiblingsTaken(t: Tree, parent: Path, stamp: Name, suffix: Name, count: nat) {
    forall attempt: nat | attempt < count :: parent + [SiblingName(stamp, attempt, suffix)] in t
  }

  lemma NoneLeft(t: Tree, path: Path, stamp: Name, suffix: Name)
    requires path != [] && SiblingsTaken(t, Parent(path), stamp, suffix, SIBLING_ATTEMPTS)
    ensures NoSibling(t, path, suffix)
  {
  }

  method UniqueSibling(fs: FileSystem, path: Path, suffix: Name) returns (sibling: Option<Path>)
    requires path != []
    ensures sibling.Some? ==> Entry(Parent(path), sibling.value) && sibling.value !in fs.tree && sibling.value != path
    ensures sibling.None? ==> NoSibling(fs.tree, path, suffix)
  {
    var stamp: Name := *;
    if !StampFits(stamp, path[|path| - 1], suffix) { stamp := path[|path| - 1]; }
    StampExists(path[|path| - 1], suffix);
    hide SiblingName;
    for attempt := 0 to SIBLING_ATTEMPTS
      invariant SiblingsTaken(fs.tree, Parent(path), stamp, suffix, attempt)
    {
      var candidate := Parent(path) + [SiblingName(stamp, attempt, suffix)];
      if candidate !in fs.tree {
        assert SiblingName(stamp, attempt, suffix) != path[|path| - 1];
        return Some(candidate);
      }
    }
    NoneLeft(fs.tree, path, stamp, suffix);
    sibling := None;
  }

  /** The last dot of a name that is not its first byte separates the extension. */
  function ExtensionDot(name: Name, end: nat): (dot: Option<nat>)
    requires end <= |name|
    ensures dot.Some? ==> 0 < dot.value < end && name[dot.value] == DOT
    ensures dot.Some? ==> forall k | dot.value < k < end :: name[k] != DOT
    ensures dot.None? ==> forall k | 0 < k < end :: name[k] != DOT
  {
    if end <= 1 then None
    else if name[end - 1] == DOT then Some(end - 1)
    else ExtensionDot(name, end - 1)
  }

  /** `{stem} copy {index}` with the extension after it; `isText` tells which bytes are UTF-8. */
  function CopyName(name: Name, index: nat, isText: Name -> bool): Name {
    var dot := ExtensionDot(name, |name|);
    var stem := if dot.Some? then name[..dot.value] else name;
    var copy := (if isText(stem) then stem else Ascii("Item")) + Ascii(" copy ") + Digits(index, 10);
    if dot.Some? && isText(name[dot.value + 1..]) && name[dot.value + 1..] != []
    then copy + [DOT] + name[dot.value + 1..]
    else copy
  }

  /** " copy " and the number. */
  function CopySuffix(index: nat): Name { [32, 99, 111, 112, 121, 32] + Digits(index, 10) }

  /** The copy of a name with an extension has the number before the extension; of any other name at its end. */
  lemma CopyNameKeepsExtension(stem: Name, extension: Name, index: nat, isText: Name -> bool)
    requires stem != [] && extension != [] && DOT !in extension && isText(stem) && isText(extension)
    ensures CopyName(stem + [DOT] + extension, index, isText) == stem + CopySuffix(index) + [DOT] + extension
  {
    hide ExtensionDot, Digits;
    DotFound(stem, extension);
    assert Ascii(" copy ") == [32, 99, 111, 112, 121, 32];
    hide Ascii;
  }

  lemma DotFound(stem: Name, extension: Name)
    requires stem != [] && DOT !in extension
    ensures var name := stem + [DOT] + extension;
            && ExtensionDot(name, |name|) == Some(|stem|) && name[..|stem|] == stem && name[|stem| + 1..] == extension
  {
    hide ExtensionDot;
    var name := stem + [DOT] + extension;
    assert name[|stem|] == DOT;
    forall k | |stem| < k < |name| ensures name[k] != DOT {
      assert name[k] == extension[k - |stem| - 1];
    }
  }

  lemma CopyNameAtEnd(name: Name, index: nat, isText: Name -> bool)
    requires isText(name) && forall k | 0 < k < |name| :: name[k] != DOT
    ensures CopyName(name, index, isText) == name + CopySuffix(index)
  {
    assert ExtensionDot(name, |name|).None?;
    assert Ascii(" copy ") == [32, 99, 111, 112, 121, 32];
  }

  /** The copy names of an item are all different. */
  lemma CopyNamesDiffer(name: Name, i: nat, j: nat, isText: Name -> bool)
    requires CopyName(name, i, isText) == CopyName(name, j, isText)
    ensures i == j
  {
    var dot := ExtensionDot(name, |name|);
    var stem := if dot.Some? then name[..dot.value] else name;
    var front := (if isText(stem) then stem else Ascii("Item")) + Ascii(" copy ");
    var back := if dot.Some? && isText(name[dot.value + 1..]) && name[dot.value + 1..] != []
                then [DOT] + name[dot.value + 1..] else [];
    hide ExtensionDot, Digits, Ascii;
    assert CopyName(name, i, isText) == front + Digits(i, 10) + back;
    assert CopyName(name, j, isText) == front + Digits(j, 10) + back;
    Between(front, Digits(i, 10), Digits(j, 10), back);
    ValueOfDigits(i, 10);
    ValueOfDigits(j, 10);
  }

  lemma Between(front: Name, a: Name, b: Name, back: Name)
    requires front + a + back == front + b + back
    ensures a == b
  {
    assert |a| == |b|;
    forall k | 0 <= k < |a| ensures a[k] == b[k] {
      assert (front + a + back)[|front| + k] == a[k] && (front + b + back)[|front| + k] == b[k];
    }
  }

  function CopyPath(path: Path, index: nat, isText: Name -> bool): Path
    requires path != []
  {
    Parent(path) + [CopyName(path[|path| - 1], index, isText)]
  }

  /** The first copy name that is free. */
  ghost predicate FirstFree(t: Tree, path: Path, isText: Name -> bool, p: Path)
    requires path != []
  {
    exists index: nat {:trigger CopyPath(path, index, isText)} | 1 <= index <= COPY_NAMES && p == CopyPath(path, index, isText) ::
      p !in t && forall k: nat | 1 <= k < index :: CopyPath(path, k, isText) in t
  }

  ghost predicate AllTaken(t: Tree, path: Path, isText: Name -> bool)
    requires path != []
  {
    forall k: nat | 1 <= k <= COPY_NAMES :: CopyPath(path, k, isText) in t
  }

  method AvailableDestination(fs: FileSystem, path: Path, isText: Name -> bool) returns (free: Option<Path>)
    requires path != []
    ensures free.Some? ==> FirstFree(fs.tree, path, isText, free.value)
    ensures free.None? ==> AllTaken(fs.tree, path, isText)
  {
    hide CopyName;
    var index := 1;
    while index <= COPY_NAMES
      invariant 1 <= index <= COPY_NAMES + 1
      invariant forall k: nat | 1 <= k < index :: CopyPath(path, k, isText) in fs.tree
    {
      var candidate := CopyPath(path, index, isText);
      if candidate !in fs.tree { return Some(candidate); }
      index := index + 1;
    }
    free := None;
  }

  // ---- Spots in the target directory

  lemma SiblingsApart(a: Path, b: Path)
    requires a != [] && b != [] && Parent(a) == Parent(b) && a != b
    ensures Apart(a, b)
  {
    assert a == Parent(a) + [a[|a| - 1]] && b == Parent(b) + [b[|b| - 1]];
  }

  /** A rename within the target directory can only fail by itself. */
  lemma EntryRename(t: Tree, target: Path, from: Path, to: Path)
    requires IsDir(t, target) && Entry(target, from) && Entry(target, to) && from in t && to !in t
    ensures CanRename(t, from, to) && Apart(from, to)
  {
    SiblingsApart(from, to);
  }

  lemma EntryRenamed(t: Tree, target: Path, from: Path, to: Path)
    requires Closed(t) && IsDir(t, target) && Entry(target, from) && Entry(target, to) && from in t && to !in t
    ensures Apart(from, to)
    ensures var u := Renamed(t, from, to);
            && Closed(u) && IsDir(u, target) && from !in u && to in u
            && forall p | Entry(target, p) && p != from && p != to :: p in u <==> p in t
  {
    EntryRename(t, target, from, to);
    RenameClosed(t, from, to);
    TargetKept(t, target, from, to);
    forall p | Entry(target, p) && p != from && p != to ensures p in Renamed(t, from, to) <==> p in t {
      SiblingsApart(p, from);
      SiblingsApart(p, to);
      RenamedAt(t, from, to, p);
    }
  }

  lemma TargetKept(t: Tree, target: Path, from: Path, to: Path)
    requires IsDir(t, target) && Apart(from, to) && !(from <= target) && !(to <= target)
    ensures IsDir(Renamed(t, from, to), target)
  {
    RenamedAt(t, from, to, target);
  }

  /** Relocating between paths that list nothing changes nothing. */
  lemma RelocatedSame(where: map<Path, Path>, from: Path, to: Path)
    requires forall q | q in where.Values :: !(from <= q) && !(to <= q)
    ensures Relocated(where, from, to) == where
  {
    forall p | p in where ensures Swap(where[p], from, to) == where[p] {
      assert where[p] in where.Values;
    }
  }

  // ---- commit_stage

  /** What a commit that succeeds has done. */
  ghost predicate CommittedTo(t: Tree, u: Tree, stage: Path, requested: Path, policy: ConflictPolicy,
          isText: Name -> bool,
                              destination: Path, backup: Option<Path>)
    requires requested != []
  {
    match backup
    case None =>
      && Apart(stage, destination) && destination !in t && u == Renamed(t, stage, destination)
      && (if requested in t
          then policy == KeepBoth && FirstFree(t, requested, isText, destination)
          else destination == requested)
    case Some(k) =>
      && policy == Replace && destination == requested && requested in t && k !in t
      && Apart(stage, requested) && Apart(stage, k) && Apart(requested, k) && Entry(Parent(requested), k)
      && u == Renamed(Renamed(t, requested, k), stage, requested)
  }

  /** Moves the stage into place. When it cannot, everything is as before unless the rollback failed too. */
  method CommitStage(fs: FileSystem, stage: Path, requested: Path, policy: ConflictPolicy, isText: Name -> bool)
    returns (r: Result<CommitResult, TransferError>, ghost clean: bool)
    requires fs.Valid() && IsDir(fs.tree, fs.target) && Entry(fs.target, stage) && Entry(fs.target, requested)
    requires stage in fs.tree && stage != requested
    modifies fs
    ensures fs.Valid() && fs.Framed() && IsDir(fs.tree, fs.target)
    ensures r.Ok? && r.value.Committed? ==>
              && CommittedTo(old(fs.tree), fs.tree, stage, requested, policy, isText, r.value.destination, r.value.backup)
              && Entry(fs.target, r.value.destination) && clean
              && fs.where == (match r.value.backup
                              case None => Relocated(old(fs.where), stage, r.value.destination)
                              case Some(k) => Relocated(Relocated(old(fs.where), requested, k), stage, requested))
    ensures r.Ok? && r.value.Skipped? ==> policy == Skip && requested in fs.tree && fs.tree == old(fs.tree) && clean
    ensures r.Err? ==> if clean then fs.tree == old(fs.tree) else LeftAside(old(fs.tree), fs.tree, requested)
    ensures r.Err? || r.value.Skipped? ==> (old(fs.Spare(stage)) ==> fs.Spare(stage))
    ensures !clean ==> fs.Troubled()
    ensures fs.stuck == (old(fs.stuck) || !clean)
    ensures r.Err? ==> fs.Troubled() || (requested in old(fs.tree) && NoNames(old(fs.tree), requested, policy, isText))
  {
    hide Closed, Coherent, Ledger, NothingLost, Renamed, Relocated, FirstFree, AllTaken, FileSystem.Valid, Apart,
      CanRename;
    clean := true;
    ghost var before := fs.tree;
    fs.IsSound();
    if requested !in fs.tree {
      EntryRename(before, fs.target, stage, requested);
      EntryRenamed(before, fs.target, stage, requested);
      var ok := fs.Rename(stage, requested, false);
      if !ok { return Err(Failed), clean; }
      return Ok(Committed(requested, None)), clean;
    }
    match policy
    case Skip =>
      r := Ok(Skipped);
    case KeepBoth =>
      var destination := AvailableDestination(fs, requested, isText);
      if destination.None? { return Err(Failed), clean; }
      FreeIsEntry(before, requested, isText, destination.value);
      EntryRename(before, fs.target, stage, destination.value);
      EntryRenamed(before, fs.target, stage, destination.value);
      var ok := fs.Rename(stage, destination.value, false);
      if !ok { return Err(Failed), clean; }
      r := Ok(Committed(destination.value, None));
    case Replace =>
      r, clean := CommitReplacing(fs, stage, requested, isText);
  }

  /** The item to be replaced was put aside and stays there. */
  ghost predicate LeftAside(t: Tree, u: Tree, requested: Path)
    requires requested != []
  {
    exists k :: k !in t && Entry(Parent(requested), k) && Apart(requested, k) && u == Renamed(t, requested, k)
  }

  ghost predicate NoNames(t: Tree, requested: Path, policy: ConflictPolicy, isText: Name -> bool)
    requires requested != []
  {
    match policy
    case Skip => false
    case KeepBoth => AllTaken(t, requested, isText)
    case Replace => NoSibling(t, requested, Ascii("replaced"))
  }

  lemma FreeIsEntry(t: Tree, path: Path, isText: Name -> bool, p: Path)
    requires path != [] && FirstFree(t, path, isText, p)
    ensures Entry(Parent(path), p) && p !in t
  {
    var index: nat :| p == CopyPath(path, index, isText);
    assert Parent(p) == Parent(path);
  }

  /** Puts the present item aside, then the stage in its place; if that fails, the item back. */
  method CommitReplacing(fs: FileSystem, stage: Path, requested: Path, isText: Name -> bool)
    returns (r: Result<CommitResult, TransferError>, ghost clean: bool)
    requires fs.Valid() && IsDir(fs.tree, fs.target) && Entry(fs.target, stage) && Entry(fs.target, requested)
    requires stage in fs.tree && stage != requested && requested in fs.tree
    modifies fs
    ensures fs.Valid() && fs.Framed() && IsDir(fs.tree, fs.target)
    ensures r.Ok? ==>
              && r.value.Committed? && r.value.backup.Some? && clean
              && CommittedTo(old(fs.tree), fs.tree, stage, requested, Replace, isText, r.value.destination, r.value.backup)
              && fs.where == Relocated(Relocated(old(fs.where), requested, r.value.backup.value), stage, requested)
    ensures r.Err? ==> if clean then fs.tree == old(fs.tree) else LeftAside(old(fs.tree), fs.tree, requested)
    ensures r.Err? ==> (old(fs.Spare(stage)) ==> fs.Spare(stage))
    ensures !clean ==> fs.Troubled()
    ensures fs.stuck == (old(fs.stuck) || !clean)
    ensures r.Err? ==> fs.Troubled() || NoSibling(old(fs.tree), requested, Ascii("replaced"))
  {
    hide Closed, Coherent, Ledger, NothingLost, Renamed, Relocated, FileSystem.Valid, Apart, CanRename, NoSibling;
    clean := true;
    ghost var before, where := fs.tree, fs.where;
    fs.IsSound();
    var sibling := UniqueSibling(fs, requested, Ascii("replaced"));
    if sibling.None? { return Err(Failed), clean; }
    var backup := sibling.value;
    EntryRename(before, fs.target, requested, backup);
    EntryRenamed(before, fs.target, requested, backup);
    SiblingsApart(stage, requested);
    SiblingsApart(stage, backup);
    var ok := fs.Rename(requested, backup, false);
    if !ok { return Err(Failed), clean; }
    ghost var aside := fs.tree;
    SpareAfter(where, requested, backup, stage);
    EntryRename(aside, fs.target, stage, requested);
    EntryRenamed(aside, fs.target, stage, requested);
    ok := fs.Rename(stage, requested, false);
    if ok { return Ok(Committed(requested, Some(backup))), clean; }
    EntryRename(aside, fs.target, backup, requested);
    EntryRenamed(aside, fs.target, backup, requested);
    RenamedTwice(before, requested, backup);
    RenamedSymmetric(aside, requested, backup);
    SpareAfter(fs.where, backup, requested, stage);
    clean := fs.Rename(backup, requested, true);
    r := Err(Failed);
  }

  lemma RenamedSymmetric(t: Tree, a: Path, b: Path)
    requires Apart(a, b)
    ensures Renamed(t, a, b) == Renamed(t, b, a)
  {
    forall q ensures Swap(q, a, b) == Swap(q, b, a) { ApartTrees(a, b, q); }
    forall q ensures (q in Renamed(t, a, b) <==> q in Renamed(t, b, a))
      ensures q in Renamed(t, a, b) ==> Renamed(t, a, b)[q] == Renamed(t, b, a)[q]
    {
      RenamedAt(t, a, b, q);
      RenamedAt(t, b, a, q);
    }
    SameTree(Renamed(t, a, b), Renamed(t, b, a));
  }

  lemma SpareAfter(where: map<Path, Path>, from: Path, to: Path, p: Path)
    requires Apart(from, to) && Apart(p, from) && Apart(p, to)
    ensures (forall q | q in where.Values :: !(p <= q)) ==> forall q | q in Relocated(where, from, to).Values :: !(p <= q)
  {
    if forall q | q in where.Values :: !(p <= q) {
      var next := Relocated(where, from, to);
      forall q | q in next.Values ensures !(p <= q) {
        var i :| i in next && next[i] == q;
        assert where[i] in where.Values;
        SwapKeepsOut(p, from, to, where[i]);
      }
    }
  }

  // ---- Taking back

  lemma RenamedBackPossible(a: Tree, s: Path, g: Path)
    requires Closed(a) && s in a && s != [] && g !in a && Apart(s, g)
    ensures CanRename(Renamed(a, s, g), g, s)
  {
    RenamedBelow(a, s, g, []);
    AtNone(s);
    AtNone(g);
    AbsentBelow(a, g);
    assert IsDir(a, Parent(s));
    RenamedBeside(a, s, g, Parent(s));
  }

  /** `let _ = rename(stage, source)`, or the removal of the copy: the tree is as before unless that fails. */
  method TakeBack(fs: FileSystem, stage: Path, source: Path, renamed: bool,
          ghost before: Tree) returns (ghost clean: bool)
    requires fs.Valid() && IsDir(fs.tree, fs.target) && !(source <= fs.target) && Entry(fs.target, stage)
    requires IsSpot(fs.sources, fs.target, source) && Apart(source, stage)
    requires if renamed then source !in fs.tree else fs.Spare(stage)
    modifies fs
    ensures fs.Valid() && fs.Framed() && IsDir(fs.tree, fs.target)
    ensures Closed(before) && Staged(before, old(fs.tree), source, stage, renamed) ==>
              if clean then fs.tree == before else fs.Troubled()
    ensures fs.stuck == (old(fs.stuck) || !clean)
  {
    hide Closed, Coherent, Ledger, NothingLost, Renamed, Relocated, FileSystem.Valid, CanRename, WithCopy;
    ghost var t := fs.tree;
    fs.IsSound();
    if renamed {
      TargetKept(t, fs.target, stage, source);
      if Closed(before) && Staged(before, t, source, stage, renamed) {
        RenamedTwice(before, source, stage);
        RenamedSymmetric(t, source, stage);
        RenamedBackPossible(before, source, stage);
      }
      clean := fs.Rename(stage, source, true);
    } else {
      clean := fs.RemovePath(stage, true);
      if Closed(before) && Staged(before, t, source, stage, renamed) { WithoutCopy(before, before, t, source, stage); }
    }
  }
}

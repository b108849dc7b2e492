/** The part of the file system an extraction works on, the record it keeps, and its cleanup. */
module ExtractionTree {
  import opened Basics
  import opened Paths
  import opened ArchivePaths

  datatype Node = Folder | Regular(content: seq<Byte>) | Other

  type Tree = map<Path, Node>

  /** A tree and the counters of an extraction. */
  datatype Progress = Progress(tree: Tree, created: seq<Path>, entries: nat, bytes: nat)

  /** Every path but the root lies in a folder. */
  predicate Closed(t: Tree) {
    forall p {:trigger Parent(p)} | p in t && p != [] :: Parent(p) in t && t[Parent(p)] == Folder
  }

  function WithPath(s: Progress, p: Path, n: Node): Progress {
    s.(tree := s.tree[p := n], created := s.created + [p])
  }

  /** Makes the directories `names` below `base` that are not there; each must be a folder, not a link. */
  function EnsureDirectory(s: Progress, base: Path, names: Path): Result<Progress, ArchiveError>
    decreases |names|
  {
    if names == [] then Ok(s)
    else
      var current := base + [names[0]];
      if current !in s.tree then EnsureDirectory(WithPath(s, current, Folder), current, names[1..])
      else if s.tree[current] == Folder then EnsureDirectory(s, current, names[1..])
      else Err(AlreadyExists)
  }

  // ---- What the record of created paths means

  /** Each path once, and none before a path it lies in. */
  predicate ParentsFirst(ps: seq<Path>) {
    forall i, j | 0 <= i < j < |ps| :: !(ps[j] <= ps[i])
  }

  /** The tree holds the paths from before, unchanged, and those of the record, and no others. */
  ghost predicate Holds(t0: Tree, t: Tree, created: seq<Path>) {
    && (forall p :: p in t <==> p in t0 || p in created)
    && (forall p | p in t0 :: t[p] == t0[p])
  }

  predicate NewBelow(t0: Tree, dest: Path, created: seq<Path>) {
    forall i | 0 <= i < |created| :: dest <= created[i] && created[i] !in t0
  }

  /** Against the tree t0 from before: the record holds exactly the new paths, all at or below the
      destination, each once, and none before a path it lies in. */
  ghost predicate Recorded(t0: Tree, dest: Path, s: Progress) {
    && Closed(s.tree)
    && dest in s.tree && s.tree[dest] == Folder
    && NewBelow(t0, dest, s.created)
    && ParentsFirst(s.created)
    && Holds(t0, s.tree, s.created)
  }

  lemma {:induction false} NothingBelowAbsent(t: Tree, p: Path, q: Path)
    requires Closed(t) && p !in t && p <= q
    ensures q !in t
    decreases |q|
  {
    if |q| > |p| && q in t {
      assert p <= Parent(q);
      NothingBelowAbsent(t, p, Parent(q));
    } else if |q| == |p| {
      assert p == q;
    }
  }

  lemma CreateClosed(t: Tree, p: Path, n: Node)
    requires Closed(t) && p !in t && p != [] && Parent(p) in t && t[Parent(p)] == Folder
    ensures Closed(t[p := n])
  {
    var u := t[p := n];
    forall q {:trigger Parent(q)} | q in u && q != [] ensures Parent(q) in u && u[Parent(q)] == Folder {
      if q != p { assert q in t; }
    }
  }

  lemma CreateParentsFirst(t: Tree, ps: seq<Path>, p: Path)
    requires Closed(t) && p !in t && ParentsFirst(ps) && forall q | q in ps :: q in t
    ensures ParentsFirst(ps + [p])
  {
    hide Closed;
    var qs := ps + [p];
    forall i, j | 0 <= i < j < |qs| ensures !(qs[j] <= qs[i]) {
      assert qs[i] == ps[i] && ps[i] in t;
      if j == |ps| && p <= ps[i] {
        NothingBelowAbsent(t, p, ps[i]);
      }
    }
  }

  /** Creating an absent path in a folder at or below the destination keeps the record. */
  lemma CreateRecorded(t0: Tree, dest: Path, s: Progress, p: Path, n: Node)
    requires Recorded(t0, dest, s) && p !in s.tree && dest <= p && p != []
    requires Parent(p) in s.tree && s.tree[Parent(p)] == Folder
    ensures Recorded(t0, dest, WithPath(s, p, n))
  {
    hide Closed, ParentsFirst;
    CreateClosed(s.tree, p, n);
    CreateParentsFirst(s.tree, s.created, p);
    var created := s.created + [p];
    forall q ensures q in s.tree[p := n] <==> q in t0 || q in created {
      assert q in created <==> q in s.created || q == p;
    }
  }

  lemma WriteClosed(t: Tree, p: Path, content: seq<Byte>)
    requires Closed(t) && p in t && t[p] != Folder
    ensures Closed(t[p := Regular(content)])
  {
    var u := t[p := Regular(content)];
    forall q {:trigger Parent(q)} | q in u && q != [] ensures Parent(q) in u && u[Parent(q)] == Folder {
      assert q in t;
    }
  }

  /** Writing to a file the extraction created keeps the record. */
  lemma WriteRecorded(t0: Tree, dest: Path, s: Progress, p: Path, content: seq<Byte>)
    requires Recorded(t0, dest, s) && p in s.created && p in s.tree && s.tree[p].Regular?
    ensures Recorded(t0, dest, s.(tree := s.tree[p := Regular(content)]))
  {
    hide Closed, ParentsFirst;
    WriteClosed(s.tree, p, content);
  }

  /** Directories are made without touching what is there, and the record is kept. */
  lemma {:induction false} EnsureDirectoryRecorded(t0: Tree, dest: Path, s: Progress, base: Path, names: Path)
    requires Recorded(t0, dest, s) && dest <= base && base in s.tree && s.tree[base] == Folder
    ensures var r := EnsureDirectory(s, base, names);
      r.Ok? ==>
        && Recorded(t0, dest, r.value) && r.value.entries == s.entries && r.value.bytes == s.bytes
        && base + names in r.value.tree && r.value.tree[base + names] == Folder
        && (forall p | p in s.tree :: p in r.value.tree && r.value.tree[p] == s.tree[p])
    decreases |names|
  {
    hide Recorded;
    if names == [] {
      assert base + names == base;
    } else {
      var current := base + [names[0]];
      assert Parent(current) == base;
      assert current + names[1..] == base + names;
      assert dest <= current;
      if current !in s.tree {
        CreateRecorded(t0, dest, s, current, Folder);
        EnsureDirectoryRecorded(t0, dest, WithPath(s, current, Folder), current, names[1..]);
      } else if s.tree[current] == Folder {
        EnsureDirectoryRecorded(t0, dest, s, current, names[1..]);
      }
    }
  }

  // ---- The file system

  predicate Empty(t: Tree, p: Path) {
    forall q | q in t && p <= q :: q == p
  }

  /** A file system on which any call may fail for reasons of its own (`OsError`), and then does nothing. */
  class Disk {
    var tree: Tree
    /** A lookup, creation or write, or a read of the archive, has failed for such a reason. */
    ghost var failed: bool
    /** A lookup or a removal has failed for such a reason since the cleanup began. */
    ghost var refused: bool

    /** `symlink_metadata`: the node at a path, none when nothing is there. */
    method Stat(p: Path) returns (r: Result<Option<Node>, ArchiveError>)
      modifies `refused, `failed
      ensures r.Ok? ==> r.value == (if p in tree then Some(tree[p]) else None) && refused == old(refused)
      ensures r.Err? ==> r.error == OsError && refused && failed
      ensures old(failed) ==> failed
    {
      if * {
        refused, failed := true, true;
        return Err(OsError);
      }
      r := Ok(if p in tree then Some(tree[p]) else None);
    }

    method CreateDir(p: Path) returns (r: Result<(), ArchiveError>)
      modifies `tree, `failed
      ensures r.Ok? ==> p !in old(tree) && tree == old(tree)[p := Folder]
      ensures r.Err? ==> tree == old(tree) && ((r.error == OsError && failed) || (r.error == AlreadyExists && p in tree))
    {
      if p in tree { return Err(AlreadyExists); }
      if * {
        failed := true;
        return Err(OsError);
      }
      tree := tree[p := Folder];
      r := Ok(());
    }

    method CreateNew(p: Path) returns (r: Result<(), ArchiveError>)
      modifies `tree, `failed
      ensures r.Ok? ==> p !in old(tree) && tree == old(tree)[p := Regular([])]
      ensures r.Err? ==> tree == old(tree) && ((r.error == OsError && failed) || (r.error == AlreadyExists && p in tree))
    {
      if p in tree { return Err(AlreadyExists); }
      if * {
        failed := true;
        return Err(OsError);
      }
      tree := tree[p := Regular([])];
      r := Ok(());
    }

    method WriteAll(p: Path, bytes: seq<Byte>) returns (r: Result<(), ArchiveError>)
      requires p in tree && tree[p].Regular?
      modifies `tree, `failed
      ensures r.Ok? ==> tree == old(tree)[p := Regular(old(tree)[p].content + bytes)]
      ensures r.Err? ==> r.error == OsError && failed && tree == old(tree)
    {
      if * {
        failed := true;
        return Err(OsError);
      }
      tree := tree[p := Regular(tree[p].content + bytes)];
      r := Ok(());
    }

    method RemoveDir(p: Path) returns (r: Result<(), ArchiveError>)
      modifies `tree, `refused
      ensures r.Ok? ==> p in old(tree) && Empty(old(tree), p) && tree == old(tree) - {p} && refused == old(refused)
      ensures r.Err? ==> tree == old(tree) && (refused == old(refused) || refused)
      ensures r.Err? && !refused ==> p !in tree || tree[p] != Folder || !Empty(tree, p)
    {
      if p !in tree || tree[p] != Folder || !Empty(tree, p) { return Err(OsError); }
      if * {
        refused := true;
        return Err(OsError);
      }
      tree := tree - {p};
      r := Ok(());
    }

    method RemoveFile(p: Path) returns (r: Result<(), ArchiveError>)
      modifies `tree, `refused
      ensures r.Ok? ==> p in old(tree) && old(tree)[p] != Folder && tree == old(tree) - {p} && refused == old(refused)
      ensures r.Err? ==> tree == old(tree) && (refused == old(refused) || refused)
      ensures r.Err? && !refused ==> p !in tree || tree[p] == Folder
    {
      if p !in tree || tree[p] == Folder { return Err(OsError); }
      if * {
        refused := true;
        return Err(OsError);
      }
      tree := tree - {p};
      r := Ok(());
    }
  }

  /** Every path from before is as it was, and nothing else is there but paths of the record. */
  ghost predicate LeftOver(t0: Tree, t: Tree, created: seq<Path>) {
    && (forall p | p in t0 :: p in t && t[p] == t0[p])
    && (forall p | p in t :: p in t0 || p in created)
  }

  /** Removes the paths of the record, last first; failures are ignored. When no lookup or removal
      is refused the tree is the one from before; in any case only paths of the record remain beside it. */
  method CleanupCreatedPaths(disk: Disk, ghost t0: Tree, ghost dest: Path, ghost s: Progress, paths: seq<Path>)
    requires Closed(t0) && Recorded(t0, dest, s) && s.tree == disk.tree && s.created == paths
    modifies disk
    ensures LeftOver(t0, disk.tree, paths)
    ensures !disk.refused ==> disk.tree == t0
    ensures old(disk.failed) ==> disk.failed
  {
    hide Closed, Recorded, Empty;
    assert LeftOver(t0, disk.tree, paths) && Holds(t0, disk.tree, paths) by { RecordedHolds(t0, dest, s); }
    disk.refused := false;
    var i := |paths|;
    assert paths[..i] == paths;
    while i > 0
      invariant 0 <= i <= |paths|
      invariant LeftOver(t0, disk.tree, paths) && (old(disk.failed) ==> disk.failed)
      invariant !disk.refused ==> Holds(t0, disk.tree, paths[..i])
    {
      i := i - 1;
      var path := paths[i];
      NewPath(t0, dest, s, i);
      if !disk.refused { OnlyItself(t0, dest, s, disk.tree, i); }
      var node := disk.Stat(path);
      if node.Ok? && node.value.Some? {
        if node.value.value == Folder {
          var _ := disk.RemoveDir(path);
        } else {
          var _ := disk.RemoveFile(path);
        }
      }
    }
    assert paths[..0] == [];
  }

  lemma RecordedHolds(t0: Tree, dest: Path, s: Progress)
    requires Recorded(t0, dest, s)
    ensures Holds(t0, s.tree, s.created) && LeftOver(t0, s.tree, s.created)
  {
  }

  lemma NewPath(t0: Tree, dest: Path, s: Progress, i: nat)
    requires Recorded(t0, dest, s) && i < |s.created|
    ensures s.created[i] !in t0 && s.created[i] in s.created
    ensures s.created[..i + 1] == s.created[..i] + [s.created[i]]
  {
  }

  /** Once the later paths of the record are gone, a path of the record is there, nothing lies below it,
      and taking it away leaves the earlier ones. */
  lemma OnlyItself(t0: Tree, dest: Path, s: Progress, t: Tree, i: nat)
    requires Closed(t0) && Recorded(t0, dest, s) && i < |s.created|
    requires Holds(t0, t, s.created[..i + 1])
    ensures s.created[i] in t && Empty(t, s.created[i]) && Holds(t0, t - {s.created[i]}, s.created[..i])
  {
    hide Closed, ParentsFirst;
    var path, earlier := s.created[i], s.created[..i];
    NewPath(t0, dest, s, i);
    NotAmongEarlier(s.created, i);
    forall q | q in t && path <= q ensures q == path {
      if q in t0 { NothingBelowAbsent(t0, path, q); }
    }
    assert Empty(t, path);
  }

  lemma NotAmongEarlier(ps: seq<Path>, i: nat)
    requires ParentsFirst(ps) && i < |ps|
    ensures ps[i] !in ps[..i]
    ensures forall q | q in ps[..i] :: !(ps[i] <= q)
  {
    forall q | q in ps[..i] ensures !(ps[i] <= q) {
      var j :| 0 <= j < i && ps[j] == q;
    }
    assert ps[i] <= ps[i];
  }
}

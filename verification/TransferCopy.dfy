/** `copy_entry`: copying a tree below a new path, file by file, with its hard links, contents and modes. */
module TransferCopy {
  import opened Basics
  import opened Paths
  import opened TransferTree
  import opened TransferDisk
  import opened TransferScan

  const COPY_BUFFER_BYTES := 1024 * 1024

  function SaturatingAdd(a: nat, b: nat): U64 { if a + b > U64_MAX then U64_MAX else a + b }

  class CopyContext {
    const cancelled: CancelFlag
    var completedBytes: U64
    var hardLinks: map<nat, Path>

    constructor (cancelled: CancelFlag)
      ensures this.cancelled == cancelled && completedBytes == 0 && hardLinks == map[]
    {
      this.cancelled := cancelled;
      completedBytes := 0;
      hardLinks := map[];
    }

    method Advance(bytes: nat)
      modifies this`completedBytes
      ensures completedBytes == SaturatingAdd(old(completedBytes), bytes)
    {
      completedBytes := SaturatingAdd(completedBytes, bytes);
    }
  }

  // ---- What a copy is

  function At(root: Path, rest: Path): Path { root + rest }

  /** The item at `rest` below d in t is that at `rest` below s in t0. */
  predicate Mirrors(t0: Tree, t: Tree, s: Path, d: Path, rest: Path) {
    && (At(s, rest) in t0 <==> At(d, rest) in t)
    && (At(s, rest) in t0 ==> SameItem(t0[At(s, rest)], t[At(d, rest)]))
  }

  ghost predicate Copied(t0: Tree, t: Tree, s: Path, d: Path, rest: Path) {
    forall r | rest <= r :: Mirrors(t0, t, s, d, r)
  }

  ghost predicate CopiedNames(t0: Tree, t: Tree, s: Path, d: Path, rest: Path, names: set<Name>) {
    forall r | rest < r && r[|rest|] in names :: Mirrors(t0, t, s, d, r)
  }

  /** The trees agree but below d. */
  predicate Beside(t0: Tree, t: Tree, d: Path) {
    && (forall q | q in t0 && !(d <= q) :: q in t && t[q] == t0[q])
    && (forall q | q in t && !(d <= q) :: q in t0)
  }

  /** Files below d are one file exactly when those they mirror are, and none of them is a file of t0. */
  ghost predicate SharesAlike(t0: Tree, t: Tree, s: Path, d: Path) {
    && (forall r {:trigger At(d, r)} | At(d, r) in t ::
          At(s, r) in t0 && (t[At(d, r)].File? ==> t0[At(s, r)].File? && FreshId(t0, t[At(d, r)].id)))
    && (forall a, b {:trigger At(d, a), At(d, b)} |
          At(d, a) in t && At(d, b) in t && t[At(d, a)].File? && t[At(d, b)].File? ::
          t[At(d, a)].id == t[At(d, b)].id <==> t0[At(s, a)].id == t0[At(s, b)].id)
  }

  /** The state while a copy of s is made at d. */
  ghost predicate Staging(t0: Tree, t: Tree, s: Path, d: Path, links: map<nat, Path>) {
    && Beside(t0, t, d) && SharesAlike(t0, t, s, d)
    && (forall id | id in links :: LinkKept(t0, t, s, d, id, links[id]))
  }

  /** The file that the copies of file `id` link to. */
  ghost predicate LinkKept(t0: Tree, t: Tree, s: Path, d: Path, id: nat, p: Path) {
    && d <= p && p in t && t[p].File? && At(s, p[|d|..]) in t0 && t0[At(s, p[|d|..])].File?
    && t0[At(s, p[|d|..])].id == id && SameItem(t0[At(s, p[|d|..])], t[p])
  }

  /** `nlink() > 1`. */
  predicate Shared(t: Tree, p: Path)
    requires p in t && t[p].File?
  {
    exists q :: q in t && q != p && t[q].File? && t[q].id == t[p].id
  }

  /** Every copied file of which there are more links can be found. */
  ghost predicate LinksComplete(t0: Tree, t: Tree, s: Path, d: Path, links: map<nat, Path>) {
    forall r {:trigger At(d, r)} | At(d, r) in t && t[At(d, r)].File? && At(s, r) in t0 && t0[At(s, r)].File? ::
      Shared(t0, At(s, r)) ==> t0[At(s, r)].id in links
  }

  // ---- Steps of a copy

  lemma AtSlice(root: Path, rest: Path)
    ensures root <= At(root, rest) && At(root, rest)[|root|..] == rest
  {
  }

  lemma AtInjective(root: Path, a: Path, b: Path)
    requires At(root, a) == At(root, b)
    ensures a == b
  {
    AtSlice(root, a);
    AtSlice(root, b);
  }

  lemma AtBelow(root: Path, a: Path, b: Path)
    ensures At(root, a) <= At(root, b) <==> a <= b
  {
    AtSlice(root, a);
    AtSlice(root, b);
    if a <= b { assert At(root, b)[..|root| + |a|] == root + b[..|a|]; }
    if At(root, a) <= At(root, b) {
      assert b == At(root, b)[|root|..] && a == At(root, a)[|root|..];
      assert At(root, b)[..|root| + |a|][|root|..] == b[..|a|];
    }
  }

  /** Nothing below s changes while its copy is made. */
  lemma SourceKept(t0: Tree, t: Tree, s: Path, d: Path, rest: Path)
    requires Beside(t0, t, d) && Apart(s, d)
    ensures !(d <= At(s, rest))
    ensures At(s, rest) in t <==> At(s, rest) in t0
    ensures At(s, rest) in t ==> t[At(s, rest)] == t0[At(s, rest)]
    ensures Children(t, At(s, rest)) == Children(t0, At(s, rest))
  {
    var p := At(s, rest);
    AtSlice(s, rest);
    ApartTrees(s, d, p);
    forall name ensures name in Children(t, p) <==> name in Children(t0, p) {
      ChildIn(t, p, name);
      ChildIn(t0, p, name);
      assert p <= p + [name];
      BelowTransitive(s, p, p + [name]);
      ApartTrees(s, d, p + [name]);
    }
  }

  lemma SharedKept(t0: Tree, t: Tree, s: Path, d: Path, rest: Path)
    requires Beside(t0, t, d) && Apart(s, d) && SharesAlike(t0, t, s, d)
    requires Closed(t0) && d !in t0 && At(s, rest) in t0 && t0[At(s, rest)].File?
    requires At(s, rest) in t && t[At(s, rest)] == t0[At(s, rest)]
    ensures Shared(t, At(s, rest)) <==> Shared(t0, At(s, rest))
  {
    var p := At(s, rest);
    AbsentBelow(t0, d);
    if Shared(t, p) {
      var q :| q in t && q != p && t[q].File? && t[q].id == t[p].id;
      assert d <= q ==> At(d, q[|d|..]) == q;
      assert d <= q ==> FreshId(t0, t[q].id);
      assert q in t0;
    }
  }

  /** A file with no link in the map has not been copied under another name. */
  lemma NotCopiedYet(t0: Tree, t: Tree, s: Path, d: Path, links: map<nat, Path>, rest: Path, r: Path)
    requires SharesAlike(t0, t, s, d) && LinksComplete(t0, t, s, d, links)
    requires At(s, rest) in t0 && t0[At(s, rest)].File? && At(d, rest) !in t
    requires Shared(t0, At(s, rest)) ==> t0[At(s, rest)].id !in links
    requires At(d, r) in t && t[At(d, r)].File?
    ensures t0[At(s, r)].id != t0[At(s, rest)].id
  {
    if t0[At(s, r)].id == t0[At(s, rest)].id {
      if At(s, r) == At(s, rest) { AtInjective(s, r, rest); }
      assert Shared(t0, At(s, r)) && Shared(t0, At(s, rest));
    }
  }

  lemma BesideAdd(t0: Tree, t: Tree, d: Path, p: Path, n: Node)
    requires Beside(t0, t, d) && d <= p
    ensures Beside(t0, t[p := n], d)
  {
  }

  lemma LinksAdd(t0: Tree, t: Tree, s: Path, d: Path, links: map<nat, Path>, p: Path, n: Node)
    requires Staging(t0, t, s, d, links) && p !in t
    ensures forall id | id in links :: LinkKept(t0, t[p := n], s, d, id, links[id])
  {
    forall id | id in links ensures LinkKept(t0, t[p := n], s, d, id, links[id]) {
      assert LinkKept(t0, t, s, d, id, links[id]);
    }
  }

  /** Adding a directory or link, or a file that is new or shares with those it should. */
  lemma StagingAdd(t0: Tree, t: Tree, s: Path, d: Path, links: map<nat, Path>, rest: Path, n: Node)
    requires Staging(t0, t, s, d, links) && At(d, rest) !in t && At(s, rest) in t0
    requires n.File? ==> t0[At(s, rest)].File? && FreshId(t0, n.id)
    requires n.File? ==> forall r {:trigger At(d, r)} | At(d, r) in t && t[At(d, r)].File? ::
                           t[At(d, r)].id == n.id <==> t0[At(s, r)].id == t0[At(s, rest)].id
    ensures Staging(t0, t[At(d, rest) := n], s, d, links)
  {
    var p := At(d, rest);
    var u := t[p := n];
    AtSlice(d, rest);
    BesideAdd(t0, t, d, p, n);
    LinksAdd(t0, t, s, d, links, p, n);
    forall r {:trigger At(d, r)} | At(d, r) in u
      ensures At(s, r) in t0 && (u[At(d, r)].File? ==> t0[At(s, r)].File? && FreshId(t0, u[At(d, r)].id))
    {
      if At(d, r) == p { AtInjective(d, r, rest); }
    }
    forall a, b {:trigger At(d, a), At(d, b)} |
      At(d, a) in u && At(d, b) in u && u[At(d, a)].File? && u[At(d, b)].File?
      ensures u[At(d, a)].id == u[At(d, b)].id <==> t0[At(s, a)].id == t0[At(s, b)].id
    {
      if At(d, a) == p { AtInjective(d, a, rest); }
      if At(d, b) == p { AtInjective(d, b, rest); }
    }
  }

  lemma StagingSetMode(t0: Tree, t: Tree, s: Path, d: Path, links: map<nat, Path>, rest: Path, mode: nat)
    requires Staging(t0, t, s, d, links) && At(d, rest) in t && t[At(d, rest)].Dir?
    ensures Staging(t0, t[At(d, rest) := Dir(mode)], s, d, links)
  {
    var p := At(d, rest);
    AtSlice(d, rest);
    BesideAdd(t0, t, d, p, Dir(mode));
    forall id | id in links ensures LinkKept(t0, t[p := Dir(mode)], s, d, id, links[id]) {
      assert LinkKept(t0, t, s, d, id, links[id]);
    }
  }

  lemma CompleteAdd(t0: Tree, t: Tree, s: Path, d: Path, links: map<nat, Path>, more: map<nat, Path>, rest: Path, n: Node)
    requires LinksComplete(t0, t, s, d, links) && links.Keys <= more.Keys
    requires At(s, rest) in t0
    requires n.File? && t0[At(s, rest)].File? && Shared(t0, At(s, rest)) ==> t0[At(s, rest)].id in more
    ensures LinksComplete(t0, t[At(d, rest) := n], s, d, more)
  {
    var u := t[At(d, rest) := n];
    forall r {:trigger At(d, r)} | At(d, r) in u && u[At(d, r)].File? && At(s, r) in t0 && t0[At(s, r)].File? && Shared(t0, At(s, r))
      ensures t0[At(s, r)].id in more
    {
      if At(d, r) == At(d, rest) { AtInjective(d, r, rest); } else { assert At(d, r) in t; }
    }
  }

  lemma BesideTransitive(t0: Tree, t: Tree, u: Tree, d: Path, p: Path)
    requires Beside(t0, t, d) && Beside(t, u, p) && d <= p
    ensures Beside(t0, u, d)
  {
    forall q | p <= q && (q in t0 || q in t || q in u) ensures d <= q { BelowTransitive(d, p, q); }
  }

  /** With one more child copied, and nothing but it touched. */
  lemma CopiedNamesStep(t0: Tree, t: Tree, u: Tree, s: Path, d: Path, rest: Path, names: set<Name>, name: Name)
    requires CopiedNames(t0, t, s, d, rest, names) && name !in names
    requires Beside(t, u, At(d, rest + [name])) && Copied(t0, u, s, d, rest + [name])
    ensures CopiedNames(t0, u, s, d, rest, names + {name})
  {
    forall r | rest < r && r[|rest|] in names + {name}
      ensures Mirrors(t0, u, s, d, r)
    {
      BelowChild(rest, name, r);
      AtBelow(d, rest + [name], r);
      if r[|rest|] != name { assert Mirrors(t0, t, s, d, r); }
    }
  }

  lemma CopiedNamesKept(t0: Tree, t: Tree, s: Path, d: Path, rest: Path, names: set<Name>, n: Node)
    requires CopiedNames(t0, t, s, d, rest, names)
    ensures CopiedNames(t0, t[At(d, rest) := n], s, d, rest, names)
  {
    forall r | rest < r && r[|rest|] in names
      ensures Mirrors(t0, t[At(d, rest) := n], s, d, r)
    {
      assert Mirrors(t0, t, s, d, r);
      if At(d, r) == At(d, rest) { AtInjective(d, r, rest); }
    }
  }

  lemma CopiedWhole(t0: Tree, t: Tree, s: Path, d: Path, rest: Path)
    requires Closed(t0) && SharesAlike(t0, t, s, d) && Mirrors(t0, t, s, d, rest) && At(s, rest) in t0
    requires CopiedNames(t0, t, s, d, rest, Children(t0, At(s, rest)))
    ensures Copied(t0, t, s, d, rest)
  {
    var p := At(s, rest);
    forall r | rest <= r ensures Mirrors(t0, t, s, d, r) {
      if r != rest && At(s, r) in t0 {
        var name := r[|rest|];
        BelowChild(rest, name, r);
        AtBelow(s, rest + [name], r);
        assert At(s, rest + [name]) == p + [name];
        NothingBelowAbsent(t0, p + [name], At(s, r));
        ChildIn(t0, p, name);
      }
    }
  }

  /** Nothing lies below what is not a directory. */
  lemma CopiedLeaf(t0: Tree, t: Tree, s: Path, d: Path, rest: Path)
    requires Closed(t0) && SharesAlike(t0, t, s, d) && Mirrors(t0, t, s, d, rest)
    requires At(s, rest) in t0 && !t0[At(s, rest)].Dir?
    ensures Copied(t0, t, s, d, rest)
  {
    forall r | rest <= r ensures Mirrors(t0, t, s, d, r) {
      if r != rest && At(s, r) in t0 {
        AtBelow(s, rest, r);
        NothingBelowAbsent(t0, At(s, rest), At(s, r));
        AtInjective(s, rest, r);
      }
    }
  }

  // ---- copy_entry

  method AnyError() returns (e: TransferError) {
    e := Failed;
    if * { e := Interrupted; }
  }

  /** `write_all`: a failure may leave a part of the chunk written. */
  method WriteAll(fs: FileSystem, p: Path, chunk: seq<Byte>, ghost before: Tree) returns (ok: bool)
    requires fs.Valid() && fs.Spare(p) && p !in before && p in fs.tree && fs.tree[p].File?
    requires FreshId(before, fs.tree[p].id) && fs.tree == before[p := fs.tree[p]]
    modifies fs
    ensures fs.Valid() && fs.Framed() && fs.where == old(fs.where) && fs.stuck == old(fs.stuck) && Beside(before, fs.tree, p)
    ensures if ok
            then fs.tree == before[p := old(fs.tree)[p].(content := old(fs.tree)[p].content + chunk)]
            else fs.Troubled()
  {
    hide FileSystem.Valid, FileSystem.Spare, FreshId;
    var node := fs.tree[p];
    assert fs.tree - {p} == before;
    var written: nat :| written <= |chunk|;
    ok := fs.Change(p, node.(content := node.content + chunk[..written]));
    if ok && written < |chunk| {
      fs.troubles := fs.troubles + 1;
      ok := false;
    }
    assert ok ==> chunk[..written] == chunk;
  }

  lemma ChunkNext(input: seq<Byte>, position: nat, read: nat)
    requires position + read <= |input|
    ensures input[..position] + input[position..position + read] == input[..position + read]
  {
  }

  /** Reads the file at `source` in chunks of any size into a new file, which takes its mode at the end. */
  method WriteCopy(fs: FileSystem, context: CopyContext, source: Path, destination: Path)
    returns (error: Option<TransferError>)
    requires fs.Valid() && source in fs.tree && fs.tree[source].File?
    requires destination !in fs.tree && destination != [] && IsDir(fs.tree, Parent(destination))
    modifies fs, context`completedBytes, context.cancelled
    ensures fs.Valid() && fs.Framed() && fs.where == old(fs.where) && fs.stuck == old(fs.stuck) && context.cancelled.Monotone()
    ensures Beside(old(fs.tree), fs.tree, destination)
    ensures error.None? ==>
              && destination in fs.tree && fs.tree[destination].File? && FreshId(old(fs.tree), fs.tree[destination].id)
              && fs.tree == old(fs.tree)[destination := old(fs.tree)[source].(id := fs.tree[destination].id)]
              && context.completedBytes == SaturatingAdd(old(context.completedBytes), |old(fs.tree)[source].content|)
    ensures error.Some? ==> context.cancelled.raised || fs.Troubled()
  {
    hide Closed, Coherent, Ledger, NothingLost, FreshId, FileSystem.Valid, FileSystem.Spare, Beside, SaturatingAdd;
    ghost var before := fs.tree;
    BesideSelf(before, destination);
    SaturatingNone(context.completedBytes);
    var metadata := fs.tree[source];
    var input := metadata.content;
    fs.AbsentIsSpare(destination);
    var ok := fs.CreateFile(destination);
    if !ok {
      error := Some(Failed);
      return;
    }
    var id := fs.tree[destination].id;
    BesideAdd(before, before, destination, destination, fs.tree[destination]);
    var position, atEnd := 0, false;
    while !atEnd
      invariant position <= |input| && (atEnd ==> position == |input|)
      invariant fs.Valid() && fs.Framed() && fs.where == old(fs.where) && fs.stuck == old(fs.stuck) && fs.Spare(destination)
      invariant context.cancelled.Monotone() && Beside(before, fs.tree, destination)
      invariant fs.tree == before[destination := File(id, input[..position], PRIVATE_FILE_MODE)]
      invariant context.completedBytes == SaturatingAdd(old(context.completedBytes), position)
      decreases |input| - position, !atEnd
    {
      var cancelled := context.cancelled.Load();
      if cancelled { return Some(Interrupted); }
      if * {
        fs.troubles := fs.troubles + 1;
        var e := AnyError();
        return Some(e);
      }
      if position == |input| {
        atEnd := true;
      } else {
        var read: nat :| 0 < read <= COPY_BUFFER_BYTES && position + read <= |input|;
        var wrote := WriteAll(fs, destination, input[position..position + read], before);
        if !wrote { return Some(Failed); }
        ChunkNext(input, position, read);
        SaturatingChain(old(context.completedBytes), position, read);
        context.Advance(read);
        position := position + read;
      }
    }
    assert input[..position] == input;
    assert fs.tree - {destination} == before;
    BesideAdd(before, before, destination, destination, File(id, input, metadata.mode));
    var modeSet := fs.Change(destination, File(id, input, metadata.mode));
    if !modeSet { return Some(Failed); }
    assert fs.tree == before[destination := File(id, input, metadata.mode)];
    error := None;
  }

  ghost predicate HasSpecial(t: Tree, p: Path) {
    exists q :: q in Below(t, p) && t[q].SpecialFile?
  }

  /** The copy of a file or link is in place, and `more` has the link map after it. */
  lemma LeafAdded(t0: Tree, t: Tree, s: Path, d: Path, links: map<nat, Path>, more: map<nat, Path>, rest: Path, n: Node)
    requires Closed(t0) && Staging(t0, t, s, d, links) && LinksComplete(t0, t, s, d, links)
    requires At(d, rest) !in t && At(s, rest) in t0 && !t0[At(s, rest)].Dir? && SameItem(t0[At(s, rest)], n)
    requires n.File? ==> FreshId(t0, n.id)
    requires n.File? ==> forall r {:trigger At(d, r)} | At(d, r) in t && t[At(d, r)].File? ::
                           t[At(d, r)].id == n.id <==> t0[At(s, r)].id == t0[At(s, rest)].id
    requires more == links || (n.File? && more == links[t0[At(s, rest)].id := At(d, rest)])
    requires n.File? && Shared(t0, At(s, rest)) ==> t0[At(s, rest)].id in more
    ensures Staging(t0, t[At(d, rest) := n], s, d, more)
    ensures LinksComplete(t0, t[At(d, rest) := n], s, d, more)
    ensures Copied(t0, t[At(d, rest) := n], s, d, rest)
  {
    var u := t[At(d, rest) := n];
    StagingAdd(t0, t, s, d, links, rest, n);
    CompleteAdd(t0, t, s, d, links, more, rest, n);
    AtSlice(d, rest);
    forall id | id in more ensures LinkKept(t0, u, s, d, id, more[id]) {
      if id in links && more[id] == links[id] { assert LinkKept(t0, u, s, d, id, links[id]); }
    }
    assert Mirrors(t0, u, s, d, rest);
    CopiedLeaf(t0, u, s, d, rest);
  }

  /** What a further link to the copy of the same file needs. */
  lemma LinkFits(t0: Tree, t: Tree, s: Path, d: Path, links: map<nat, Path>, rest: Path)
    requires Coherent(t0) && Staging(t0, t, s, d, links)
    requires At(s, rest) in t0 && t0[At(s, rest)].File? && t0[At(s, rest)].id in links
    ensures var p := links[t0[At(s, rest)].id];
            && p in t && t[p].File? && SameItem(t0[At(s, rest)], t[p]) && FreshId(t0, t[p].id)
            && forall r {:trigger At(d, r)} | At(d, r) in t && t[At(d, r)].File? ::
                 t[At(d, r)].id == t[p].id <==> t0[At(s, r)].id == t0[At(s, rest)].id
  {
    var id := t0[At(s, rest)].id;
    var p := links[id];
    assert LinkKept(t0, t, s, d, id, p);
    assert At(d, p[|d|..]) == p;
  }

  /** What a file of its own needs. */
  lemma NewFileFits(t0: Tree, t: Tree, s: Path, d: Path, links: map<nat, Path>, rest: Path, id: nat)
    requires Closed(t0) && d !in t0 && Staging(t0, t, s, d, links) && LinksComplete(t0, t, s, d, links)
    requires At(s, rest) in t0 && t0[At(s, rest)].File? && At(d, rest) !in t && FreshId(t, id)
    requires Shared(t0, At(s, rest)) ==> t0[At(s, rest)].id !in links
    ensures FreshId(t0, id)
    ensures forall r {:trigger At(d, r)} | At(d, r) in t && t[At(d, r)].File? ::
              t[At(d, r)].id == id <==> t0[At(s, r)].id == t0[At(s, rest)].id
  {
    AbsentBelow(t0, d);
    forall r {:trigger At(d, r)} | At(d, r) in t && t[At(d, r)].File?
      ensures t[At(d, r)].id == id <==> t0[At(s, r)].id == t0[At(s, rest)].id
    {
      NotCopiedYet(t0, t, s, d, links, rest, r);
    }
  }

  lemma BesideSelf(t: Tree, p: Path)
    ensures Beside(t, t, p)
  {
  }

  method CopyFile(fs: FileSystem, context: CopyContext, source: Path, destination: Path,
                  ghost t0: Tree, ghost s: Path, ghost d: Path, ghost rest: Path)
    returns (error: Option<TransferError>)
    requires fs.Valid() && source == At(s, rest) && destination == At(d, rest)
    requires Closed(t0) && Coherent(t0) && Apart(s, d) && d !in t0
    requires Staging(t0, fs.tree, s, d, context.hardLinks) && LinksComplete(t0, fs.tree, s, d, context.hardLinks)
    requires source in t0 && t0[source].File?
    requires destination !in fs.tree && destination != [] && IsDir(fs.tree, Parent(destination))
    modifies fs, context, context.cancelled
    ensures fs.Valid() && fs.Framed() && fs.where == old(fs.where) && fs.stuck == old(fs.stuck) && context.cancelled.Monotone()
    ensures Beside(old(fs.tree), fs.tree, destination)
    ensures error.None? ==>
              && Staging(t0, fs.tree, s, d, context.hardLinks) && LinksComplete(t0, fs.tree, s, d, context.hardLinks)
              && Copied(t0, fs.tree, s, d, rest)
              && context.completedBytes == SaturatingAdd(old(context.completedBytes), TreeBytes(t0, source))
    ensures error.Some? ==> context.cancelled.raised || fs.Troubled()
  {
    ghost var t, links := fs.tree, context.hardLinks;
    hide Closed, Coherent, Ledger, NothingLost, FreshId, Staging, LinksComplete, SharesAlike, Copied, Apart, Shared,
      Beside, At, SameItem, TreeBytes, FileSystem.Valid,
      FileSystem.Spare;
    StagingBeside(t0, t, s, d, context.hardLinks);
    SourceKept(t0, t, s, d, rest);
    SharedKept(t0, t, s, d, rest);
    LeafBelow(t0, source);
    BesideSelf(t, destination);
    BesideAdd(t, t, destination, destination, t0[source]);
    var metadata, manyLinks := fs.tree[source], Shared(fs.tree, source);
    if manyLinks && metadata.id in context.hardLinks {
      LinkFits(t0, t, s, d, links, rest);
      ghost var n := t[links[metadata.id]];
      var linked := fs.HardLink(context.hardLinks[metadata.id], destination);
      if !linked { return Some(Failed); }
      BesideAdd(t, t, destination, destination, n);
      LeafAdded(t0, t, s, d, links, links, rest, n);
      context.Advance(|metadata.content|);
      return None;
    }
    error := WriteCopy(fs, context, source, destination);
    if error.Some? { return; }
    ghost var n := fs.tree[destination];
    NewFileFits(t0, t, s, d, links, rest, n.id);
    if manyLinks {
      context.hardLinks := context.hardLinks[metadata.id := destination];
    }
    LeafAdded(t0, t, s, d, links, context.hardLinks, rest, n);
  }

  lemma SpecialChild(t: Tree, p: Path, name: Name)
    requires HasSpecial(t, p + [name])
    ensures HasSpecial(t, p)
  {
    var q :| q in Below(t, p + [name]) && t[q].SpecialFile?;
    BelowTransitive(p, p + [name], q);
    assert q in Below(t, p);
  }

  lemma NoSpecialChildren(t: Tree, p: Path)
    requires Closed(t) && IsDir(t, p) && forall name | name in Children(t, p) :: !HasSpecial(t, p + [name])
    ensures !HasSpecial(t, p)
  {
    BelowIsChildren(t, p);
    forall q | q in Below(t, p) && q != p ensures !t[q].SpecialFile? {
      BelowChild(p, q[|p|], q);
      assert !HasSpecial(t, p + [q[|p|]]);
      assert q in Below(t, p + [q[|p|]]);
    }
  }

  lemma AtChild(root: Path, rest: Path, name: Name)
    ensures At(root, rest) + [name] == At(root, rest + [name])
    ensures Parent(At(root, rest + [name])) == At(root, rest)
  {
  }

  lemma DirectoryAdded(t0: Tree, t: Tree, s: Path, d: Path, links: map<nat, Path>, rest: Path)
    requires Staging(t0, t, s, d, links) && LinksComplete(t0, t, s, d, links)
    requires At(d, rest) !in t && At(s, rest) in t0
    ensures var u := t[At(d, rest) := Dir(NEW_DIR_MODE)];
            Staging(t0, u, s, d, links) && LinksComplete(t0, u, s, d, links) && CopiedNames(t0, u, s, d, rest, {})
  {
    StagingAdd(t0, t, s, d, links, rest, Dir(NEW_DIR_MODE));
    CompleteAdd(t0, t, s, d, links, links, rest, Dir(NEW_DIR_MODE));
  }

  lemma DirectoryDone(t0: Tree, t: Tree, s: Path, d: Path, links: map<nat, Path>, rest: Path)
    requires Closed(t0) && Staging(t0, t, s, d, links) && LinksComplete(t0, t, s, d, links)
    requires At(s, rest) in t0 && t0[At(s, rest)].Dir? && At(d, rest) in t && t[At(d, rest)].Dir?
    requires CopiedNames(t0, t, s, d, rest, Children(t0, At(s, rest)))
    ensures var u := t[At(d, rest) := t0[At(s, rest)]];
            Staging(t0, u, s, d, links) && LinksComplete(t0, u, s, d, links) && Copied(t0, u, s, d, rest)
  {
    var n := t0[At(s, rest)];
    StagingSetMode(t0, t, s, d, links, rest, n.mode);
    CompleteAdd(t0, t, s, d, links, links, rest, n);
    CopiedNamesKept(t0, t, s, d, rest, Children(t0, At(s, rest)), n);
    assert Mirrors(t0, t[At(d, rest) := n], s, d, rest);
    CopiedWhole(t0, t[At(d, rest) := n], s, d, rest);
  }

  /** Below p there is p and what its children in `names` hold. */
  predicate OnlyNames(t: Tree, p: Path, names: set<Name>) {
    forall q | q in t && p < q :: q[|p|] in names
  }

  lemma OnlyNamesStep(t: Tree, u: Tree, p: Path, names: set<Name>, name: Name)
    requires OnlyNames(t, p, names) && Beside(t, u, p + [name])
    ensures OnlyNames(u, p, names + {name})
  {
    forall q | q in u && p < q ensures q[|p|] in names + {name} { BelowChild(p, name, q); }
  }

  lemma OnlyNamesNone(t: Tree, p: Path, n: Node)
    requires Closed(t) && p !in t
    ensures OnlyNames(t[p := n], p, {})
  {
    AbsentBelow(t, p);
  }

  lemma OnlyNamesAbsent(t: Tree, p: Path, names: set<Name>, name: Name)
    requires OnlyNames(t, p, names) && name !in names
    ensures p + [name] !in t
  {
    assert p < p + [name] && (p + [name])[|p|] == name;
  }

  lemma SaturatingChain(a: U64, b: nat, c: nat)
    ensures SaturatingAdd(SaturatingAdd(a, b), c) == SaturatingAdd(a, b + c)
  {
  }

  lemma DirectoryBytes(t: Tree, p: Path)
    requires Closed(t) && IsDir(t, p)
    ensures TreeBytes(t, p) == Bytes(t, BelowNames(t, p, Children(t, p)))
  {
    BelowIsChildren(t, p);
    BytesUnion(t, {p}, BelowNames(t, p, Children(t, p)));
    BytesSingle(t, p);
  }

  lemma StagingBeside(t0: Tree, t: Tree, s: Path, d: Path, links: map<nat, Path>)
    requires Staging(t0, t, s, d, links)
    ensures Beside(t0, t, d) && SharesAlike(t0, t, s, d)
  {
  }

  lemma BesideAt(t: Tree, u: Tree, p: Path, name: Name)
    requires Beside(t, u, p + [name]) && p in t
    ensures p in u && u[p] == t[p]
  {
  }

  method CopyDirectory(fs: FileSystem, context: CopyContext, source: Path, destination: Path, metadata: Node,
                       ghost t0: Tree, ghost s: Path, ghost d: Path, ghost rest: Path)
    returns (error: Option<TransferError>)
    requires fs.Valid() && fs.Spare(d) && source == At(s, rest) && destination == At(d, rest)
    requires Closed(t0) && Coherent(t0) && Apart(s, d) && d !in t0
    requires Staging(t0, fs.tree, s, d, context.hardLinks) && LinksComplete(t0, fs.tree, s, d, context.hardLinks)
    requires IsDir(t0, source) && metadata == t0[source]
    requires destination !in fs.tree && destination != [] && IsDir(fs.tree, Parent(destination))
    modifies fs, context, context.cancelled
    ensures fs.Valid() && fs.Framed() && fs.where == old(fs.where) && fs.stuck == old(fs.stuck) && context.cancelled.Monotone()
    ensures Beside(old(fs.tree), fs.tree, destination)
    ensures error.None? ==>
              && Staging(t0, fs.tree, s, d, context.hardLinks) && LinksComplete(t0, fs.tree, s, d, context.hardLinks)
              && Copied(t0, fs.tree, s, d, rest) && !HasSpecial(t0, source)
              && context.completedBytes == SaturatingAdd(old(context.completedBytes), TreeBytes(t0, source))
    ensures error.Some? ==>
              context.cancelled.raised || fs.Troubled() || (HasSpecial(t0, source) && error.value.Failed?)
    decreases Below(t0, source), 0
  {
    hide Closed, Coherent, Ledger, NothingLost, FreshId, Staging, LinksComplete, SharesAlike, Copied, CopiedNames,
      Apart, Shared, Beside, At, SameItem, TreeBytes, Below, BelowNames, Bytes, Children, OnlyNames, NameSet,
      Distinct, HasSpecial, SaturatingAdd, FileSystem.Valid,
      FileSystem.Spare;
    ghost var t := fs.tree;
    fs.IsSound();
    var made := fs.Create(destination, Dir(NEW_DIR_MODE));
    BesideSelf(t, destination);
    if !made { return Some(Failed); }
    BesideAdd(t, t, destination, destination, Dir(NEW_DIR_MODE));
    DirectoryAdded(t0, t, s, d, context.hardLinks, rest);
    OnlyNamesNone(t, destination, Dir(NEW_DIR_MODE));
    StagingBeside(t0, fs.tree, s, d, context.hardLinks);
    SourceKept(t0, fs.tree, s, d, rest);
    var names := ReadDir(fs, source);
    if names.Err? { return Some(names.error); }
    var i := 0;
    BelowNone(t0, source);
    NamesNone(names.value);
    SaturatingNone(context.completedBytes);
    while i < |names.value|
      invariant i <= |names.value|
      invariant fs.Valid() && fs.Framed() && fs.where == old(fs.where) && fs.stuck == old(fs.stuck) && context.cancelled.Monotone()
      invariant fs.Spare(d) && Beside(t, fs.tree, destination) && IsDir(fs.tree, destination)
      invariant Staging(t0, fs.tree, s, d, context.hardLinks) && LinksComplete(t0, fs.tree, s, d, context.hardLinks)
      invariant CopiedNames(t0, fs.tree, s, d, rest, NameSet(names.value[..i]))
      invariant OnlyNames(fs.tree, destination, NameSet(names.value[..i]))
      invariant forall name | name in NameSet(names.value[..i]) :: !HasSpecial(t0, source + [name])
      invariant context.completedBytes ==
                SaturatingAdd(old(context.completedBytes), Bytes(t0, BelowNames(t0, source, NameSet(names.value[..i]))))
    {
      var name := names.value[i];
      ghost var seen, before, bytes := NameSet(names.value[..i]), fs.tree, context.completedBytes;
      NextName(names.value, i);
      ChildShare(t0, source, seen, name);
      ChildIn(t0, source, name);
      AtChild(s, rest, name);
      AtChild(d, rest, name);
      OnlyNamesAbsent(fs.tree, destination, seen, name);
      error := CopyEntry(fs, context, source + [name], destination + [name], t0, s, d, rest + [name]);
      BesideTransitive(t, before, fs.tree, destination, destination + [name]);
      BesideAt(before, fs.tree, destination, name);
      if error.Some? {
        if HasSpecial(t0, source + [name]) { SpecialChild(t0, source, name); }
        return;
      }
      CopiedNamesStep(t0, before, fs.tree, s, d, rest, seen, name);
      OnlyNamesStep(before, fs.tree, destination, seen, name);
      SaturatingChain(old(context.completedBytes), Bytes(t0, BelowNames(t0, source, seen)), TreeBytes(t0, source + [name]));
      i := i + 1;
    }
    assert names.value[..i] == names.value;
    DirectoryBytes(t0, source);
    NoSpecialChildren(t0, source);
    AtSlice(d, rest);
    fs.SpareBelow(d, destination);
    DirectoryDone(t0, fs.tree, s, d, context.hardLinks, rest);
    BesideAdd(t, fs.tree, destination, destination, t0[source]);
    var modeSet := fs.Change(destination, metadata);
    if !modeSet { return Some(Failed); }
    error := None;
  }

  /** Copies what is at `source` to the absent path `destination`. Whatever happens nothing beside the
      destination changes; on success everything below it mirrors the source, hard links included, and the
      progress has grown by the size of the source. It fails only for cancellation, a failing call, or an item
      that cannot be copied. */
  method CopyEntry(fs: FileSystem, context: CopyContext, source: Path, destination: Path,
                   ghost t0: Tree, ghost s: Path, ghost d: Path, ghost rest: Path)
    returns (error: Option<TransferError>)
    requires fs.Valid() && fs.Spare(d) && source == At(s, rest) && destination == At(d, rest)
    requires Closed(t0) && Coherent(t0) && Apart(s, d) && d !in t0
    requires Staging(t0, fs.tree, s, d, context.hardLinks) && LinksComplete(t0, fs.tree, s, d, context.hardLinks)
    requires destination !in fs.tree && destination != [] && IsDir(fs.tree, Parent(destination))
    modifies fs, context, context.cancelled
    ensures fs.Valid() && fs.Framed() && fs.where == old(fs.where) && fs.stuck == old(fs.stuck) && context.cancelled.Monotone()
    ensures Beside(old(fs.tree), fs.tree, destination)
    ensures error.None? ==>
              && source in t0 && Staging(t0, fs.tree, s, d, context.hardLinks) && LinksComplete(t0, fs.tree, s, d, context.hardLinks)
              && Copied(t0, fs.tree, s, d, rest) && !HasSpecial(t0, source)
              && context.completedBytes == SaturatingAdd(old(context.completedBytes), TreeBytes(t0, source))
    ensures error.Some? ==>
              context.cancelled.raised || fs.Troubled() || ((source !in t0 || HasSpecial(t0, source)) && error.value.Failed?)
    decreases Below(t0, source), 1
  {
    ghost var t := fs.tree;
    hide Closed, Coherent, Ledger, NothingLost, FreshId, Staging, LinksComplete, SharesAlike, Copied, Apart, Shared,
      Beside, At, TreeBytes, Below, SaturatingAdd, HasSpecial, FileSystem.Valid,
      FileSystem.Spare;
    BesideSelf(t, destination);
    SaturatingNone(context.completedBytes);
    var cancelled := context.cancelled.Load();
    if cancelled { return Some(Interrupted); }
    StagingBeside(t0, t, s, d, context.hardLinks);
    SourceKept(t0, t, s, d, rest);
    if source !in fs.tree { return Some(Failed); }
    var node := fs.tree[source];
    LeafSpecial(t0, source);
    if node.Link? {
      var made := fs.Create(destination, node);
      if !made { return Some(Failed); }
      LeafBelow(t0, source);
      BesideAdd(t, t, destination, destination, node);
      LeafAdded(t0, t, s, d, context.hardLinks, context.hardLinks, rest, node);
      return None;
    }
    if node.File? {
      error := CopyFile(fs, context, source, destination, t0, s, d, rest);
      return;
    }
    if node.Dir? {
      error := CopyDirectory(fs, context, source, destination, node, t0, s, d, rest);
      return;
    }
    error := Some(Failed);
  }

  lemma LeafSpecial(t: Tree, p: Path)
    requires Closed(t) && p in t
    ensures !t[p].Dir? ==> (HasSpecial(t, p) <==> t[p].SpecialFile?)
  {
    if !t[p].Dir? {
      LeafBelow(t, p);
      assert p in Below(t, p);
    }
  }

  lemma SaturatingNone(a: U64)
    ensures SaturatingAdd(a, 0) == a
  {
  }

  lemma NamesNone(names: seq<Name>)
    ensures NameSet(names[..0]) == {}
  {
  }
}

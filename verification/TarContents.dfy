/** What is in the tree after the entries of an archive have been placed: those entries, the folders they lie
    in, what was there before, and nothing else. */
module TarContents {
  import opened Basics
  import opened Paths
  import opened ArchivePaths
  import opened ExtractionTree
  import opened TarStream
  import opened TarRoundTrip

  /** p lies strictly below base, on the way to base + names or at its end. */
  predicate OnTheWay(p: Path, base: Path, names: Path) {
    |base| < |p| && base <= p && p <= base + names
  }

  predicate Kept(t: Tree, u: Tree) { forall p | p in t :: p in u && u[p] == t[p] }

  /** The directories on the way to base + names have been made and nothing else. */
  ghost predicate Added(t: Tree, u: Tree, base: Path, names: Path) {
    && Kept(t, u)
    && (forall p | OnTheWay(p, base, names) :: p in u && u[p] == Folder)
    && (forall p | p in u :: p in t || OnTheWay(p, base, names))
  }

  lemma FirstOnTheWay(p: Path, base: Path, names: Path)
    requires names != []
    ensures OnTheWay(p, base, names) <==> p == base + [names[0]] || OnTheWay(p, base + [names[0]], names[1..])
  {
    var next := base + [names[0]];
    assert next + names[1..] == base + names;
    if OnTheWay(p, base, names) {
      assert p[|base|] == (base + names)[|base|] == names[0];
      assert next <= p;
      if |p| == |next| { assert p == next; }
    }
    if OnTheWay(p, next, names[1..]) {
      assert base <= next;
    }
  }

  lemma {:induction false} EnsureDirectoryAdds(s: Progress, base: Path, names: Path)
    ensures var r := EnsureDirectory(s, base, names); r.Ok? ==> Added(s.tree, r.value.tree, base, names)
    decreases |names|
  {
    hide OnTheWay;
    var r := EnsureDirectory(s, base, names);
    if names == [] {
      NothingOnTheWay(base);
    } else if r.Ok? {
      var next := base + [names[0]];
      var t := if next in s.tree then s.tree else s.tree[next := Folder];
      if next !in s.tree {
        EnsureDirectoryAdds(WithPath(s, next, Folder), next, names[1..]);
      } else {
        EnsureDirectoryAdds(s, next, names[1..]);
      }
      assert Added(t, r.value.tree, next, names[1..]) && next in t && t[next] == Folder;
      forall p ensures OnTheWay(p, base, names) <==> p == next || OnTheWay(p, next, names[1..]) {
        FirstOnTheWay(p, base, names);
      }
    }
  }

  lemma NothingOnTheWay(base: Path)
    ensures forall p :: !OnTheWay(p, base, [])
  {
    assert base + [] == base;
  }

  /** The node an entry leaves at its path. */
  function NodeOf(e: Entry): Node { if e.content.Some? then Regular(e.content.value) else Folder }

  /** There are folders on the way to the entry. */
  ghost predicate WayMade(t: Tree, dest: Path, e: Entry) {
    forall p | OnTheWay(p, dest, e.path) :: p in t && (p == dest + e.path || t[p] == Folder)
  }

  /** What placing one entry adds. */
  ghost predicate AddedEntry(t: Tree, u: Tree, dest: Path, e: Entry) {
    && Kept(t, u)
    && (dest + e.path) in u && u[dest + e.path] == NodeOf(e)
    && WayMade(u, dest, e)
    && (forall p | p in u :: p in t || OnTheWay(p, dest, e.path))
  }

  lemma LastOnTheWay(p: Path, base: Path, names: Path)
    requires names != []
    ensures OnTheWay(p, base, names) <==> p == base + names || OnTheWay(p, base, names[..|names| - 1])
    ensures OnTheWay(base + names, base, names) && !OnTheWay(base + names, base, names[..|names| - 1])
  {
    var parent := base + names[..|names| - 1];
    assert base + names == parent + [names[|names| - 1]];
    if OnTheWay(p, base, names) {
      if |p| == |base| + |names| {
        assert p == base + names;
      } else {
        assert p <= parent;
      }
    }
    if OnTheWay(p, base, names[..|names| - 1]) {
      assert p <= base + names;
    }
  }

  lemma PlacedAdds(s: Progress, dest: Path, e: Entry)
    requires e.path != []
    ensures var r := Placed(s, dest, e);
      r.Ok? ==> AddedEntry(s.tree, r.value.tree, dest, e) && r.value.entries == s.entries + 1
  {
    hide OnTheWay, EnsureDirectory;
    forall p ensures OnTheWay(p, dest, e.path) <==> p == dest + e.path || OnTheWay(p, dest, e.path[..|e.path| - 1]) {
      LastOnTheWay(p, dest, e.path);
    }
    if e.content.None? {
      EnsureDirectoryAdds(s, dest, e.path);
      EnsureDirectoryCounts(s, dest, e.path);
    } else {
      var s0 := s.(bytes := s.bytes + |e.content.value|);
      EnsureDirectoryAdds(s0, dest, e.path[..|e.path| - 1]);
      EnsureDirectoryCounts(s0, dest, e.path[..|e.path| - 1]);
    }
  }

  /** The tree after a list of entries: what was there, each entry at its path with its content, folders on
      the way to them, and nothing else. */
  ghost predicate HoldsExactly(t: Tree, u: Tree, dest: Path, es: seq<Entry>) {
    && Kept(t, u)
    && (forall e | e in es :: dest + e.path in u && u[dest + e.path] == NodeOf(e))
    && (forall e | e in es :: WayMade(u, dest, e))
    && (forall p | p in u :: p in t || exists e | e in es :: OnTheWay(p, dest, e.path))
  }

  lemma {:induction false} PlacedAllHolds(s: Progress, dest: Path, es: seq<Entry>)
    requires forall e | e in es :: e.path != []
    ensures var r := PlacedAll(s, dest, es);
      r.Ok? ==>
        && HoldsExactly(s.tree, r.value.tree, dest, es)
        && r.value.entries == s.entries + |es| && r.value.bytes == s.bytes + ContentOf(es)
    decreases |es|
  {
    hide OnTheWay, Placed, HoldsExactly, AddedEntry, Kept;
    if es == [] {
      NothingPlaced(s.tree, dest);
    } else {
      var e, rest := es[0], es[1..];
      assert e in es;
      var s1 := Placed(s, dest, e);
      PlacedAdds(s, dest, e);
      PlacedBytes(s, dest, e);
      if s1.Ok? {
        PlacedAllHolds(s1.value, dest, rest);
        var r := PlacedAll(s1.value, dest, rest);
        if r.Ok? {
          OneMore(s.tree, s1.value.tree, r.value.tree, dest, e, rest);
          assert es == [e] + rest;
        }
      }
    }
  }

  lemma NothingPlaced(t: Tree, dest: Path)
    ensures HoldsExactly(t, t, dest, [])
  {
  }

  lemma WayStaysMade(t: Tree, u: Tree, dest: Path, e: Entry)
    requires WayMade(t, dest, e) && Kept(t, u)
    ensures WayMade(u, dest, e)
  {
    hide OnTheWay;
  }

  lemma OneMore(t: Tree, u: Tree, v: Tree, dest: Path, e: Entry, rest: seq<Entry>)
    requires AddedEntry(t, u, dest, e) && HoldsExactly(u, v, dest, rest)
    ensures HoldsExactly(t, v, dest, [e] + rest)
  {
    hide OnTheWay, WayMade;
    var es := [e] + rest;
    forall f | f in es ensures dest + f.path in v && v[dest + f.path] == NodeOf(f) {
      if f !in rest { assert f == e; }
    }
    forall f | f in es ensures WayMade(v, dest, f) {
      if f !in rest { WayStaysMade(u, v, dest, e); }
    }
    forall p | p in v ensures p in t || exists f | f in es :: OnTheWay(p, dest, f.path) {
      if p in u {
        assert p in t || OnTheWay(p, dest, e.path);
        assert e in es;
      } else {
        var f :| f in rest && OnTheWay(p, dest, f.path);
        assert f in es;
      }
    }
  }

  // ---- When everything can be placed

  /** The entry can be placed in this tree: there are only folders on the way to it, and nothing where its file
      is to be. */
  ghost predicate HasRoom(t: Tree, dest: Path, e: Entry) {
    forall p | OnTheWay(p, dest, e.path) && p in t :: t[p] == Folder && (e.content.Some? ==> p != dest + e.path)
  }

  /** A file at or above the path of the later entry, or the later entry a file at or above that of the earlier. */
  predicate Clash(e: Entry, f: Entry) {
    (e.content.Some? && e.path <= f.path) || (f.content.Some? && f.path <= e.path)
  }

  predicate NoClashes(es: seq<Entry>) {
    forall i, j | 0 <= i < j < |es| :: !Clash(es[i], es[j])
  }

  ghost predicate FoldersOnTheWay(t: Tree, base: Path, names: Path) {
    forall p | OnTheWay(p, base, names) && p in t :: t[p] == Folder
  }

  lemma {:induction false} EnsureDirectoryPossible(s: Progress, base: Path, names: Path)
    ensures var r := EnsureDirectory(s, base, names);
      (r.Ok? <==> FoldersOnTheWay(s.tree, base, names)) && (r.Err? ==> r.error == AlreadyExists)
    decreases |names|
  {
    hide OnTheWay;
    if names == [] {
      NothingOnTheWay(base);
    } else {
      var next := base + [names[0]];
      forall p ensures OnTheWay(p, base, names) <==> p == next || OnTheWay(p, next, names[1..]) {
        FirstOnTheWay(p, base, names);
      }
      if next !in s.tree {
        EnsureDirectoryPossible(WithPath(s, next, Folder), next, names[1..]);
      } else {
        EnsureDirectoryPossible(s, next, names[1..]);
      }
    }
  }

  lemma PlacedPossible(s: Progress, dest: Path, e: Entry)
    requires e.path != []
    ensures var r := Placed(s, dest, e);
      (r.Ok? <==> HasRoom(s.tree, dest, e)) && (r.Err? ==> r.error == AlreadyExists)
  {
    hide OnTheWay, EnsureDirectory, FoldersOnTheWay;
    var parent := e.path[..|e.path| - 1];
    if e.content.None? {
      EnsureDirectoryPossible(s, dest, e.path);
      RoomForFolder(s.tree, dest, e);
    } else {
      var s0 := s.(bytes := s.bytes + |e.content.value|);
      EnsureDirectoryPossible(s0, dest, parent);
      EnsureDirectoryAdds(s0, dest, parent);
      RoomForFile(s.tree, dest, e);
      LastOnTheWay(dest + e.path, dest, e.path);
    }
  }

  lemma RoomForFolder(t: Tree, dest: Path, e: Entry)
    requires e.content.None?
    ensures HasRoom(t, dest, e) <==> FoldersOnTheWay(t, dest, e.path)
  {
  }

  lemma RoomForFile(t: Tree, dest: Path, e: Entry)
    requires e.content.Some? && e.path != []
    ensures HasRoom(t, dest, e) <==> FoldersOnTheWay(t, dest, e.path[..|e.path| - 1]) && dest + e.path !in t
  {
    hide OnTheWay;
    forall p
      ensures OnTheWay(p, dest, e.path) <==> p == dest + e.path || OnTheWay(p, dest, e.path[..|e.path| - 1])
      ensures OnTheWay(dest + e.path, dest, e.path) && !OnTheWay(dest + e.path, dest, e.path[..|e.path| - 1])
    {
      LastOnTheWay(p, dest, e.path);
    }
  }

  lemma EntryOnTheWay(dest: Path, a: Path, b: Path)
    requires a != []
    ensures OnTheWay(dest + a, dest, b) <==> a <= b
  {
    if OnTheWay(dest + a, dest, b) {
      assert (dest + a)[|dest|..] == a && (dest + b)[|dest|..] == b;
      assert (dest + b)[..|dest + a|][|dest|..] == b[..|a|];
    }
  }

  /** Once e has been placed there is room for f if there was before and they do not clash. */
  lemma RoomLeft(t: Tree, u: Tree, dest: Path, e: Entry, f: Entry)
    requires e.path != [] && f.path != [] && AddedEntry(t, u, dest, e)
    ensures HasRoom(u, dest, f) <==> HasRoom(t, dest, f) && !Clash(e, f)
  {
    hide OnTheWay;
    EntryOnTheWay(dest, e.path, f.path);
    EntryOnTheWay(dest, f.path, e.path);
    LastOnTheWay(dest + e.path, dest, e.path);
    LastOnTheWay(dest + f.path, dest, f.path);
    if HasRoom(u, dest, f) {
      forall p | OnTheWay(p, dest, f.path) && p in t
        ensures t[p] == Folder && (f.content.Some? ==> p != dest + f.path)
      {
        assert p in u && u[p] == t[p];
      }
    }
  }

  /** The entries can all be placed exactly when there is room for each and no two clash. */
  lemma {:induction false} AllPlaced(s: Progress, dest: Path, es: seq<Entry>)
    requires forall e | e in es :: e.path != []
    ensures var r := PlacedAll(s, dest, es);
      && (r.Ok? <==> (forall e | e in es :: HasRoom(s.tree, dest, e)) && NoClashes(es))
      && (r.Err? ==> r.error == AlreadyExists)
    decreases |es|
  {
    hide Placed, HasRoom, AddedEntry, Clash;
    if es != [] {
      var e, rest := es[0], es[1..];
      assert e in es && forall f | f in rest :: f in es;
      assert forall f | f in es :: f == e || f in rest;
      PlacedPossible(s, dest, e);
      PlacedAdds(s, dest, e);
      var s1 := Placed(s, dest, e);
      NoClashesFirst(es);
      if s1.Ok? {
        AllPlaced(s1.value, dest, rest);
        forall f | f in rest ensures HasRoom(s1.value.tree, dest, f) <==> HasRoom(s.tree, dest, f) && !Clash(e, f) {
          RoomLeft(s.tree, s1.value.tree, dest, e, f);
        }
      }
    }
  }

  lemma NoClashesFirst(es: seq<Entry>)
    requires es != []
    ensures NoClashes(es) <==> (forall f | f in es[1..] :: !Clash(es[0], f)) && NoClashes(es[1..])
  {
    hide Clash;
    var rest := es[1..];
    if NoClashes(es) {
      forall f | f in rest ensures !Clash(es[0], f) {
        var i :| 0 <= i < |rest| && rest[i] == f;
        assert f == es[i + 1];
      }
      forall i, j | 0 <= i < j < |rest| ensures !Clash(rest[i], rest[j]) {
        assert rest[i] == es[i + 1] && rest[j] == es[j + 1];
      }
    }
    if (forall f | f in rest :: !Clash(es[0], f)) && NoClashes(rest) {
      forall i, j | 0 <= i < j < |es| ensures !Clash(es[i], es[j]) {
        assert es[j] == rest[j - 1];
        if i > 0 { assert es[i] == rest[i - 1]; }
      }
    }
  }

  /** Extracting an encoded archive into a new folder gives exactly its entries, if no two of them clash; else
      extraction fails. */
  lemma ArchiveContents(es: seq<Entry>, filler: nat, dest: Path, limit: nat, s: Progress)
    requires (forall e | e in es :: EntryOk(e)) && filler <= MAX_METADATA_BYTES
    requires StaysWithin(Begin(s), es, limit) && forall p | p in s.tree :: !(dest < p)
    ensures var r := Extract(EncodeArchive(es, filler), dest, limit, Begin(s));
      if NoClashes(es)
      then r.Ok? && HoldsExactly(s.tree, r.value.tree, dest, es)
           && r.value.entries == s.entries + |es| && r.value.bytes == s.bytes + ContentOf(es)
      else r == Err(AlreadyExists)
  {
    hide EntryOk, StaysWithin, Extract, EncodeArchive, NoClashes, HoldsExactly, PlacedAll;
    assert forall e | e in es :: e.path != [] by {
      forall e | e in es ensures e.path != [] { EntryHasPath(e); }
    }
    ArchiveRoundTrip(es, filler, dest, limit, s);
    PlacedAllHolds(s, dest, es);
    AllPlaced(s, dest, es);
    forall e | e in es ensures HasRoom(s.tree, dest, e) { RoomInNewFolder(s.tree, dest, e); }
  }

  lemma EntryHasPath(e: Entry)
    requires EntryOk(e)
    ensures e.path != []
  {
  }

  lemma RoomInNewFolder(t: Tree, dest: Path, e: Entry)
    requires forall p | p in t :: !(dest < p)
    ensures HasRoom(t, dest, e)
  {
  }
}

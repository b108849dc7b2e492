/** The preflight walk over a source: `scan_entry`, and the reading of directories. */
module TransferScan {
  import opened Basics
  import opened Paths
  import opened TransferTree
  import opened TransferDisk

  const MAX_TRANSFER_ENTRIES := 100_000
  const MAX_TRANSFER_DEPTH := 128
  const U64_MAX := 0xFFFF_FFFF_FFFF_FFFF

  type U64 = x: int | 0 <= x <= U64_MAX

  /** `Interrupted` is what cancellation returns; a call may return it of its own accord. */
  datatype TransferError = Interrupted | Failed

  // ---- Sizes

  function Size(t: Tree, p: Path): nat {
    if p in t && t[p].File? then |t[p].content| else 0
  }

  ghost function Bytes(t: Tree, s: set<Path>): nat
    decreases |s|
  {
    if s == {} then 0 else
    var p :| p in s;
    Size(t, p) + Bytes(t, s - {p})
  }

  lemma {:induction false} BytesPick(t: Tree, s: set<Path>, p: Path)
    requires p in s
    ensures Bytes(t, s) == Size(t, p) + Bytes(t, s - {p})
    decreases |s|
  {
    var q :| q in s && Bytes(t, s) == Size(t, q) + Bytes(t, s - {q});
    if q != p {
      BytesPick(t, s - {q}, p);
      BytesPick(t, s - {p}, q);
      assert s - {q} - {p} == s - {p} - {q};
    }
  }

  lemma {:induction false} BytesUnion(t: Tree, a: set<Path>, b: set<Path>)
    requires a !! b
    ensures Bytes(t, a + b) == Bytes(t, a) + Bytes(t, b)
    decreases |a|
  {
    if a == {} {
      assert a + b == b;
    } else {
      hide Bytes, Size;
      var p :| p in a;
      BytesUnion(t, a - {p}, b);
      BytesPick(t, a, p);
      BytesPick(t, a + b, p);
      assert a + b - {p} == (a - {p}) + b;
    }
  }

  lemma BytesSingle(t: Tree, p: Path)
    ensures Bytes(t, {p}) == Size(t, p)
  {
    BytesPick(t, {p}, p);
    assert {p} - {p} == {};
  }

  function BelowNames(t: Tree, p: Path, names: set<Name>): set<Path> {
    set q | q in t && p < q && q[|p|] in names
  }

  /** The size of every file below p, one count for each path. */
  ghost function TreeBytes(t: Tree, p: Path): nat {
    Bytes(t, Below(t, p))
  }

  function Children(t: Tree, p: Path): set<Name> {
    set q | q in t && |q| == |p| + 1 && p <= q :: q[|p|]
  }

  lemma ChildIn(t: Tree, p: Path, name: Name)
    ensures name in Children(t, p) <==> p + [name] in t
  {
    if name in Children(t, p) {
      var q :| q in t && |q| == |p| + 1 && p <= q && q[|p|] == name;
      assert q == p + [name];
    }
    if p + [name] in t {
      var q := p + [name];
      assert |q| == |p| + 1 && p <= q && q[|p|] == name;
    }
  }

  lemma BelowChild(p: Path, name: Name, q: Path)
    ensures p + [name] <= q <==> p < q && q[|p|] == name
  {
    if p < q && q[|p|] == name {
      assert q[..|p| + 1] == p + [name];
    }
    if p + [name] <= q {
      assert q[|p|] == (p + [name])[|p|];
      BelowTransitive(p, p + [name], q);
    }
  }

  lemma BelowNamesAdd(t: Tree, p: Path, names: set<Name>, name: Name)
    requires name !in names
    ensures BelowNames(t, p, names + {name}) == BelowNames(t, p, names) + Below(t, p + [name])
    ensures BelowNames(t, p, names) !! Below(t, p + [name])
    ensures Below(t, p + [name]) !! {p}
  {
    forall q ensures p + [name] <= q <==> p < q && q[|p|] == name { BelowChild(p, name, q); }
  }

  /** What is below p is p and what is below its children. */
  lemma BelowIsChildren(t: Tree, p: Path)
    requires Closed(t) && p in t
    ensures Below(t, p) == {p} + BelowNames(t, p, Children(t, p))
    ensures p !in BelowNames(t, p, Children(t, p))
  {
    forall q | q in t && p < q ensures q[|p|] in Children(t, p) {
      var child := p + [q[|p|]];
      BelowChild(p, q[|p|], q);
      NothingBelowAbsent(t, child, q);
      ChildIn(t, p, q[|p|]);
    }
    forall q | q in t ensures p <= q <==> p == q || p < q {}
  }

  lemma LeafBelow(t: Tree, p: Path)
    requires Closed(t) && p in t && !t[p].Dir?
    ensures Below(t, p) == {p} && TreeBytes(t, p) == Size(t, p)
  {
    forall q | q in t && p <= q ensures q == p { NothingBelowAbsent(t, p, q); }
    assert Below(t, p) == {p};
    BytesSingle(t, p);
  }

  function NameSet(names: seq<Name>): set<Name> { set i | 0 <= i < |names| :: names[i] }

  predicate Distinct(names: seq<Name>) { forall i, j | 0 <= i < j < |names| :: names[i] != names[j] }

  lemma NextName(names: seq<Name>, i: nat)
    requires i < |names| && Distinct(names)
    ensures NameSet(names[..i + 1]) == NameSet(names[..i]) + {names[i]}
    ensures names[i] !in NameSet(names[..i]) && NameSet(names[..i + 1]) <= NameSet(names)
  {
    assert names[..i + 1] == names[..i] + [names[i]];
  }

  lemma DistinctAdd(names: seq<Name>, name: Name)
    requires Distinct(names) && name !in NameSet(names)
    ensures Distinct(names + [name]) && NameSet(names + [name]) == NameSet(names) + {name}
  {
    var more := names + [name];
    assert forall i | 0 <= i < |names| :: names[i] in NameSet(names) && more[i] == names[i];
    assert more[|names|] == name;
    assert forall n | n in NameSet(names) :: n in NameSet(more);
  }

  method Listing(s: set<Name>) returns (names: seq<Name>)
    ensures Distinct(names) && NameSet(names) == s
  {
    hide Distinct, NameSet;
    names := [];
    ListingNone();
    var rest := s;
    while rest != {}
      invariant Distinct(names) && NameSet(names) !! rest && NameSet(names) + rest == s
      decreases |rest|
    {
      var name :| name in rest;
      DistinctAdd(names, name);
      names := names + [name];
      rest := rest - {name};
    }
  }

  lemma ListingNone()
    ensures Distinct([]) && NameSet([]) == {}
  {
  }

  /** The names in a directory, in any order. */
  method ReadDir(fs: FileSystem, p: Path) returns (r: Result<seq<Name>, TransferError>)
    requires fs.Valid()
    modifies fs`troubles
    ensures old(fs.troubles) <= fs.troubles
    ensures r.Ok? ==> IsDir(fs.tree, p) && Distinct(r.value) && NameSet(r.value) == Children(fs.tree, p)
    ensures r.Err? && IsDir(fs.tree, p) ==> fs.Troubled()
  {
    if !IsDir(fs.tree, p) { return Err(Failed); }
    if * { fs.troubles := fs.troubles + 1; return Err(Failed); }
    if * { fs.troubles := fs.troubles + 1; return Err(Interrupted); }
    var names := Listing(Children(fs.tree, p));
    r := Ok(names);
  }

  lemma {:induction false} SubsetSize(a: set<Path>, b: set<Path>)
    requires a <= b
    ensures |a| <= |b|
    decreases |a|
  {
    if a != {} {
      var x :| x in a;
      SubsetSize(a - {x}, b - {x});
    }
  }

  lemma BytesSubset(t: Tree, a: set<Path>, b: set<Path>)
    requires a <= b
    ensures Bytes(t, a) <= Bytes(t, b)
  {
    BytesUnion(t, a, b - a);
    assert a + (b - a) == b;
  }

  // ---- scan_entry

  predicate Walkable(t: Tree, p: Path, depth: nat, q: Path) {
    q in t && !t[q].SpecialFile? && depth + |q| - |p| <= MAX_TRANSFER_DEPTH
  }

  /** The walk over p, with `count` entries seen before, stays within its limits. */
  predicate Transferable(t: Tree, p: Path, depth: nat, count: nat) {
    && p in t && count + |Below(t, p)| <= MAX_TRANSFER_ENTRIES
    && (forall q | q in Below(t, p) :: Walkable(t, p, depth, q))
  }

  /** What is below a child is counted once, beside the entries before it. */
  lemma ChildShare(t: Tree, p: Path, names: set<Name>, name: Name)
    requires Closed(t) && p in t && names + {name} <= Children(t, p) && name !in names
    ensures BelowNames(t, p, names + {name}) == BelowNames(t, p, names) + Below(t, p + [name])
    ensures |BelowNames(t, p, names + {name})| == |BelowNames(t, p, names)| + |Below(t, p + [name])|
    ensures Bytes(t, BelowNames(t, p, names + {name})) == Bytes(t, BelowNames(t, p, names)) + TreeBytes(t, p + [name])
    ensures 1 + |BelowNames(t, p, names + {name})| <= |Below(t, p)|
    ensures Bytes(t, BelowNames(t, p, names + {name})) <= TreeBytes(t, p)
    ensures Below(t, p + [name]) < Below(t, p)
  {
    BelowNamesAdd(t, p, names, name);
    var a, b, c := BelowNames(t, p, names), Below(t, p + [name]), BelowNames(t, p, names + {name});
    BytesUnion(t, a, b);
    BelowIsChildren(t, p);
    assert c <= Below(t, p) - {p} && b <= c;
    SubsetSize(c, Below(t, p) - {p});
    BytesSubset(t, c, Below(t, p));
  }

  lemma TransferableChild(t: Tree, p: Path, depth: nat, count: nat, names: set<Name>, name: Name)
    requires Closed(t) && Transferable(t, p, depth, count)
    requires names + {name} <= Children(t, p) && name !in names
    ensures Transferable(t, p + [name], depth + 1, count + 1 + |BelowNames(t, p, names)|)
  {
    ChildShare(t, p, names, name);
    ChildIn(t, p, name);
    forall q | q in Below(t, p + [name]) ensures Walkable(t, p + [name], depth + 1, q) {
      assert Walkable(t, p, depth, q);
    }
  }

  lemma TransferableWhole(t: Tree, p: Path, depth: nat, count: nat)
    requires Closed(t) && p in t && Walkable(t, p, depth, p)
    requires forall q | q in BelowNames(t, p, Children(t, p)) :: Walkable(t, p, depth, q)
    requires count + 1 + |BelowNames(t, p, Children(t, p))| <= MAX_TRANSFER_ENTRIES
    ensures Transferable(t, p, depth, count)
    ensures |Below(t, p)| == 1 + |BelowNames(t, p, Children(t, p))|
    ensures TreeBytes(t, p) == Size(t, p) + Bytes(t, BelowNames(t, p, Children(t, p)))
  {
    BelowIsChildren(t, p);
    BytesUnion(t, {p}, BelowNames(t, p, Children(t, p)));
    BytesSingle(t, p);
  }

  /** The walk returns the size of everything below the path and has counted each entry once; it fails only for
      a reason: cancellation, a failing call, or one of its limits. */
  method ScanEntry(fs: FileSystem, flag: CancelFlag, path: Path, depth: nat, count: nat)
    returns (r: Result<nat, TransferError>, entries: nat)
    requires fs.Valid() && count <= MAX_TRANSFER_ENTRIES
    modifies fs`troubles, flag
    ensures flag.Monotone() && (old(fs.troubles) <= fs.troubles)
    ensures r.Ok? ==>
              && Transferable(fs.tree, path, depth, count)
              && r.value == TreeBytes(fs.tree, path) && entries == count + |Below(fs.tree, path)|
    ensures r.Err? ==>
              || flag.raised || fs.Troubled() || TreeBytes(fs.tree, path) > U64_MAX
              || !Transferable(fs.tree, path, depth, count)
    decreases Below(fs.tree, path)
  {
    hide Closed, Bytes, TreeBytes, BelowNames, Children, Below, Transferable, FileSystem.Valid;
    ghost var t := fs.tree;
    fs.IsSound();
    r, entries := Err(Failed), count;
    var cancelled := flag.Load();
    if cancelled { return Err(Interrupted), count; }
    NotTransferable(t, path, depth, count);
    if depth > MAX_TRANSFER_DEPTH { return; }
    entries := count + 1;
    if entries > MAX_TRANSFER_ENTRIES { return; }
    if path !in fs.tree { return; }
    var node := fs.tree[path];
    if node.SpecialFile? { return; }
    if !node.Dir? {
      LeafBelow(t, path);
      LeafTransferable(t, path, depth, count);
      r := Ok(Size(fs.tree, path));
      return;
    }
    var names := ReadDir(fs, path);
    if names.Err? { return Err(names.error), entries; }
    var total, i := 0, 0;
    BelowNone(t, path);
    assert NameSet(names.value[..0]) == {};
    while i < |names.value|
      invariant i <= |names.value| && flag.Monotone() && (old(fs.troubles) <= fs.troubles)
      invariant total == Bytes(t, BelowNames(t, path, NameSet(names.value[..i])))
      invariant entries == count + 1 + |BelowNames(t, path, NameSet(names.value[..i]))| <= MAX_TRANSFER_ENTRIES
      invariant forall q | q in BelowNames(t, path, NameSet(names.value[..i])) :: Walkable(t, path, depth, q)
    {
      var name := names.value[i];
      ghost var seen := NameSet(names.value[..i]);
      NextName(names.value, i);
      ChildShare(t, path, seen, name);
      var child;
      child, entries := ScanEntry(fs, flag, path + [name], depth + 1, entries);
      if child.Err? {
        if Transferable(t, path, depth, count) { TransferableChild(t, path, depth, count, seen, name); }
        return child, entries;
      }
      if total + child.value > U64_MAX { return Err(Failed), entries; }
      ChildWalkable(t, path, depth, name, count + 1 + |BelowNames(t, path, seen)|);
      total := total + child.value;
      i := i + 1;
    }
    assert names.value[..i] == names.value;
    TransferableWhole(t, path, depth, count);
    r := Ok(total);
  }

  lemma NotTransferable(t: Tree, p: Path, depth: nat, count: nat)
    ensures depth > MAX_TRANSFER_DEPTH || count >= MAX_TRANSFER_ENTRIES || p !in t || t[p].SpecialFile? ==>
              !Transferable(t, p, depth, count)
  {
    if p in t {
      assert p in Below(t, p);
      assert Below(t, p) != {};
    }
  }

  lemma LeafTransferable(t: Tree, p: Path, depth: nat, count: nat)
    requires Closed(t) && p in t && !t[p].Dir? && !t[p].SpecialFile?
    requires depth <= MAX_TRANSFER_DEPTH && count < MAX_TRANSFER_ENTRIES
    ensures Transferable(t, p, depth, count) && |Below(t, p)| == 1
  {
    LeafBelow(t, p);
  }

  lemma BelowNone(t: Tree, p: Path)
    ensures BelowNames(t, p, {}) == {} && Bytes(t, {}) == 0
  {
  }

  lemma ChildWalkable(t: Tree, p: Path, depth: nat, name: Name, count: nat)
    requires Transferable(t, p + [name], depth + 1, count)
    ensures forall q | q in Below(t, p + [name]) :: Walkable(t, p, depth, q)
    ensures count + |Below(t, p + [name])| <= MAX_TRANSFER_ENTRIES
  {
    forall q | q in Below(t, p + [name]) ensures Walkable(t, p, depth, q) {
      assert Walkable(t, p + [name], depth + 1, q);
    }
  }
}

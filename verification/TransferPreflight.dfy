/** The checks before a transfer: every source is there, can be walked, and does not hold the target. */
module TransferPreflight {
  import opened Basics
  import opened Paths
  import opened TransferTree
  import opened TransferDisk
  import opened TransferScan

  datatype ScannedRoot = ScannedRoot(path: Path, bytes: nat)

  function Last(s: seq<Path>): Path
    requires s != []
  {
    s[|s| - 1]
  }

  function Front(s: seq<Path>): seq<Path>
    requires s != []
  {
    s[..|s| - 1]
  }

  function TotalEntries(t: Tree, sources: seq<Path>): nat {
    if sources == [] then 0 else TotalEntries(t, Front(sources)) + |Below(t, Last(sources))|
  }

  ghost function TotalBytes(t: Tree, sources: seq<Path>): nat {
    if sources == [] then 0 else TotalBytes(t, Front(sources)) + TreeBytes(t, Last(sources))
  }

  lemma {:induction false} TotalBytesPrefix(t: Tree, sources: seq<Path>, i: nat)
    requires i <= |sources|
    ensures TotalBytes(t, sources[..i]) <= TotalBytes(t, sources)
  {
    if i == |sources| {
      assert sources[..i] == sources;
    } else {
      TotalBytesPrefix(t, Front(sources), i);
      assert Front(sources)[..i] == sources[..i];
    }
  }

  lemma NextSource(t: Tree, sources: seq<Path>, i: nat)
    requires i < |sources|
    ensures TotalBytes(t, sources[..i + 1]) == TotalBytes(t, sources[..i]) + TreeBytes(t, sources[i])
    ensures TotalEntries(t, sources[..i + 1]) == TotalEntries(t, sources[..i]) + |Below(t, sources[i])|
  {
    assert Front(sources[..i + 1]) == sources[..i] && Last(sources[..i + 1]) == sources[i];
  }

  /** The sources before i have been counted; this one can be transferred beside them. */
  predicate AcceptableSource(t: Tree, target: Path, sources: seq<Path>, i: nat)
    requires i < |sources|
  {
    !(sources[i] <= target) && Transferable(t, sources[i], 0, TotalEntries(t, sources[..i]))
  }

  /** What the preflight asks for. */
  ghost predicate Acceptable(t: Tree, target: Path, sources: seq<Path>) {
    && sources != [] && IsDir(t, target)
    && (forall i | 0 <= i < |sources| :: AcceptableSource(t, target, sources, i))
    && TotalBytes(t, sources) <= U64_MAX
  }

  predicate Scanned(t: Tree, sources: seq<Path>, roots: seq<ScannedRoot>)
    requires |roots| <= |sources|
  {
    forall i | 0 <= i < |roots| :: roots[i].path == sources[i]
  }

  ghost predicate Measured(t: Tree, roots: seq<ScannedRoot>) {
    forall i | 0 <= i < |roots| :: roots[i].bytes == TreeBytes(t, roots[i].path)
  }

  method Preflight(fs: FileSystem, cancelled: CancelFlag, sources: seq<Path>, target: Path)
    returns (r: Result<seq<ScannedRoot>, TransferError>)
    requires fs.Valid()
    modifies fs`troubles, cancelled
    ensures cancelled.Monotone() && (old(fs.troubles) <= fs.troubles)
    ensures r.Ok? ==>
              && Acceptable(fs.tree, target, sources) && |r.value| == |sources|
              && Scanned(fs.tree, sources, r.value) && Measured(fs.tree, r.value)
    ensures r.Err? ==> cancelled.raised || fs.Troubled() || !Acceptable(fs.tree, target, sources)
  {
    hide Closed, Coherent, Ledger, NothingLost, Transferable, TreeBytes, TotalBytes, TotalEntries, FileSystem.Valid;
    ghost var t := fs.tree;
    fs.IsSound();
    if sources == [] { return Err(Failed); }
    if !IsDir(fs.tree, target) { return Err(Failed); }
    var roots, total, entries := [], 0, 0;
    NoSources(t);
    assert sources[..0] == [];
    while |roots| < |sources|
      invariant |roots| <= |sources| && cancelled.Monotone() && (old(fs.troubles) <= fs.troubles)
      invariant Scanned(t, sources, roots) && Measured(t, roots)
      invariant forall i | 0 <= i < |roots| :: AcceptableSource(t, target, sources, i)
      invariant total == TotalBytes(t, sources[..|roots|]) <= U64_MAX
      invariant entries == TotalEntries(t, sources[..|roots|]) <= MAX_TRANSFER_ENTRIES
    {
      var i := |roots|;
      var source := sources[i];
      NextSource(t, sources, i);
      TotalBytesPrefix(t, sources, i + 1);
      var stop := cancelled.Load();
      if stop { return Err(Interrupted); }
      TransferableIsThere(t, source, 0, entries);
      assert AcceptableSource(t, target, sources, i) <==> !(source <= target) && Transferable(t, source, 0, entries);
      if source !in fs.tree { return Err(Failed); }
      AroundIsDirectory(t, source, target);
      if fs.tree[source].Dir? && source <= target { return Err(Failed); }
      var bytes;
      bytes, entries := ScanEntry(fs, cancelled, source, 0, entries);
      if bytes.Err? { return Err(bytes.error); }
      if total + bytes.value > U64_MAX { return Err(Failed); }
      total := total + bytes.value;
      TransferableCount(t, source, 0, TotalEntries(t, sources[..i]));
      roots := roots + [ScannedRoot(source, bytes.value)];
    }
    assert sources[..|roots|] == sources;
    r := Ok(roots);
  }

  lemma NoSources(t: Tree)
    ensures TotalBytes(t, []) == 0 && TotalEntries(t, []) == 0
  {
  }

  lemma TransferableIsThere(t: Tree, p: Path, depth: nat, count: nat)
    ensures Transferable(t, p, depth, count) ==> p in t
  {
  }

  lemma TransferableCount(t: Tree, p: Path, depth: nat, count: nat)
    requires Transferable(t, p, depth, count)
    ensures count + |Below(t, p)| <= MAX_TRANSFER_ENTRIES
  {
  }

  lemma AroundIsDirectory(t: Tree, source: Path, target: Path)
    requires Closed(t) && IsDir(t, target) && source in t
    ensures source <= target ==> t[source].Dir?
  {
    if source <= target { NothingBelowAbsent(t, source, target); }
  }
}

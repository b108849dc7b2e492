/** `prune_cache`: deleting the oldest thumbnails until the cache is within its limits. */
module ThumbnailCache {
  import opened Basics
  import opened Paths

  const MAX_CACHE_ENTRIES := 512
  const MAX_CACHE_BYTES := 128 * 1024 * 1024
  const DOT: Byte := 46

  /** An entry of the cache directory. */
  datatype Entry = Entry(modified: nat, size: nat, isFile: bool)

  datatype Listed = Listed(name: Name, modified: nat, size: nat)

  predicate Hidden(name: Name) { name != [] && name[0] == DOT }

  /** What the cache counts: regular files whose names do not begin with a dot. */
  predicate Counted(entries: map<Name, Entry>, name: Name) {
    name in entries && entries[name].isFile && !Hidden(name)
  }

  function CountedNames(entries: map<Name, Entry>): set<Name> {
    set name | name in entries && Counted(entries, name)
  }

  function Names(files: seq<Listed>): set<Name> { set i | 0 <= i < |files| :: files[i].name }

  function Sizes(files: seq<Listed>): nat {
    if files == [] then 0 else files[0].size + Sizes(files[1..])
  }

  predicate Distinct(files: seq<Listed>) {
    forall i, j | 0 <= i < j < |files| :: files[i].name != files[j].name
  }

  predicate Sorted(files: seq<Listed>) {
    forall i, j | 0 <= i < j < |files| :: files[i].modified <= files[j].modified
  }

  /** The files are exactly the counted entries, each once, with their times and sizes. */
  ghost predicate Lists(entries: map<Name, Entry>, files: seq<Listed>) {
    && Distinct(files) && Names(files) == CountedNames(entries)
    && (forall i | 0 <= i < |files| ::
          files[i].name in entries && entries[files[i].name] == Entry(files[i].modified, files[i].size, true))
  }

  predicate Within(count: nat, total: nat) { count <= MAX_CACHE_ENTRIES && total <= MAX_CACHE_BYTES }

  class Directory {
    var entries: map<Name, Entry>

    constructor (entries: map<Name, Entry>)
      ensures this.entries == entries
    {
      this.entries := entries;
    }

    /** A call that may fail. */
    method RemoveFile(name: Name) returns (ok: bool)
      requires name in entries
      modifies this
      ensures entries == if ok then old(entries) - {name} else old(entries)
    {
      ok := *;
      if ok { entries := entries - {name}; }
    }
  }

  predicate OldestIn(entries: map<Name, Entry>, names: set<Name>, name: Name) {
    name in names && name in entries && forall n | n in names && n in entries :: entries[name].modified <= entries[n].modified
  }

  lemma {:induction false} OldestExists(entries: map<Name, Entry>, names: set<Name>)
    requires names != {} && names <= entries.Keys
    ensures exists name :: OldestIn(entries, names, name)
    decreases |names|
  {
    var some :| some in names;
    if names == {some} {
      assert OldestIn(entries, names, some);
    } else {
      var others := names - {some};
      assert names == others + {some};
      assert others != {};
      OldestExists(entries, others);
      var name :| OldestIn(entries, others, name);
      assert OldestIn(entries, names, if entries[some].modified <= entries[name].modified then some else name);
    }
  }

  predicate Shows(entries: map<Name, Entry>, file: Listed) {
    file.name in entries && entries[file.name] == Entry(file.modified, file.size, true)
  }

  /** The files are those not in `rest`, oldest first, and none of them newer than one in `rest`. */
  ghost predicate Partly(entries: map<Name, Entry>, files: seq<Listed>, rest: set<Name>) {
    && rest <= CountedNames(entries) && Sorted(files) && Distinct(files)
    && Names(files) !! rest && Names(files) + rest == CountedNames(entries)
    && (forall i | 0 <= i < |files| :: Shows(entries, files[i]))
    && (forall i, n | 0 <= i < |files| && n in rest :: files[i].modified <= entries[n].modified)
  }

  lemma PartlyAdd(entries: map<Name, Entry>, files: seq<Listed>, rest: set<Name>, name: Name)
    requires Partly(entries, files, rest) && OldestIn(entries, rest, name)
    ensures Partly(entries, files + [Listed(name, entries[name].modified, entries[name].size)], rest - {name})
  {
    var file := Listed(name, entries[name].modified, entries[name].size);
    var more := files + [file];
    assert forall i | 0 <= i < |files| :: more[i] == files[i] && files[i].name in Names(files);
    NamesAdd(files, file);
    hide Names;
  }

  lemma PartlyStart(entries: map<Name, Entry>)
    ensures Partly(entries, [], CountedNames(entries))
  {
    assert Names([]) == {};
  }

  lemma PartlyEnd(entries: map<Name, Entry>, files: seq<Listed>)
    requires Partly(entries, files, {})
    ensures Lists(entries, files) && Sorted(files)
  {
    assert forall i | 0 <= i < |files| :: Shows(entries, files[i]);
  }

  /** The visible files, the oldest first, in no particular order among those of one time. */
  method ListFiles(directory: Directory) returns (files: seq<Listed>)
    ensures Lists(directory.entries, files) && Sorted(files)
  {
    hide Lists, Sorted, Partly;
    var entries := directory.entries;
    files := [];
    var rest := CountedNames(entries);
    PartlyStart(entries);
    while rest != {}
      invariant rest <= CountedNames(entries) && Partly(entries, files, rest)
      decreases |rest|
    {
      OldestExists(entries, rest);
      var name :| OldestIn(entries, rest, name);
      PartlyAdd(entries, files, rest, name);
      files := files + [Listed(name, entries[name].modified, entries[name].size)];
      rest := rest - {name};
    }
    PartlyEnd(entries, files);
  }

  lemma NamesAdd(files: seq<Listed>, file: Listed)
    ensures Names(files + [file]) == Names(files) + {file.name}
  {
    var more := files + [file];
    assert more[|files|] == file;
    assert forall i | 0 <= i < |files| :: more[i] == files[i];
    forall n | n in Names(files) ensures n in Names(more) {
      var i :| 0 <= i < |files| && files[i].name == n;
      assert more[i].name == n;
    }
  }

  // ---- Pruning

  lemma {:induction false} SizesAdd(a: seq<Listed>, b: seq<Listed>)
    ensures Sizes(a + b) == Sizes(a) + Sizes(b)
    decreases |a|
  {
    if a == [] {
      assert a + b == b;
    } else {
      SizesAdd(a[1..], b);
      assert (a + b)[1..] == a[1..] + b;
    }
  }

  /** Taking a file out of the directory and the list. */
  lemma ListsWithout(entries: map<Name, Entry>, kept: seq<Listed>, files: seq<Listed>)
    requires files != [] && Lists(entries, kept + files)
    ensures Lists(entries - {files[0].name}, kept + files[1..])
    ensures files[0].name in entries && Counted(entries, files[0].name)
  {
    var all, fewer := kept + files, kept + files[1..];
    var k := |kept|;
    assert all[k] == files[0];
    forall i | 0 <= i < |fewer| ensures fewer[i] == all[if i < k then i else i + 1] {}
    assert forall i | 0 <= i < |all| && i != k :: all[i] == fewer[if i < k then i else i - 1];
    var left := entries - {files[0].name};
    assert all[k].name in Names(all);
    forall n ensures n in Names(fewer) <==> n in CountedNames(left) {
      if n in Names(fewer) {
        var i :| 0 <= i < |fewer| && fewer[i].name == n;
        assert all[if i < k then i else i + 1].name == n;
        assert n in Names(all);
      }
      if n in CountedNames(left) {
        assert n in CountedNames(entries) && n in Names(all);
        var i :| 0 <= i < |all| && all[i].name == n;
        assert i != k;
        assert fewer[if i < k then i else i - 1].name == n;
      }
    }
  }

  /** Everything that is not a counted file is left alone. */
  predicate OthersKept(before: map<Name, Entry>, after: map<Name, Entry>) {
    && (forall n | n in before && !Counted(before, n) :: n in after)
    && (forall n | n in after :: n in before && after[n] == before[n])
  }

  /** The files whose deletion failed; `removed` says of each attempt whether it succeeded. */
  function Survivors(files: seq<Listed>, removed: seq<bool>): (kept: seq<Listed>)
    requires |removed| <= |files|
    ensures |kept| <= |removed|
  {
    if removed == [] then []
    else
      var last := |removed| - 1;
      Survivors(files, removed[..last]) + if removed[last] then [] else [files[last]]
  }

  predicate OverWith(kept: seq<Listed>, rest: seq<Listed>) {
    !Within(|kept| + |rest|, Sizes(kept) + Sizes(rest))
  }

  /** The cache is over a limit after these attempts. */
  predicate StillOver(files: seq<Listed>, removed: seq<bool>)
    requires |removed| <= |files|
  {
    OverWith(Survivors(files, removed), files[|removed|..])
  }

  /** After these attempts: what is left are the files that could not be deleted and those not tried, and before
      each attempt the cache was over a limit. */
  ghost predicate Pruned(before: map<Name, Entry>, entries: map<Name, Entry>, files: seq<Listed>, removed: seq<bool>) {
    && |removed| <= |files| && Lists(entries, Survivors(files, removed) + files[|removed|..]) && OthersKept(before, entries)
    && (forall j | 0 <= j < |removed| :: StillOver(files, removed[..j]))
  }

  lemma PrunedNext(before: map<Name, Entry>, entries: map<Name, Entry>, files: seq<Listed>, removed: seq<bool>, ok: bool)
    requires Pruned(before, entries, files, removed) && |removed| < |files| && StillOver(files, removed)
    requires files[|removed|].name in entries
    ensures Pruned(before, if ok then entries - {files[|removed|].name} else entries, files, removed + [ok])
  {
    var n := |removed|;
    var file, rest, kept, more := files[n], files[n..], Survivors(files, removed), removed + [ok];
    assert rest[0] == file && rest[1..] == files[n + 1..] && more[..n] == removed;
    ListsWithout(entries, kept, rest);
    StillOthers(before, entries, file.name);
    assert kept + rest == (kept + [file]) + files[n + 1..];
    assert kept + [] == kept;
    hide Lists, OthersKept, StillOver;
    forall j | 0 <= j < n + 1 ensures StillOver(files, more[..j]) {
      assert j < n ==> more[..j] == removed[..j];
    }
  }

  lemma PrunedFirst(before: map<Name, Entry>, entries: map<Name, Entry>, files: seq<Listed>, removed: seq<bool>)
    requires Pruned(before, entries, files, removed) && |removed| < |files|
    ensures var n := |removed|; var kept := Survivors(files, removed);
            && files[n].name in entries && |files[n..]| == 1 + |files[n + 1..]|
            && Sizes(files[n..]) == files[n].size + Sizes(files[n + 1..])
            && Survivors(files, removed + [true]) == kept
            && Survivors(files, removed + [false]) == kept + [files[n]]
            && Sizes(kept + [files[n]]) == Sizes(kept) + files[n].size
  {
    hide Lists, OthersKept, StillOver, Survivors;
    var rest := files[|removed|..];
    assert rest[0] == files[|removed|] && rest[1..] == files[|removed| + 1..];
    ListsWithout(entries, Survivors(files, removed), rest);
    OneMoreTried(files, removed);
  }

  lemma OneMoreTried(files: seq<Listed>, removed: seq<bool>)
    requires |removed| < |files|
    ensures var n := |removed|; var kept := Survivors(files, removed);
            && Survivors(files, removed + [true]) == kept
            && Survivors(files, removed + [false]) == kept + [files[n]]
            && Sizes(kept + [files[n]]) == Sizes(kept) + files[n].size
  {
    var n, kept := |removed|, Survivors(files, removed);
    assert (removed + [true])[..n] == removed && (removed + [false])[..n] == removed && kept + [] == kept;
    SizesAdd(kept, [files[n]]);
  }

  lemma PrunedStart(entries: map<Name, Entry>, files: seq<Listed>)
    requires Lists(entries, files)
    ensures Pruned(entries, entries, files, []) && files[0..] == files
  {
    assert [] + files[0..] == files;
  }

  /** Deletes files, oldest first, while the cache is over a limit. Before every attempt the cache, with what was
      left then, was over a limit; and pruning ends within the limits, or when all files were tried. */
  method PruneCache(directory: Directory) returns (ghost files: seq<Listed>, ghost removed: seq<bool>)
    modifies directory
    ensures Lists(old(directory.entries), files)
    ensures forall i, j | 0 <= i < j < |files| :: files[i].modified <= files[j].modified
    ensures Pruned(old(directory.entries), directory.entries, files, removed)
    ensures |removed| == |files| || !StillOver(files, removed)
    ensures forall n | n in old(directory.entries) && (!old(directory.entries)[n].isFile || (n != [] && n[0] == 46)) ::
              n in directory.entries && directory.entries[n] == old(directory.entries)[n]
  {
    hide Lists, Pruned, Survivors;
    var listed := ListFiles(directory);
    var count, total := |listed|, Sizes(listed);
    files, removed := listed, [];
    PrunedStart(directory.entries, listed);
    NoSurvivors(files);
    var i := 0;
    while i < |listed|
      invariant i == |removed| <= |listed| && files == listed
      invariant count == |Survivors(files, removed)| + |files[i..]|
      invariant total == Sizes(Survivors(files, removed)) + Sizes(files[i..])
      invariant Pruned(old(directory.entries), directory.entries, files, removed)
    {
      if count <= MAX_CACHE_ENTRIES && total <= MAX_CACHE_BYTES { break; }
      var file := listed[i];
      ghost var entries := directory.entries;
      PrunedFirst(old(directory.entries), entries, files, removed);
      var ok := directory.RemoveFile(file.name);
      PrunedNext(old(directory.entries), entries, files, removed, ok);
      if ok {
        count := if count >= 1 then count - 1 else 0;
        total := if total >= file.size then total - file.size else 0;
      }
      i, removed := i + 1, removed + [ok];
    }
    OthersAreKept(old(directory.entries), directory.entries, files, removed);
  }

  /** Folders and hidden files stay. */
  lemma OthersAreKept(before: map<Name, Entry>, after: map<Name, Entry>, files: seq<Listed>, removed: seq<bool>)
    requires Pruned(before, after, files, removed)
    ensures forall n | n in before && (!before[n].isFile || (n != [] && n[0] == 46)) :: n in after && after[n] == before[n]
  {
    forall n | n in before && (!before[n].isFile || (n != [] && n[0] == 46)) ensures n in after && after[n] == before[n] {
      assert !Counted(before, n);
    }
  }

  /** Over a limit: more than 512 files or more than 128 MiB. */
  lemma StillOverMeans(files: seq<Listed>, removed: seq<bool>)
    requires |removed| <= |files|
    ensures StillOver(files, removed) <==>
            var left := Survivors(files, removed) + files[|removed|..];
            |left| > 512 || Sizes(left) > 134_217_728
  {
    SizesAdd(Survivors(files, removed), files[|removed|..]);
  }

  /** What pruning has deleted is, file by file, not newer than anything that it did not try. */
  lemma OldestGoFirst(before: map<Name, Entry>, after: map<Name, Entry>, files: seq<Listed>, removed: seq<bool>, n: Name)
    requires Lists(before, files) && Pruned(before, after, files, removed) && n in before && n !in after
    requires forall i, j | 0 <= i < j < |files| :: files[i].modified <= files[j].modified
    ensures exists i :: 0 <= i < |removed| && files[i].name == n && removed[i]
    ensures forall j | |removed| <= j < |files| :: files[j].name in after && before[n].modified <= after[files[j].name].modified
  {
    hide Survivors, StillOver;
    assert !Counted(before, n) ==> n in after;
    assert n in Names(files);
    var i :| 0 <= i < |files| && files[i].name == n;
    NotTakenIsLeft(after, files, removed, i);
    forall j | |removed| <= j < |files|
      ensures files[j].name in after && before[n].modified <= after[files[j].name].modified
    {
      NotTakenIsLeft(after, files, removed, j);
    }
  }

  /** A file that was not tried, or could not be deleted, is there. */
  lemma NotTakenIsLeft(after: map<Name, Entry>, files: seq<Listed>, removed: seq<bool>, i: nat)
    requires |removed| <= |files| && Lists(after, Survivors(files, removed) + files[|removed|..]) && i < |files|
    ensures i >= |removed| || !removed[i] ==>
              files[i].name in after && after[files[i].name] == Entry(files[i].modified, files[i].size, true)
  {
    hide Distinct, Names, CountedNames, Survivors;
    var kept := Survivors(files, removed);
    var left := kept + files[|removed|..];
    if i >= |removed| {
      assert left[|kept| + i - |removed|] == files[i];
    } else if !removed[i] {
      SurvivorStays(files, removed, i);
      var k :| 0 <= k < |kept| && kept[k] == files[i];
      assert left[k] == files[i];
    }
  }

  lemma {:induction false} SurvivorStays(files: seq<Listed>, removed: seq<bool>, i: nat)
    requires i < |removed| <= |files| && !removed[i]
    ensures exists k :: 0 <= k < |Survivors(files, removed)| && Survivors(files, removed)[k] == files[i]
    decreases |removed|
  {
    var last := |removed| - 1;
    var kept := Survivors(files, removed[..last]);
    if i == last {
      assert Survivors(files, removed)[|kept|] == files[i];
    } else {
      SurvivorStays(files, removed[..last], i);
      var k :| 0 <= k < |kept| && kept[k] == files[i];
      assert Survivors(files, removed)[k] == files[i];
    }
  }

  lemma NoSurvivors(files: seq<Listed>)
    ensures Survivors(files, []) == []
  {
  }

  lemma StillOthers(before: map<Name, Entry>, after: map<Name, Entry>, name: Name)
    requires OthersKept(before, after) && Counted(after, name)
    ensures OthersKept(before, after - {name})
  {
  }
}

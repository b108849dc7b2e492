/** `copy_path_recursively`, by which a move across devices is undone: what it keeps and what it loses. */
module TransferUndoCopy {
  import opened Basics
  import opened Paths
  import opened TransferTree
  import opened TransferDisk
  import opened TransferCopy
  import opened TransferSteps
  import opened TransferUndoTrees

  /** What undoing depends on beside the tree: to which item a path leads when links are followed, how long a path
      through links can be, and whether the library that moves across devices takes a link along or what it leads
      to. */
  datatype World = World(leadsTo: (Tree, Path) -> Option<Path>, longest: nat, keepsLinks: bool)

  /** A path without links leads to itself, and every path to an item that is no link or nowhere. */
  ghost predicate Lawful(world: World) {
    forall t: Tree, p: Path | Closed(t) :: LeadsRightly(t, p, world.leadsTo(t, p), world.longest)
  }

  predicate LeadsRightly(t: Tree, p: Path, q: Option<Path>, longest: nat) {
    && (p in t && !t[p].Link? ==> q == Some(p))
    && (q.Some? ==> q.value in t && !t[q.value].Link?)
    && (q.Some? && p !in t ==> |p| <= longest)
  }

  /** What the copy makes of an item: folders get the mode of new ones, and links are followed. */
  predicate BackItem(m: Node, n: Node) {
    match m
    case Dir(_) => n == Dir(NEW_DIR_MODE)
    case File(_, content, mode) => n.File? && n.content == content && n.mode == mode
    case Link(_) => n.File? || n == Dir(NEW_DIR_MODE)
    case SpecialFile => false
  }

  /** A link stands above `rest`. */
  ghost predicate UnderLink(t: Tree, d: Path, rest: Path) {
    exists r {:trigger At(d, r)} :: r < rest && At(d, r) in t && t[At(d, r)].Link?
  }

  predicate BackMirrors(t: Tree, c: Tree, d: Path, s: Path, rest: Path) {
    && (At(d, rest) in t <==> At(s, rest) in c)
    && (At(d, rest) in t ==> BackItem(t[At(d, rest)], c[At(s, rest)]))
  }

  ghost predicate BackCopied(t: Tree, c: Tree, d: Path, s: Path, rest: Path) {
    forall r | rest <= r && !UnderLink(t, d, r) :: BackMirrors(t, c, d, s, r)
  }

  predicate NoLinks(t: Tree, s: Path) { forall q | q in t && s <= q :: !t[q].Link? }

  /** c is t and below s what copying d makes; below what a link stood for there may be anything but links. */
  ghost predicate BackCopy(t: Tree, c: Tree, d: Path, s: Path) {
    Beside(t, c, s) && BackCopied(t, c, d, s, []) && NoLinks(c, s)
  }

  /** A new item can be made at s. */
  predicate CanCreate(t: Tree, s: Path) { s !in t && s != [] && IsDir(t, Parent(s)) }

  predicate FilesAndFolders(t: Tree, d: Path) {
    d in t && forall q | q in t && d <= q :: t[q].File? || t[q].Dir?
  }

  /** Copy and removal; a copy that fails leaves what it has made, and what it was made from. */
  ghost predicate FellBack(t: Tree, u: Tree, d: Path, s: Path, ok: bool) {
    if ok
    then CanCreate(t, s) && exists c :: BackCopy(t, c, d, s) && u == Without(c, d)
    else Beside(t, u, s) && !(CanCreate(t, s) && FilesAndFolders(t, d))
  }

  /** Only files, and folders whose mode is that of new ones. */
  predicate PlainTree(t: Tree, d: Path) {
    forall q | q in t && d <= q :: t[q].File? || t[q] == Dir(NEW_DIR_MODE)
  }

  lemma PlainNotUnderLink(t: Tree, d: Path, rest: Path)
    requires PlainTree(t, d)
    ensures !UnderLink(t, d, rest)
  {
    forall r {:trigger At(d, r)} | r < rest && At(d, r) in t ensures !t[At(d, r)].Link? {
      AtSlice(d, r);
    }
  }

  /** A plain tree is moved back but for inodes. */
  lemma PlainBack(t: Tree, c: Tree, d: Path, s: Path)
    requires BackCopy(t, c, d, s) && PlainTree(t, d) && Apart(s, d) && Closed(t) && s !in t
    ensures Alike(Without(c, d), Renamed(t, d, s))
  {
    hide SameItem, Renamed, At, BackItem, Closed, NoLinks, PlainTree;
    var u, v := Without(c, d), Renamed(t, d, s);
    AbsentBelow(t, s);
    forall q ensures q in u <==> q in v
      ensures q in u ==> SameItem(u[q], v[q])
    {
      if s <= q {
        Split(s, q);
        PlainBackItem(t, c, d, s, q[|s|..]);
      } else if d <= q {
        Split(d, q);
        RenamedBelow(t, d, s, q[|d|..]);
        AtSlice(s, q[|d|..]);
      } else {
        RenamedBeside(t, d, s, q);
        SameAsItself(u, q);
      }
    }
  }

  lemma PlainBackItem(t: Tree, c: Tree, d: Path, s: Path, rest: Path)
    requires BackCopied(t, c, d, s, []) && PlainTree(t, d) && Apart(s, d)
    ensures var u, v := Without(c, d), Renamed(t, d, s);
            && (At(s, rest) in u <==> At(s, rest) in v)
            && (At(s, rest) in u ==> SameItem(u[At(s, rest)], v[At(s, rest)]))
  {
    hide Renamed;
    PlainNotUnderLink(t, d, rest);
    AtSlice(s, rest);
    AtSlice(d, rest);
    ApartTrees(s, d, At(s, rest));
    RenamedBelow(t, d, s, rest);
    assert BackMirrors(t, c, d, s, rest);
  }

  /** What is not plain is not kept: some link or folder mode is lost. */
  lemma SpoiltBack(t: Tree, c: Tree, d: Path, s: Path) returns (rest: Path)
    requires BackCopy(t, c, d, s) && !PlainTree(t, d)
    ensures At(d, rest) in t && (t[At(d, rest)].Link? || t[At(d, rest)].Dir?)
    ensures At(s, rest) in c ==> !SameItem(t[At(d, rest)], c[At(s, rest)])
  {
    hide At;
    if q :| q in t && d <= q && t[q].Link? {
      rest := q[|d|..];
      Split(d, q);
      AtSlice(s, rest);
    } else {
      var q :| q in t && d <= q && !t[q].File? && t[q] != Dir(NEW_DIR_MODE);
      rest := q[|d|..];
      Split(d, q);
      assert !UnderLink(t, d, rest) by {
        forall r {:trigger At(d, r)} | r < rest && At(d, r) in t ensures !t[At(d, r)].Link? { AtSlice(d, r); }
      }
      assert BackMirrors(t, c, d, s, rest);
    }
  }
}

/** dirSize: a walk over a file tree whose callback adds up the sizes of the
    non-directory entries, prunes subdirectories unless recursion is on, and
    aborts on the first entry the walk could not read. The filesystem is a
    tree value; filepath.Walk is modelled by WalkTree. */
module DirWalk {

  datatype Option<T> = None | Some(value: T)

  /** The text of an error the filesystem reported. */
  type FsError = string

  /** One entry of the walked tree, children in the order the walk visits them
      (filepath.Walk lists a directory in lexical order):
      - File: any entry that is not a directory (regular file, symbolic link,
        device), with the size its metadata reports;
      - Dir: a directory whose entries could be listed;
      - Broken: an entry whose metadata or whose listing could not be read,
        so that the callback receives a non-nil error for it. */
  datatype Node =
    | File(size: int)
    | Dir(children: seq<Node>)
    | Broken(err: FsError)

  /** The outcome of a walk: the bytes added to the accumulator and the error
      it stopped on, if any. On an error the total is the partial sum that
      dirSize returns alongside it. */
  datatype Walk = Walk(total: int, err: Option<FsError>)

  /** Walking `a` and then, unless `a` stopped on an error, `b`. */
  function Then(a: Walk, b: Walk): Walk
  {
    if a.err.Some? then a else Walk(a.total + b.total, b.err)
  }

  /** What walking the subtree `n` adds and whether it aborts. A directory
      other than the root is pruned when not recursive, but an error on it is
      reported first. */
  function Walked(n: Node, isRoot: bool, recursive: bool): Walk
    decreases n, 1
  {
    match n
    case File(size) => Walk(size, None)
    case Broken(e) => Walk(0, Some(e))
    case Dir(children) =>
      if !isRoot && !recursive then Walk(0, None) else WalkedAll(children, recursive)
  }

  /** Walking the entries of one directory in order. */
  function WalkedAll(ns: seq<Node>, recursive: bool): Walk
    decreases ns, 0
  {
    if ns == [] then Walk(0, None)
    else Then(Walked(ns[0], false, recursive), WalkedAll(ns[1..], recursive))
  }

  // ----- reference definitions -----

  /** Bytes of every non-directory entry in the tree. */
  function TreeBytes(n: Node): int
    decreases n, 1
  {
    match n
    case File(size) => size
    case Broken(_) => 0
    case Dir(children) => ForestBytes(children)
  }

  function ForestBytes(ns: seq<Node>): int
    decreases ns, 0
  {
    if ns == [] then 0 else TreeBytes(ns[0]) + ForestBytes(ns[1..])
  }

  /** The error of the first unreadable entry in pre-order, if any. */
  function FirstFault(n: Node): Option<FsError>
    decreases n, 1
  {
    match n
    case File(_) => None
    case Broken(e) => Some(e)
    case Dir(children) => FirstFaultAll(children)
  }

  function FirstFaultAll(ns: seq<Node>): Option<FsError>
    decreases ns, 0
  {
    if ns == [] then None
    else if FirstFault(ns[0]).Some? then FirstFault(ns[0])
    else FirstFaultAll(ns[1..])
  }

  /** Bytes of the non-directory entries directly inside a directory. */
  function DirectBytes(ns: seq<Node>): int
  {
    if ns == [] then 0
    else (if ns[0].File? then ns[0].size else 0) + DirectBytes(ns[1..])
  }

  /** The error of the first unreadable entry directly inside a directory. */
  function FirstBrokenChild(ns: seq<Node>): Option<FsError>
  {
    if ns == [] then None
    else if ns[0].Broken? then Some(ns[0].err)
    else FirstBrokenChild(ns[1..])
  }

  /** No file in the tree has a negative size. */
  predicate NonNegative(n: Node)
    decreases n, 1
  {
    match n
    case File(size) => 0 <= size
    case Broken(_) => true
    case Dir(children) => AllNonNegative(children)
  }

  predicate AllNonNegative(ns: seq<Node>)
    decreases ns, 0
  {
    ns == [] || (NonNegative(ns[0]) && AllNonNegative(ns[1..]))
  }

  // ----- the walk -----

  /** What the walk callback returns: nil, filepath.SkipDir, or an error. */
  datatype Signal = Continue | SkipDir | Abort(err: FsError)

  /** The closure walkFunc of dirSize together with the variable totalSize
      it captures. */
  class SizeWalker {
    const recursive: bool
    var totalSize: int

    constructor (recursive: bool)
      ensures this.recursive == recursive && totalSize == 0
    {
      this.recursive := recursive;
      totalSize := 0;
    }

    /** walkFunc, called once per visited entry; isRoot is `p == path`. */
    method Visit(isRoot: bool, entry: Node) returns (s: Signal)
      modifies this
      ensures entry.Broken? ==> s == Abort(entry.err)
      ensures entry.Dir? ==> s == (if !isRoot && !recursive then SkipDir else Continue)
      ensures entry.File? ==> s == Continue
      ensures totalSize == old(totalSize) + (if entry.File? then entry.size else 0)
    {
      if entry.Broken? {
        return Abort(entry.err);
      }
      if entry.Dir? && !isRoot && !recursive {
        return SkipDir;
      }
      if !entry.Dir? {
        totalSize := totalSize + entry.size;
      }
      return Continue;
    }
  }

  /** filepath.walk: call the callback on `n`; if `n` is a directory and the
      callback did not prune it, walk its entries. */
  method WalkTree(n: Node, isRoot: bool, w: SizeWalker) returns (s: Signal)
    modifies w
    decreases n, 1
    ensures w.totalSize == old(w.totalSize) + Walked(n, isRoot, w.recursive).total
    ensures s.Abort? <==> Walked(n, isRoot, w.recursive).err.Some?
    ensures s.Abort? ==> Walked(n, isRoot, w.recursive).err == Some(s.err)
    ensures s == SkipDir ==> n.Dir? && !isRoot && !w.recursive
  {
    s := w.Visit(isRoot, n);
    if s == Continue && n.Dir? {
      s := WalkEntries(n.children, w);
    }
  }

  /** filepath.walk's pass over the entries of a directory, in order, written
      as recursion on the first entry: stop at the first error; SkipDir from a
      subdirectory means "go on". */
  method WalkEntries(children: seq<Node>, w: SizeWalker) returns (s: Signal)
    modifies w
    decreases children, 0
    ensures w.totalSize == old(w.totalSize) + WalkedAll(children, w.recursive).total
    ensures s.Abort? <==> WalkedAll(children, w.recursive).err.Some?
    ensures s.Abort? ==> WalkedAll(children, w.recursive).err == Some(s.err)
    ensures s == Continue || s.Abort?
  {
    if children == [] {
      return Continue;
    }
    s := WalkTree(children[0], false, w);
    if s != Continue && !(children[0].Dir? && s == SkipDir) {
      return;
    }
    s := WalkEntries(children[1..], w);
  }

  /** dirSize(path): the total and the error of walking `root`. */
  method DirSize(root: Node, recursive: bool) returns (total: int, err: Option<FsError>)
    ensures Walk(total, err) == Walked(root, true, recursive)
  {
    var w := new SizeWalker(recursive);
    var s := WalkTree(root, true, w);
    total := w.totalSize;
    err := if s.Abort? then Some(s.err) else None;
  }

  // ----- properties -----

  lemma {:induction false} WalkedAllAppend(a: seq<Node>, b: seq<Node>, recursive: bool)
    ensures WalkedAll(a + b, recursive) == Then(WalkedAll(a, recursive), WalkedAll(b, recursive))
    decreases a
  {
    if a == [] {
      assert a + b == b;
    } else {
      assert (a + b)[0] == a[0];
      assert (a + b)[1..] == a[1..] + b;
      WalkedAllAppend(a[1..], b, recursive);
    }
  }

  /** A walk that stops on an error within the first k entries ignores the rest. */
  lemma WalkedAllStops(ns: seq<Node>, k: int, recursive: bool)
    requires 0 <= k <= |ns| && WalkedAll(ns[..k], recursive).err.Some?
    ensures WalkedAll(ns, recursive) == WalkedAll(ns[..k], recursive)
  {
    WalkedAllAppend(ns[..k], ns[k..], recursive);
    assert ns == ns[..k] + ns[k..];
  }

  /** A root that is not a directory yields its own size whatever the flag. */
  lemma FileRootYieldsItsSize(size: int, recursive: bool)
    ensures Walked(File(size), true, recursive) == Walk(size, None)
  {
  }

  /** With recursion on, the walk reports the first unreadable entry of the
      whole tree, and without one its total is the sum over every
      non-directory entry: directories add nothing themselves. */
  lemma {:induction false} RecursiveWalkCoversTree(n: Node, isRoot: bool)
    ensures Walked(n, isRoot, true).err == FirstFault(n)
    ensures FirstFault(n) == None ==> Walked(n, isRoot, true).total == TreeBytes(n)
    decreases n, 1
  {
    if n.Dir? {
      RecursiveWalkCoversForest(n.children);
    }
  }

  lemma {:induction false} RecursiveWalkCoversForest(ns: seq<Node>)
    ensures WalkedAll(ns, true).err == FirstFaultAll(ns)
    ensures FirstFaultAll(ns) == None ==> WalkedAll(ns, true).total == ForestBytes(ns)
    decreases ns, 0
  {
    if ns != [] {
      RecursiveWalkCoversTree(ns[0], false);
      RecursiveWalkCoversForest(ns[1..]);
    }
  }

  /** With recursion off, every subdirectory of the root is pruned: the walk
      reports the first unreadable direct entry, and without one its total is
      the sum of the root's direct non-directory entries. */
  lemma {:induction false} ShallowWalkCoversDirectEntries(ns: seq<Node>)
    ensures Walked(Dir(ns), true, false).err == FirstBrokenChild(ns)
    ensures FirstBrokenChild(ns) == None ==> Walked(Dir(ns), true, false).total == DirectBytes(ns)
  {
    if ns != [] {
      ShallowWalkCoversDirectEntries(ns[1..]);
      assert Walked(Dir(ns), true, false) == WalkedAll(ns, false);
      assert Walked(Dir(ns[1..]), true, false) == WalkedAll(ns[1..], false);
    }
  }

  /** An unreadable entry directly inside the root aborts the walk whatever
      the recursion flag: the error check comes before the prune check. */
  lemma BrokenEntryAborts(ns: seq<Node>, i: int, recursive: bool)
    requires 0 <= i < |ns| && ns[i].Broken?
    ensures Walked(Dir(ns), true, recursive).err.Some?
  {
    if recursive {
      RecursiveWalkCoversForest(ns);
      FaultAllFound(ns, i);
    } else {
      ShallowWalkCoversDirectEntries(ns);
      BrokenChildFound(ns, i);
    }
  }

  /** With non-negative sizes, a recursive walk that succeeds implies that
      the non-recursive one succeeds too, with a total at most as large. */
  lemma ShallowAtMostDeep(n: Node)
    requires NonNegative(n)
    requires Walked(n, true, true).err == None
    ensures Walked(n, true, false).err == None
    ensures Walked(n, true, false).total <= Walked(n, true, true).total
  {
    if n.Dir? {
      RecursiveWalkCoversTree(n, true);
      ShallowWalkCoversDirectEntries(n.children);
      NoFaultNoBrokenChild(n.children);
      DirectAtMostForest(n.children);
    }
  }

  // ----- helpers -----

  lemma {:induction false} FaultAllFound(ns: seq<Node>, i: int)
    requires 0 <= i < |ns| && ns[i].Broken?
    ensures FirstFaultAll(ns).Some?
  {
    if i > 0 && FirstFault(ns[0]).None? {
      FaultAllFound(ns[1..], i - 1);
    }
  }

  lemma {:induction false} BrokenChildFound(ns: seq<Node>, i: int)
    requires 0 <= i < |ns| && ns[i].Broken?
    ensures FirstBrokenChild(ns).Some?
  {
    if i > 0 && !ns[0].Broken? {
      BrokenChildFound(ns[1..], i - 1);
    }
  }

  lemma {:induction false} NoFaultNoBrokenChild(ns: seq<Node>)
    requires FirstFaultAll(ns) == None
    ensures FirstBrokenChild(ns) == None
  {
    if ns != [] {
      NoFaultNoBrokenChild(ns[1..]);
    }
  }

  lemma {:induction false} DirectAtMostForest(ns: seq<Node>)
    requires AllNonNegative(ns)
    ensures DirectBytes(ns) <= ForestBytes(ns)
  {
    if ns != [] {
      DirectAtMostForest(ns[1..]);
      if ns[0].Dir? {
        TreeBytesNonNegative(ns[0]);
      }
    }
  }

  lemma {:induction false} TreeBytesNonNegative(n: Node)
    requires NonNegative(n)
    ensures 0 <= TreeBytes(n)
    decreases n, 1
  {
    if n.Dir? {
      ForestBytesNonNegative(n.children);
    }
  }

  lemma {:induction false} ForestBytesNonNegative(ns: seq<Node>)
    requires AllNonNegative(ns)
    ensures 0 <= ForestBytes(ns)
    decreases ns, 0
  {
    if ns != [] {
      TreeBytesNonNegative(ns[0]);
      ForestBytesNonNegative(ns[1..]);
    }
  }
}

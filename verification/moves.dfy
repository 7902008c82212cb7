// Moving and removing paths (fs_rename_file and fs_remove_file in src/chisai-core/fs.c).
module Moves {
  import opened Codec
  import opened Invariant
  import opened Layout
  import opened Namespace
  import opened Nodes
  import opened Operations
  import opened Paths
  import opened Pools
  import opened Resolution
  import opened State
  import opened Tables

  /** Take the entry `name` out of directory `d` and store the table. */
  function CutIn(st: Fs, d: nat, name: Name): (u: Fs) {
    if d >= |st.inodes| then st
    else SaveDir(st, st.inodes[d].direct[0], Remove(DirOf(st, d), name).0)
  }

  /** fs_rename_file; the source entry is gone by the time the target is looked at. */
  function RenameFile(st: Fs, from: Bytes, to: Bytes): (r: (Fs, Error))
    requires HasSlash(from) && HasSlash(to)
  {
    var (e, d) := PathToParent(st, from);
    if e != OK then (st, e)
    else
      var c := Lookup(DirOf(st, d), Last(from));
      if c == 0 then (st, ENOENT)
      else MoveTo(CutIn(st, d, Last(from)), c, to)
  }

  /** Second half: enter inode `c` at `to`. */
  function MoveTo(mid: Fs, c: nat, to: Bytes): (r: (Fs, Error))
    requires HasSlash(to)
  {
    var (e, q) := PathToParent(mid, to);
    if e != OK then (mid, e)
    else if DirOf(mid, q).size >= SLOTS then (mid, CORRUPT)
    else (EnterIn(mid, q, Last(to), c), OK)
  }

  /** fs_remove_file; it aborts when the name is not there. */
  function RemoveFile(st: Fs, path: Bytes): (r: (Fs, Error))
    requires HasSlash(path)
  {
    var (e, d) := PathToParent(st, path);
    if e != OK then (st, e)
    else RemoveIn(st, d, Last(path))
  }

  function RemoveIn(st: Fs, d: nat, name: Name): (r: (Fs, Error)) {
    var (t, c) := Remove(DirOf(st, d), name);
    if !InUse(st.ipool, c) || c >= |st.inodes| || d >= |st.inodes| then (st, ABORT)
    else (SaveDir(DropNode(st, c), st.inodes[d].direct[0], t), OK)
  }

  // ---------- taking a path out ----------

  /** The tree has lost a path with everything below it, and nothing else. */
  ghost predicate TreeLoses(st: Fs, u: Fs, full: Path) {
    forall p: Path :: TreeAt(Tree(u), p) == if full <= p then 0 else TreeAt(Tree(st), p)
  }

  lemma LosesSubtree(st: Fs, u: Fs, dir: Path, d: nat, name: Name, dead: nat)
    requires Inv(st) && d == TreeAt(Tree(st), dir) && d != 0
    requires CutsEdge(Tree(st), Tree(u), d, name, dead)
    requires dead == 0 || dead == Child(st, d, name)
    ensures TreeLoses(st, u, dir + [name])
  {
    hide TreeAt, Lookup, DirAt, IsDir, InUse;
    forall p: Path
      ensures TreeAt(Tree(u), p) == if dir + [name] <= p then 0 else TreeAt(Tree(st), p)
    {
      CutRemovesSubtree(Tree(st), Tree(u), dir, name, dead, p);
    }
  }

  /** The walk then finds nothing below the lost path, and everything else as before. */
  lemma LosesWalk(st: Fs, u: Fs, full: Path, p: Path)
    requires WalkInv(st) && WalkInv(u) && TreeLoses(st, u, full) && u.inodes == st.inodes && ThroughDirs(st, p)
    ensures ThroughDirs(u, p) && Resolve(u, p) == if full <= p then 0 else Resolve(st, p)
  {
    hide WalkInv, TreeAt, Resolve;
    forall k | 0 <= k < |p|
      ensures TableOrNothing(u, TreeAt(Tree(u), p[..k]))
    {
      assert TableOrNothing(st, TreeAt(Tree(st), p[..k]));
    }
    ResolveIsTree(st, p);
    ResolveIsTree(u, p);
  }

  /** What is known after the source entry has been taken out. */
  ghost predicate CutOut(st: Fs, mid: Fs, dir: Path, d: nat, name: Name, c: nat) {
    match mid
    case Fs(b, _, _, _, _, _, _) =>
      && b == st.b && Inv(mid) && OnlyNode(st, mid, d) && TreeLoses(st, mid, dir + [name])
      && CutsEdge(Tree(st), Tree(mid), d, name, 0) && Unlinked(mid, c)
      && LostEntry(st, mid, d, name)
      && mid.inodes == st.inodes && mid.ipool == st.ipool && mid.dpool == st.dpool
      && mid.freeBlocks == st.freeBlocks && mid.freeInodes == st.freeInodes
  }

  lemma CutOutMeaning(st: Fs, dir: Path, d: nat, name: Name, c: nat)
    requires Inv(st) && LiveDir(st, d) && d == TreeAt(Tree(st), dir)
    requires c == Child(st, d, name) && c != 0
    ensures CutOut(st, CutIn(st, d, name), dir, d, name, c)
    ensures c == Remove(DirOf(st, d), name).1
  {
    UnlinkEntry(st, d, name);
    LosesSubtree(st, CutIn(st, d, name), dir, d, name, 0);
  }

  // ---------- remove ----------

  /** The outcome of a removal: of the blocks, only the one in the first slot is given back. */
  ghost predicate Removed(st: Fs, u: Fs, full: Path, d: nat, c: nat) {
    match u
    case Fs(b, _, _, _, _, _, _) =>
      && b == st.b && Inv(u) && SameDevice(st, u) && TreeLoses(st, u, full)
      && (forall j: nat :: Live(u, j) <==> Live(st, j) && j != c)
      && (forall j: nat :: Live(u, j) && j != d ==> Same(st, u, j))
      && c < |st.inodes| && u.inodes == st.inodes
      && (forall e: nat :: InUse(u.dpool, e) <==> InUse(st.dpool, e) && e != st.inodes[c].direct[0])
  }

  lemma RemoveSucceeds(st: Fs, dir: Path, d: nat, name: Name, c: nat)
    requires Inv(st) && LiveDir(st, d) && d == TreeAt(Tree(st), dir)
    requires c == Child(st, d, name) && c != 0
    ensures var r := RemoveIn(st, d, name);
            && r.1 == OK && Removed(st, r.0, dir + [name], d, c) && LostEntry(st, r.0, d, name)
            && InodeDrift(r.0) == InodeDrift(st)
            && BlockDrift(r.0) == (if st.inodes[c].direct[0] != 0 then BlockDrift(st) else U32(BlockDrift(st) + 1))
  {
    hide Inv, Removed, LostEntry, TreeAt, CutsEdge, RemoveIn, CutIn, Unlinked;
    CutOutMeaning(st, dir, d, name, c);
    var mid := CutIn(st, d, name);
    ChildIsLive(st, d, name);
    RemoveUnfold(st, d, name, c);
    LiveAgain(st, mid);
    DropKeeps(mid, c);
    DropPools(mid, c);
    DropDrift(mid, c);
    ZeroFree(mid.dpool);
    DriftSame(st, mid); InodeDriftSame(st, mid);
    RemovedFrom(st, mid, DropNode(mid, c), dir, d, name, c);
    StillWithout(st, mid, DropNode(mid, c), d, name);
  }

  /** Giving the node back and storing the parent's table touch different things. */
  lemma RemoveUnfold(st: Fs, d: nat, name: Name, c: nat)
    requires c == Remove(DirOf(st, d), name).1 && Live(st, c) && d < |st.inodes|
    ensures RemoveIn(st, d, name) == (DropNode(CutIn(st, d, name), c), OK)
  {
    hide Remove, Tables.Encode, Splice, Release;
  }

  /** Giving blocks and inodes back leaves the table as it is. */
  lemma StillWithout(st: Fs, mid: Fs, u: Fs, d: nat, name: Name)
    requires LostEntry(st, mid, d, name) && u.inodes == mid.inodes && u.blocks == mid.blocks
    ensures LostEntry(st, u, d, name)
  {
  }

  lemma ChildIsLive(st: Fs, d: nat, name: Name)
    requires Inv(st) && Child(st, d, name) != 0
    ensures Live(st, Child(st, d, name)) && Child(st, d, name) != ROOT
  {
    assert Tree(st)(d, name) != ROOT;
  }

  lemma RemovedFrom(st: Fs, mid: Fs, u: Fs, dir: Path, d: nat, name: Name, c: nat)
    requires Inv(st) && LiveDir(st, d) && d == TreeAt(Tree(st), dir) && c == Child(st, d, name) && c != 0
    requires CutOut(st, mid, dir, d, name, c)
    requires Inv(u) && OnlyNode(mid, u, c) && c < |st.inodes| && u.inodes == mid.inodes
    requires forall e: nat :: InUse(u.dpool, e) <==> InUse(mid.dpool, e) && e != mid.inodes[c].direct[0]
    requires forall j: nat :: Live(u, j) <==> Live(mid, j) && j != c
    requires forall j: nat, n: Name :: Child(u, j, n) == if j == c then 0 else Child(mid, j, n)
    ensures Removed(st, u, dir + [name], d, c)
  {
    LiveAgain(st, mid);
    assert CutsEdge(Tree(st), Tree(u), d, name, c) by {
      CutThenDrop(Tree(st), Tree(mid), Tree(u), d, name, c);
    }
    LosesSubtree(st, u, dir, d, name, c);
    forall j: nat | Live(u, j) && j != d
      ensures Same(st, u, j)
    {
      SameTransitive(st, mid, u, j);
    }
  }

  lemma CutThenDrop(g: Edges, m: Edges, h: Edges, d: nat, n: Name, c: nat)
    requires CutsEdge(g, m, d, n, 0) && (forall x :: g(0, x) == 0)
    requires forall e, x :: h(e, x) == if e == c then 0 else m(e, x)
    ensures CutsEdge(g, h, d, n, c)
  {
  }

  /**
   * Removing a path refines deleting a subtree: it succeeds exactly when the path leads to a node,
   * and then neither the path nor anything below it resolves, every other path resolves as before,
   * and every file and directory but the parent is untouched. It trips its assertion exactly when
   * the parent is a directory without such an entry. The block counter drifts by one exactly when
   * the removed node had no block in its first slot. A path that ends in a slash stands for an entry
   * with the empty name, although the walk takes it to the directory itself.
   */
  lemma RemoveFileMeaning(st: Fs, path: Bytes) returns (r: (Fs, Error))
    requires Inv(st) && PathOk(st, path)
    ensures r == RemoveFile(st, path)
    ensures var d := TreeAt(Tree(st), DirPath(path));
            && (r.1 == OK <==> |Last(path)| <= NAME_LEN && TreeAt(Tree(st), FullPath(path)) != 0)
            && (r.1 == ENAMETOOLONG <==> |Last(path)| > NAME_LEN)
            && (r.1 == ENOENT <==> |Last(path)| <= NAME_LEN && d == 0)
            && (r.1 == CORRUPT <==> |Last(path)| <= NAME_LEN && d != 0 && !IsDirAt(st, d))
            && (r.1 == ABORT <==> |Last(path)| <= NAME_LEN && LiveDir(st, d) && Child(st, d, Last(path)) == 0)
    ensures Last(path) != [] ==> (r.1 == OK <==> |Last(path)| <= NAME_LEN && Resolve(st, Tokens(path)) != 0)
    ensures r.1 == OK ==> (Resolve(r.0, Tokens(path)) == 0 <==> Last(path) != [])
    ensures r.1 == OK ==> LostEntry(st, r.0, TreeAt(Tree(st), DirPath(path)), Last(path))
    ensures r.1 != OK ==> r.0 == st
    ensures var c := TreeAt(Tree(st), FullPath(path));
            r.1 == OK ==>
              (&& c < |st.inodes| && Removed(st, r.0, FullPath(path), TreeAt(Tree(st), DirPath(path)), c)
               && InodeDrift(r.0) == InodeDrift(st)
               && BlockDrift(r.0) == (if st.inodes[c].direct[0] != 0 then BlockDrift(st) else U32(BlockDrift(st) + 1)))
  {
    r := RemoveFile(st, path);
    ParentMeaning(st, path);
    var (e, d) := PathToParent(st, path);
    FullPathSteps(st, path);
    StringResolves(st, path);
    if e == OK {
      var c := Child(st, d, Last(path));
      if c != 0 {
        ChildIsLive(st, d, Last(path));
        RemoveSucceeds(st, DirPath(path), d, Last(path), c);
        RemovedPath(st, r.0, path, d, c);
      } else {
        NothingToRemove(st, d, Last(path));
      }
    }
  }

  /** What the walk finds for the path string. */
  lemma StringResolves(st: Fs, path: Bytes)
    requires Inv(st) && PathOk(st, path)
    ensures Resolve(st, Tokens(path)) == TreeAt(Tree(st), if Last(path) == [] then DirPath(path) else FullPath(path))
    ensures TreeAt(Tree(st), FullPath(path)) != 0 ==> TreeAt(Tree(st), DirPath(path)) != 0
  {
    FullPathSteps(st, path);
    hide Inv, PathOk, ThroughDirs, Resolve, TreeAt, WalkInv;
    StringOfPath(path);
    PathOkWalks(st, path);
    InvMeansWalkInv(st);
    ResolveIsTree(st, Tokens(path));
  }

  lemma RemovedPath(st: Fs, u: Fs, path: Bytes, d: nat, c: nat)
    requires Inv(st) && PathOk(st, path) && Removed(st, u, FullPath(path), d, c)
    requires TreeAt(Tree(st), DirPath(path)) != 0
    ensures Resolve(u, Tokens(path)) == 0 <==> Last(path) != []
  {
    InvMeansWalkInv(st);
    InvMeansWalkInv(u);
    hide Inv, PathOk, ThroughDirs, Resolve, TreeAt, WalkInv, TreeLoses;
    StringOfPath(path);
    PathOkWalks(st, path);
    StringResolves(st, path);
    LosesWalk(st, u, FullPath(path), Tokens(path));
    assert |FullPath(path)| > |DirPath(path)|;
  }

  /** The blocks of the node are all given back exactly when it had none but the first. */
  lemma RemoveFreesAllIff(st: Fs, u: Fs, full: Path, d: nat, c: nat)
    requires Inv(st) && Live(st, c) && Removed(st, u, full, d, c)
    ensures (forall s: nat :: !InUse(u.dpool, Ref(st, c, s))) <==> (forall s: nat :: s > 0 ==> Ref(st, c, s) == 0)
  {
    ZeroFree(u.dpool);
    assert Ref(st, c, 0) == st.inodes[c].direct[0];
    forall s: nat | s > 0 && Ref(st, c, s) != 0
      ensures InUse(u.dpool, Ref(st, c, s))
    {
      assert Ref(st, c, s) != Ref(st, c, 0);
    }
  }

  ghost predicate OnPath(st: Fs, i: nat) {
    exists p: Path :: TreeAt(Tree(st), p) == i
  }

  /** Every other node stays on a path exactly when the removed node had no entries. */
  lemma RemoveStrandsIff(st: Fs, u: Fs, full: Path, d: nat, c: nat)
    requires Inv(st) && c != 0 && c == TreeAt(Tree(st), full) && Removed(st, u, full, d, c)
    ensures (forall i: nat :: i != 0 && i != c && OnPath(st, i) ==> OnPath(u, i))
            <==> (forall n: Name :: Child(st, c, n) == 0)
  {
    hide Inv, Removed, TreeAt;
    if n: Name :| Child(st, c, n) != 0 {
      StrandedChild(st, u, full, d, c, n);
    } else {
      forall i: nat | i != 0 && i != c && OnPath(st, i)
        ensures OnPath(u, i)
      {
        var p: Path :| TreeAt(Tree(st), p) == i;
        StaysOnPath(st, u, full, d, c, p);
      }
    }
  }

  lemma StaysOnPath(st: Fs, u: Fs, full: Path, d: nat, c: nat, p: Path)
    requires c == TreeAt(Tree(st), full) && Removed(st, u, full, d, c) && forall n: Name :: Child(st, c, n) == 0
    requires TreeAt(Tree(st), p) != 0 && TreeAt(Tree(st), p) != c
    ensures TreeAt(Tree(u), p) == TreeAt(Tree(st), p)
  {
    hide TreeAt, Child, Removed;
    RemovedLoses(st, u, full, d, c);
    if full <= p {
      assert p != full && full + [p[|full|]] <= p;
      assert Tree(st)(c, p[|full|]) == 0;
      Unreached(Tree(st), full, p[|full|], p);
    }
  }

  lemma RemovedLoses(st: Fs, u: Fs, full: Path, d: nat, c: nat)
    requires Removed(st, u, full, d, c)
    ensures TreeLoses(st, u, full)
  {
  }

  lemma StrandedChild(st: Fs, u: Fs, full: Path, d: nat, c: nat, n: Name)
    requires Inv(st) && c != 0 && c == TreeAt(Tree(st), full) && Removed(st, u, full, d, c) && Child(st, c, n) != 0
    ensures Child(st, c, n) != c && OnPath(st, Child(st, c, n)) && !OnPath(u, Child(st, c, n))
  {
    hide Lookup, DirAt, IsDir, InUse, Removed;
    RemovedLoses(st, u, full, d, c);
    var p := full + [n];
    assert p[..|full|] == full && p[|full|] == n;
    UniqueIf(Tree(st), p, full);
    forall q: Path
      ensures TreeAt(Tree(u), q) != Child(st, c, n)
    {
      UniqueIf(Tree(st), p, q);
    }
  }

  lemma FullPathSteps(st: Fs, path: Bytes)
    requires HasSlash(path)
    ensures var d := TreeAt(Tree(st), DirPath(path));
            TreeAt(Tree(st), FullPath(path)) == if d == 0 then 0 else Child(st, d, Last(path))
  {
    var f := FullPath(path);
    assert f[..|f| - 1] == DirPath(path) && f[|f| - 1] == Last(path);
  }

  lemma NothingToRemove(st: Fs, d: nat, name: Name)
    requires Inv(st) && LiveDir(st, d) && Child(st, d, name) == 0
    ensures RemoveIn(st, d, name) == (st, ABORT)
  {
    UnlinkEntry(st, d, name);
    ZeroFree(st.ipool);
  }

  // ---------- rename ----------

  /** After the cut the target path is still one the walk can follow. */
  lemma TargetStaysOk(st: Fs, mid: Fs, full: Path, to: Bytes)
    requires PathOk(st, to) && TreeLoses(st, mid, full) && mid.inodes == st.inodes
    ensures PathOk(mid, to)
  {
    var p := DirPath(to);
    forall k | 0 <= k < |p|
      ensures TableOrNothing(mid, TreeAt(Tree(mid), p[..k]))
    {
      assert TableOrNothing(st, TreeAt(Tree(st), p[..k]));
    }
  }

  /** The subtree at `full` has moved to `target`; every other path resolves as before. */
  ghost predicate TreeMoves(st: Fs, u: Fs, full: Path, target: Path) {
    && (forall s: Path :: TreeAt(Tree(u), target + s) == TreeAt(Tree(st), full + s))
    && (forall p: Path :: !(target <= p) ==> TreeAt(Tree(u), p) == if full <= p then 0 else TreeAt(Tree(st), p))
  }

  /** The outcome of a successful rename onto a free name. */
  ghost predicate Moved(st: Fs, u: Fs, full: Path, target: Path, d: nat, q: nat) {
    match u
    case Fs(b, _, _, _, _, _, _) =>
      && b == st.b && Inv(u) && SameDevice(st, u) && TreeMoves(st, u, full, target)
      && (forall j: nat :: Live(u, j) <==> Live(st, j))
      && (forall j: nat :: Live(st, j) && j != d && j != q ==> Same(st, u, j))
      && u.inodes == st.inodes && u.dpool == st.dpool && u.ipool == st.ipool
      && u.freeBlocks == st.freeBlocks && u.freeInodes == st.freeInodes
  }

  lemma MoveSubtree(st: Fs, mid: Fs, u: Fs, fromDir: Path, fromName: Name, toDir: Path, toName: Name, d: nat, q: nat,
      c: nat)
    requires Inv(st) && d == TreeAt(Tree(st), fromDir) && d != 0 && c == Child(st, d, fromName) && c != 0
    requires CutsEdge(Tree(st), Tree(mid), d, fromName, 0)
    requires q == TreeAt(Tree(mid), toDir) && q != 0
    requires AddsEdge(Tree(mid), Tree(u), q, toName, c)
    ensures TreeMoves(st, u, fromDir + [fromName], toDir + [toName])
  {
    ZeroHasNoChildren(st);
    assert forall m: Name :: Tree(st)(0, m) == 0;
    forall s: Path
      ensures TreeAt(Tree(u), toDir + [toName] + s) == TreeAt(Tree(st), fromDir + [fromName] + s)
    {
      MovedBelow(Tree(st), Tree(mid), Tree(u), fromDir, fromName, toDir, toName, s);
    }
    forall p: Path | !(toDir + [toName] <= p)
      ensures TreeAt(Tree(u), p) == if fromDir + [fromName] <= p then 0 else TreeAt(Tree(st), p)
    {
      MovedElsewhere(Tree(st), Tree(mid), Tree(u), fromDir, fromName, toDir, toName, p);
    }
  }

  /** Outside the new place the walk finds nothing below the old one, and everything else as before. */
  lemma MovesWalk(st: Fs, u: Fs, full: Path, target: Path, p: Path)
    requires WalkInv(st) && WalkInv(u) && TreeMoves(st, u, full, target) && u.inodes == st.inodes
    requires ThroughDirs(st, p) && !(target <= p)
    ensures ThroughDirs(u, p) && Resolve(u, p) == if full <= p then 0 else Resolve(st, p)
  {
    hide WalkInv, TreeAt, Resolve;
    forall k | 0 <= k < |p|
      ensures TableOrNothing(u, TreeAt(Tree(u), p[..k]))
    {
      assert TableOrNothing(st, TreeAt(Tree(st), p[..k]));
    }
    ResolveIsTree(st, p);
    ResolveIsTree(u, p);
  }

  /** Below the new place the walk finds what it found below the old one. */
  lemma MovesWalkBelow(st: Fs, u: Fs, full: Path, target: Path, s: Path)
    requires WalkInv(st) && WalkInv(u) && TreeMoves(st, u, full, target) && u.inodes == st.inodes
    requires ThroughDirs(st, target) && ThroughDirs(st, full + s)
    ensures ThroughDirs(u, target + s) && Resolve(u, target + s) == Resolve(st, full + s)
  {
    hide WalkInv, TreeAt, Resolve;
    var p, q := target + s, full + s;
    forall k | 0 <= k < |p|
      ensures TableOrNothing(u, TreeAt(Tree(u), p[..k]))
    {
      if k < |target| {
        assert p[..k] == target[..k] && TableOrNothing(st, TreeAt(Tree(st), target[..k]));
      } else {
        var j := k - |target|;
        assert p[..k] == target + s[..j] && q[..|full| + j] == full + s[..j];
        assert TableOrNothing(st, TreeAt(Tree(st), q[..|full| + j]));
      }
    }
    ResolveIsTree(st, q);
    ResolveIsTree(u, p);
  }

  /**
   * What a successful rename leaves in the tables: directory `d` has lost its entry, and then
   * directory `q`, which may be the same, has gained one behind its others.
   */
  ghost predicate Retabled(st: Fs, u: Fs, d: nat, fromName: Name, q: nat, toName: Name, c: nat) {
    && 0 < DirOf(st, d).size <= SLOTS
    && Appended(if q == d then Without(DirOf(st, d), fromName) else DirOf(st, q), DirOf(u, q), toName, c)
    && (q != d ==> DirOf(u, d) == Without(DirOf(st, d), fromName))
  }

  lemma RetabledFrom(st: Fs, mid: Fs, u: Fs, fromDir: Path, d: nat, fromName: Name, q: nat, toName: Name, c: nat)
    requires Inv(st) && LiveDir(st, d) && LiveDir(st, q) && CutOut(st, mid, fromDir, d, fromName, c)
    requires OnlyNode(mid, u, q) && Appended(DirOf(mid, q), DirOf(u, q), toName, c)
    ensures Retabled(st, u, d, fromName, q, toName, c)
  {
    hide Without, Appended;
    LiveAgain(st, mid);
    assert DirOk(st, d) && DirOk(st, q);
    if q != d {
      SameTable(st, mid, q);
      SameTable(mid, u, d);
    }
  }

  lemma LinkMoved(st: Fs, mid: Fs, fromDir: Path, fromName: Name, toDir: Path, toName: Name, d: nat, q: nat, c: nat)
    requires Inv(st) && LiveDir(st, d) && d == TreeAt(Tree(st), fromDir) && c == Child(st, d, fromName) && c != 0
    requires CutOut(st, mid, fromDir, d, fromName, c)
    requires LiveDir(mid, q) && q == TreeAt(Tree(mid), toDir) && GoodName(toName)
    requires DirOf(mid, q).size < SLOTS && Child(mid, q, toName) == 0
    ensures Retabled(st, EnterIn(mid, q, toName, c), d, fromName, q, toName, c)
    ensures Moved(st, EnterIn(mid, q, toName, c), fromDir + [fromName], toDir + [toName], d, q)
  {
    ChildIsLive(st, d, fromName);
    LiveAgain(st, mid);
    LinkEntry(mid, q, toName, c);
    var u := EnterIn(mid, q, toName, c);
    LiveAgain(mid, u);
    MoveSubtree(st, mid, u, fromDir, fromName, toDir, toName, d, q, c);
    RetabledFrom(st, mid, u, fromDir, d, fromName, q, toName, c);
    forall j: nat | Live(st, j) && j != d && j != q
      ensures Same(st, u, j)
    {
      SameTransitive(st, mid, u, j);
    }
  }

  /** The name `to` is free once the source has been taken out. */
  ghost predicate TargetFree(st: Fs, from: Bytes, to: Bytes)
    requires HasSlash(from) && HasSlash(to)
  {
    FullPath(from) <= FullPath(to) || TreeAt(Tree(st), FullPath(to)) == 0
  }

  /** Directory `q` has room for one more entry once directory `d` has given one up. */
  predicate RoomAfter(st: Fs, d: nat, q: nat) {
    DirOf(st, q).size < SLOTS || q == d
  }

  lemma RoomInMid(st: Fs, mid: Fs, dir: Path, d: nat, name: Name, c: nat, q: nat)
    requires Inv(st) && LiveDir(st, d) && LiveDir(st, q) && CutOut(st, mid, dir, d, name, c)
    ensures DirOf(mid, q).size < SLOTS <==> RoomAfter(st, d, q)
  {
    assert DirOk(st, d) && DirOk(st, q);
    if q != d { SameTable(st, mid, q); }
  }

  /** The target can be entered: short name, parent still there after the cut, room in its table. */
  ghost predicate CanEnter(st: Fs, from: Bytes, to: Bytes)
    requires HasSlash(from) && HasSlash(to)
  {
    var q := TreeAt(Tree(st), DirPath(to));
    |Last(to)| <= NAME_LEN && !(FullPath(from) <= DirPath(to)) && LiveDir(st, q)
    && RoomAfter(st, TreeAt(Tree(st), DirPath(from)), q)
  }

  /** The outcome of a rename that fails after the source entry has been taken out. */
  ghost predicate Lost(st: Fs, u: Fs, full: Path, d: nat) {
    match u
    case Fs(b, _, _, _, _, _, _) =>
      && b == st.b && Inv(u) && TreeLoses(st, u, full) && OnlyNode(st, u, d)
      && u.inodes == st.inodes && u.ipool == st.ipool && u.dpool == st.dpool
  }

  /** The outcome of a rename onto a name that is taken: the moved node is there, but on no path. */
  ghost predicate Hidden(st: Fs, u: Fs, full: Path, d: nat, q: nat, c: nat) {
    match u
    case Fs(b, _, _, _, _, _, _) =>
      && b == st.b && BlockInv(u) && ChildrenLive(u) && SameDevice(st, u) && TreeLoses(st, u, full)
      && (forall p: Path :: TreeAt(Tree(u), p) != c)
      && (forall j: nat :: Live(u, j) <==> Live(st, j))
      && (forall j: nat :: Live(st, j) && j != d && j != q ==> Same(st, u, j))
      && u.inodes == st.inodes && u.dpool == st.dpool && u.ipool == st.ipool
  }

  /** Entering a name that is there already changes the directory's block and no answer. */
  lemma HiddenEntry(m: Fs, q: nat, name: Name, c: nat)
    requires Inv(m) && LiveDir(m, q) && GoodName(name) && Child(m, q, name) != 0
    requires DirOf(m, q).size < SLOTS && c < TWO_32
    ensures var u := EnterIn(m, q, name, c);
            && BlockInv(u) && OnlyNode(m, u, q) && u.inodes == m.inodes && u.dpool == m.dpool && u.ipool == m.ipool
            && u.freeBlocks == m.freeBlocks && u.freeInodes == m.freeInodes
            && DirOf(u, q) == Insert(DirOf(m, q), name, c).0
            && (forall j: nat, n: Name :: Child(u, j, n) == Child(m, j, n))
  {
    hide Insert, Lookup, Tables.Encode, Tables.Decode, Good, IsDir;
    var d := m.inodes[q].direct[0];
    var t := Insert(DirOf(m, q), name, c).0;
    var u := EnterIn(m, q, name, c);
    assert DirOk(m, q) && Ref(m, q, 0) == d;
    InUseInRange(m.dpool, d);
    BoundsAre();
    InsertedIsSized(DirOf(m, q), name, c);
    InsertDuplicateIsHidden(DirOf(m, q), name, c);
    PutBlockShape(m, d, 0, Tables.Encode(t));
    StoredTable(m, d, t);
    SaveTableRefs(m, q, t);
    BlockInvStep(m, u, q);
    SameAnswers(m, u, q);
  }

  lemma SameAnswers(m: Fs, u: Fs, q: nat)
    requires Inv(m) && LiveDir(m, q) && OnlyNode(m, u, q) && u.inodes == m.inodes && u.ipool == m.ipool
    requires forall n: Name :: Lookup(DirOf(u, q), n) == Lookup(DirOf(m, q), n)
    ensures forall j: nat, n: Name :: Child(u, j, n) == Child(m, j, n)
  {
    hide Lookup, DirAt;
    forall j: nat, n: Name
      ensures Child(u, j, n) == Child(m, j, n)
    {
      if LiveDir(m, j) && j != q {
        assert DirOk(m, j);
        SameTable(m, u, j);
      }
    }
  }

  lemma HideMoved(st: Fs, mid: Fs, fromDir: Path, fromName: Name, toDir: Path, toName: Name, d: nat, q: nat, c: nat)
    requires Inv(st) && LiveDir(st, d) && d == TreeAt(Tree(st), fromDir) && c == Child(st, d, fromName) && c != 0
    requires CutOut(st, mid, fromDir, d, fromName, c)
    requires LiveDir(mid, q) && GoodName(toName) && DirOf(mid, q).size < SLOTS && Child(mid, q, toName) != 0
    ensures Hidden(st, EnterIn(mid, q, toName, c), fromDir + [fromName], d, q, c)
    ensures Retabled(st, EnterIn(mid, q, toName, c), d, fromName, q, toName, c)
    ensures EnterIn(mid, q, toName, c).freeBlocks == st.freeBlocks
    ensures EnterIn(mid, q, toName, c).freeInodes == st.freeInodes
  {
    ChildIsLive(st, d, fromName);
    LiveAgain(st, mid);
    LiveIsSmall(st, c);
    HiddenEntry(mid, q, toName, c);
    var u := EnterIn(mid, q, toName, c);
    LiveAgain(mid, u);
    ChildrenSameTree(mid, u);
    MovedUnreachable(st, u, fromDir, fromName, d, c);
    InsertAppends(DirOf(mid, q), toName, c);
    RetabledFrom(st, mid, u, fromDir, d, fromName, q, toName, c);
    forall j: nat | Live(st, j) && j != d && j != q
      ensures Same(st, u, j)
    {
      SameTransitive(st, mid, u, j);
    }
  }

  lemma LiveIsSmall(st: Fs, c: nat)
    requires Inv(st) && Live(st, c)
    ensures c < TWO_32
  {
  }

  lemma MovedUnreachable(st: Fs, u: Fs, fromDir: Path, fromName: Name, d: nat, c: nat)
    requires Inv(st) && d == TreeAt(Tree(st), fromDir) && d != 0 && c == Child(st, d, fromName) && c != 0
    requires TreeLoses(st, u, fromDir + [fromName])
    ensures forall p: Path :: TreeAt(Tree(u), p) != c
  {
    var full := fromDir + [fromName];
    assert full[..|full| - 1] == fromDir;
    forall p: Path
      ensures TreeAt(Tree(u), p) != c
    {
      UniqueIf(Tree(st), p, full);
    }
  }

  /**
   * What a rename leaves behind: nothing changed, the source lost, the subtree moved, or the moved
   * node hidden behind an entry of the same name.
   */
  datatype Outcome = Untouched | SourceLost | SubtreeMoved | SubtreeHidden

  /** The answers of a rename that has not found its source. */
  ghost predicate SourceAnswers(st: Fs, from: Bytes, e: Error)
    requires HasSlash(from)
  {
    var d := TreeAt(Tree(st), DirPath(from));
    && (e == ENAMETOOLONG <==> |Last(from)| > NAME_LEN)
    && (e == CORRUPT <==> |Last(from)| <= NAME_LEN && d != 0 && !IsDirAt(st, d))
    && (e == ENOENT <==> |Last(from)| <= NAME_LEN && (d == 0 || (LiveDir(st, d) && Child(st, d, Last(from)) == 0)))
    && (e == ENAMETOOLONG || e == CORRUPT || e == ENOENT)
  }

  /** The answers of a rename that has lost its source. */
  ghost predicate TargetAnswers(st: Fs, from: Bytes, to: Bytes, e: Error)
    requires HasSlash(from) && HasSlash(to)
  {
    var d, q := TreeAt(Tree(st), DirPath(from)), TreeAt(Tree(st), DirPath(to));
    var gone := FullPath(from) <= DirPath(to) || q == 0;
    && (e == ENAMETOOLONG <==> |Last(to)| > NAME_LEN)
    && (e == ENOENT <==> |Last(to)| <= NAME_LEN && gone)
    && (e == CORRUPT <==> |Last(to)| <= NAME_LEN && !gone && (IsDirAt(st, q) ==> !RoomAfter(st, d, q)))
    && (e == ENAMETOOLONG || e == CORRUPT || e == ENOENT)
  }

  /**
   * How a rename ends. Nothing happens when the source does not resolve. Once it does, its entry
   * is taken out first, so when the target cannot be entered - its name is too long, its parent
   * does not resolve any more (in particular because it lies inside the source), or the table is
   * full - the source is lost with everything below it. Otherwise it reports success: the subtree
   * has moved when the target name was free, and is on no path any more when it was not. The walk
   * follows it to its new place exactly when the target does not end in a slash.
   */
  lemma RenameFileMeaning(st: Fs, from: Bytes, to: Bytes)
    returns (r: (Fs, Error), o: Outcome, d: nat, q: nat)
    requires Inv(st) && PathOk(st, from) && PathOk(st, to)
    ensures r == RenameFile(st, from, to)
    ensures o.Untouched? <==> |Last(from)| > NAME_LEN || TreeAt(Tree(st), FullPath(from)) == 0
    ensures Last(from) != [] ==> (o.Untouched? <==> |Last(from)| > NAME_LEN || Resolve(st, Tokens(from)) == 0)
    ensures o.Untouched? ==> r.0 == st && SourceAnswers(st, from, r.1)
    ensures o.SubtreeMoved? || o.SubtreeHidden? <==> r.1 == OK
    ensures r.1 == OK <==> !o.Untouched? && CanEnter(st, from, to)
    ensures r.1 == OK ==> (o.SubtreeMoved? <==> TargetFree(st, from, to))
    ensures d == TreeAt(Tree(st), DirPath(from)) && q == TreeAt(Tree(st), DirPath(to))
    ensures o.SubtreeMoved? ==> Moved(st, r.0, FullPath(from), FullPath(to), d, q)
    ensures o.SubtreeMoved? ==>
              (Resolve(r.0, Tokens(to)) == TreeAt(Tree(st), FullPath(from)) <==> Last(to) != [])
    ensures o.SubtreeHidden? ==> Hidden(st, r.0, FullPath(from), d, q, TreeAt(Tree(st), FullPath(from)))
    ensures o.SourceLost? ==> Lost(st, r.0, FullPath(from), d) && LostEntry(st, r.0, d, Last(from))
    ensures o.SourceLost? ==> TargetAnswers(st, from, to, r.1)
    ensures r.1 == OK ==> Retabled(st, r.0, d, Last(from), q, Last(to), TreeAt(Tree(st), FullPath(from)))
    ensures BlockDrift(r.0) == BlockDrift(st) && InodeDrift(r.0) == InodeDrift(st) && SameDevice(st, r.0)
  {
    r := RenameFile(st, from, to);
    o := Untouched;
    d, q := TreeAt(Tree(st), DirPath(from)), TreeAt(Tree(st), DirPath(to));
    ParentMeaning(st, from);
    FullPathSteps(st, from);
    StringResolves(st, from);
    var e := PathToParent(st, from).0;
    if e == OK {
      hide Inv, CutOut, Moved, Lost, Hidden, PathOk, TargetFree, TreeLoses, MoveTo, CutIn, PathToParent, CanEnter;
      var c := Child(st, d, Last(from));
      if c != 0 {
        var mid := CutIn(st, d, Last(from));
        CutOutMeaning(st, DirPath(from), d, Last(from), c);
        o := MoveToMeaning(st, mid, from, to, d, q, c);
        if o.SubtreeMoved? { MovedTarget(st, r.0, from, to, d, q, c); }
        DriftSame(st, r.0); InodeDriftSame(st, r.0);
      }
    }
  }

  lemma MoveToMeaning(st: Fs, mid: Fs, from: Bytes, to: Bytes, d: nat, q: nat, c: nat) returns (o: Outcome)
    requires Inv(st) && PathOk(st, from) && PathOk(st, to)
    requires q == TreeAt(Tree(st), DirPath(to))
    requires LiveDir(st, d) && d == TreeAt(Tree(st), DirPath(from)) && c == Child(st, d, Last(from)) && c != 0
    requires CutOut(st, mid, DirPath(from), d, Last(from), c)
    ensures var r := MoveTo(mid, c, to);
            && (o.SubtreeMoved? || o.SubtreeHidden? <==> r.1 == OK) && !o.Untouched?
            && (r.1 == OK <==> CanEnter(st, from, to))
            && (r.1 == OK ==> (o.SubtreeMoved? <==> TargetFree(st, from, to)))
            && (o.SubtreeMoved? ==> Moved(st, r.0, FullPath(from), FullPath(to), d, q))
            && (o.SubtreeHidden? ==> Hidden(st, r.0, FullPath(from), d, q, c))
            && (o.SourceLost? ==> Lost(st, r.0, FullPath(from), d) && LostEntry(st, r.0, d, Last(from)))
            && (o.SourceLost? ==> TargetAnswers(st, from, to, r.1))
            && (r.1 == OK ==> Retabled(st, r.0, d, Last(from), q, Last(to), c))
            && r.0.freeBlocks == st.freeBlocks && r.0.freeInodes == st.freeInodes
            && r.0.dpool == st.dpool && r.0.ipool == st.ipool && SameDevice(st, r.0)
  {
    hide Moved, Hidden, Lost, TargetFree, EnterIn, TreeLoses, CutsEdge, Unlinked, Retabled, LostEntry, TargetAnswers,
        CanEnter, PathOk, TreeAt, CutOut, PathToParent, RoomAfter;
    var e := TargetSearched(st, mid, from, to, d, q, c);
    o := SourceLost;
    StillLost(st, mid, from, d, c);
    if e == OK && DirOf(mid, q).size < SLOTS {
      if Child(mid, q, Last(to)) == 0 {
        LinkMoved(st, mid, DirPath(from), Last(from), DirPath(to), Last(to), d, q, c);
        MovedCounters(st, mid, q, Last(to), c);
        o := SubtreeMoved;
      } else {
        HideMoved(st, mid, DirPath(from), Last(from), DirPath(to), Last(to), d, q, c);
        HiddenCounters(st, EnterIn(mid, q, Last(to), c), FullPath(from), d, q, c);
        o := SubtreeHidden;
      }
    }
  }

  /** What the search for the target's parent finds after the cut. */
  lemma TargetSearched(st: Fs, mid: Fs, from: Bytes, to: Bytes, d: nat, q: nat, c: nat) returns (e: Error)
    requires Inv(st) && PathOk(st, from) && PathOk(st, to)
    requires q == TreeAt(Tree(st), DirPath(to))
    requires LiveDir(st, d) && d == TreeAt(Tree(st), DirPath(from))
    requires CutOut(st, mid, DirPath(from), d, Last(from), c)
    ensures e == PathToParent(mid, to).0
    ensures e == OK ==>
              && PathToParent(mid, to).1 == q == TreeAt(Tree(mid), DirPath(to)) && LiveDir(mid, q) && LiveDir(st, q)
              && GoodName(Last(to)) && (Child(mid, q, Last(to)) == 0 <==> TargetFree(st, from, to))
              && (DirOf(mid, q).size < SLOTS <==> RoomAfter(st, d, q))
    ensures CanEnter(st, from, to) <==> e == OK && DirOf(mid, q).size < SLOTS
    ensures e != OK ==> TargetAnswers(st, from, to, e)
    ensures e == OK && !RoomAfter(st, d, q) ==> TargetAnswers(st, from, to, CORRUPT)
  {
    hide TargetFree, TreeLoses, CutsEdge, Unlinked, LostEntry, TargetAnswers;
    TargetStaysOk(st, mid, FullPath(from), to);
    ParentMeaning(mid, to);
    e := PathToParent(mid, to).0;
    ParentInMid(st, mid, from, to, d, c);
    TargetAnswersAre(st, mid, from, to, d, q, e);
    if e == OK {
      RoomInMid(st, mid, DirPath(from), d, Last(from), c, q);
      TargetAbsentIff(st, mid, from, to, q);
    }
  }

  /** The answer of the target search, in terms of the state before the cut. */
  lemma TargetAnswersAre(st: Fs, mid: Fs, from: Bytes, to: Bytes, d: nat, q: nat, e: Error)
    requires HasSlash(from) && HasSlash(to)
    requires d == TreeAt(Tree(st), DirPath(from)) && q == TreeAt(Tree(st), DirPath(to))
    requires var i := if FullPath(from) <= DirPath(to) then 0 else q;
             && (e == ENAMETOOLONG <==> |Last(to)| > NAME_LEN)
             && (e == ENOENT <==> |Last(to)| <= NAME_LEN && i == 0)
             && (e == CORRUPT <==> |Last(to)| <= NAME_LEN && i != 0 && !IsDirAt(st, i))
             && (e == OK ==> |Last(to)| <= NAME_LEN && LiveDir(st, i) && i != 0)
             && (e == OK || e == ENAMETOOLONG || e == ENOENT || e == CORRUPT)
    ensures e != OK ==> TargetAnswers(st, from, to, e)
    ensures e == OK && !RoomAfter(st, d, q) ==> TargetAnswers(st, from, to, CORRUPT)
  {
    hide TreeAt, RoomAfter, Tokens, DirPath, FullPath, Last, HasSlash;
  }

  lemma StillLost(st: Fs, mid: Fs, from: Bytes, d: nat, c: nat)
    requires HasSlash(from) && CutOut(st, mid, DirPath(from), d, Last(from), c)
    ensures Lost(st, mid, FullPath(from), d) && LostEntry(st, mid, d, Last(from))
    ensures mid.freeBlocks == st.freeBlocks && mid.freeInodes == st.freeInodes
    ensures mid.dpool == st.dpool && mid.ipool == st.ipool && SameDevice(st, mid)
  {
  }

  lemma MovedCounters(st: Fs, mid: Fs, q: nat, name: Name, c: nat)
    requires mid.freeBlocks == st.freeBlocks && mid.freeInodes == st.freeInodes
    requires mid.dpool == st.dpool && mid.ipool == st.ipool && SameDevice(st, mid)
    ensures var u := EnterIn(mid, q, name, c);
            && u.freeBlocks == st.freeBlocks && u.freeInodes == st.freeInodes
            && u.dpool == st.dpool && u.ipool == st.ipool && SameDevice(st, u)
  {
    hide Insert, Tables.Encode, Splice;
  }

  lemma HiddenCounters(st: Fs, u: Fs, full: Path, d: nat, q: nat, c: nat)
    requires Hidden(st, u, full, d, q, c)
    ensures u.dpool == st.dpool && u.ipool == st.ipool && SameDevice(st, u)
  {
  }

  /** The parent of the target is a directory after the cut exactly when it was and is not cut off. */
  lemma ParentInMid(st: Fs, mid: Fs, from: Bytes, to: Bytes, d: nat, c: nat)
    requires Inv(st) && HasSlash(from) && HasSlash(to) && CutOut(st, mid, DirPath(from), d, Last(from), c)
    ensures var q, q' := TreeAt(Tree(st), DirPath(to)), TreeAt(Tree(mid), DirPath(to));
            && (LiveDir(mid, q') <==> !(FullPath(from) <= DirPath(to)) && LiveDir(st, q))
            && (LiveDir(mid, q') ==> q' == q) && (IsDirAt(mid, q') <==> IsDirAt(st, q'))
            && q' == (if FullPath(from) <= DirPath(to) then 0 else q)
  {
    LiveAgain(st, mid);
  }

  /** The name is free in the target's directory after the cut exactly when it was a free target. */
  lemma TargetAbsentIff(st: Fs, mid: Fs, from: Bytes, to: Bytes, q: nat)
    requires HasSlash(from) && HasSlash(to) && TreeLoses(st, mid, FullPath(from))
    requires q == TreeAt(Tree(mid), DirPath(to)) && q != 0
    ensures Child(mid, q, Last(to)) == 0 <==> TargetFree(st, from, to)
    ensures !(FullPath(from) <= DirPath(to)) && TreeAt(Tree(st), DirPath(to)) == q
  {
    FullPathSteps(mid, to);
    assert TreeAt(Tree(mid), FullPath(to)) == Child(mid, q, Last(to));
  }

  /**
   * The code does not check whether the target exists, nor that it has a name. When it reports
   * success, the walk takes the target path to the moved inode exactly when the target was free and
   * the path does not end in a slash. Onto an existing name, the target path leads to what was
   * there, the moved inode is on no path, and no node but the two parents has changed. Either way
   * the entry for it stands behind all others of the target's directory.
   */
  lemma RenameTargetIff(st: Fs, from: Bytes, to: Bytes)
    requires Inv(st) && PathOk(st, from) && PathOk(st, to) && RenameFile(st, from, to).1 == OK
    ensures var u, c := RenameFile(st, from, to).0, TreeAt(Tree(st), FullPath(from));
            && c != 0 && (Last(from) != [] ==> Resolve(st, Tokens(from)) == c)
            && (Resolve(u, Tokens(to)) == c <==> TargetFree(st, from, to) && Last(to) != [])
            && Retabled(st, u, TreeAt(Tree(st), DirPath(from)), Last(from), TreeAt(Tree(st), DirPath(to)), Last(to), c)
            && (!TargetFree(st, from, to) ==>
                  && TreeAt(Tree(u), FullPath(to)) == TreeAt(Tree(st), FullPath(to)) != 0
                  && Hidden(st, u, FullPath(from), TreeAt(Tree(st), DirPath(from)), TreeAt(Tree(st), DirPath(to)), c))
  {
    hide Inv, PathOk, RenameFile, Moved, Hidden, TargetFree, TreeAt, Resolve, Retabled;
    var r, o, d, q := RenameFileMeaning(st, from, to);
    StringResolves(st, from);
    var c := TreeAt(Tree(st), FullPath(from));
    if o.SubtreeHidden? {
      TargetStays(st, r.0, from, to, d, q, c);
      HiddenTarget(st, r.0, from, to, d, q, c);
    }
  }

  lemma MovedTarget(st: Fs, u: Fs, from: Bytes, to: Bytes, d: nat, q: nat, c: nat)
    requires Inv(st) && PathOk(st, from) && PathOk(st, to) && Moved(st, u, FullPath(from), FullPath(to), d, q)
    requires c == TreeAt(Tree(st), FullPath(from)) && c != 0
    ensures Resolve(u, Tokens(to)) == c <==> Last(to) != []
  {
    MovedIsThere(st, u, FullPath(from), FullPath(to), d, q);
    hide Inv, PathOk, Moved, TreeAt, Resolve, ThroughDirs, WalkInv;
    InvMeansWalkInv(st);
    InvMeansWalkInv(u);
    StringOfPath(to);
    PathOkWalks(st, to);
    PathOkWalks(st, from);
    StringResolves(st, to);
    if Last(to) == [] {
      assert |FullPath(to)| > |DirPath(to)|;
      MovesWalk(st, u, FullPath(from), FullPath(to), DirPath(to));
      UniqueIf(Tree(st), DirPath(to), FullPath(from));
    } else {
      assert FullPath(to) + [] == FullPath(to) && FullPath(from) + [] == FullPath(from);
      MovesWalkBelow(st, u, FullPath(from), FullPath(to), []);
      ResolveIsTree(st, FullPath(from));
    }
  }

  lemma HiddenTarget(st: Fs, u: Fs, from: Bytes, to: Bytes, d: nat, q: nat, c: nat)
    requires Inv(st) && PathOk(st, to) && HasSlash(from) && Hidden(st, u, FullPath(from), d, q, c) && c != 0
    ensures Resolve(u, Tokens(to)) != c
  {
    HiddenWalkInv(st, u, FullPath(from), d, q, c);
    hide Inv, PathOk, Hidden, TreeAt, Resolve, ThroughDirs, WalkInv, TreeLoses;
    InvMeansWalkInv(st);
    PathOkWalks(st, to);
    LosesWalk(st, u, FullPath(from), Tokens(to));
    ResolveIsTree(u, Tokens(to));
  }

  lemma HiddenWalkInv(st: Fs, u: Fs, full: Path, d: nat, q: nat, c: nat)
    requires Inv(st) && Hidden(st, u, full, d, q, c)
    ensures WalkInv(u) && TreeLoses(st, u, full) && u.inodes == st.inodes
    ensures forall p: Path :: TreeAt(Tree(u), p) != c
  {
    InvMeansWalkInv(st);
  }

  lemma MovedIsThere(st: Fs, u: Fs, full: Path, target: Path, d: nat, q: nat)
    requires Moved(st, u, full, target, d, q)
    ensures TreeAt(Tree(u), target) == TreeAt(Tree(st), full)
    ensures Inv(u) && TreeMoves(st, u, full, target) && u.inodes == st.inodes
  {
    assert target + [] == target && full + [] == full;
  }

  lemma TargetStays(st: Fs, u: Fs, from: Bytes, to: Bytes, d: nat, q: nat, c: nat)
    requires HasSlash(from) && HasSlash(to) && !TargetFree(st, from, to) && Hidden(st, u, FullPath(from), d, q, c)
    ensures TreeAt(Tree(u), FullPath(to)) == TreeAt(Tree(st), FullPath(to)) != 0
    ensures TreeAt(Tree(u), FullPath(to)) != c
  {
  }

  /** For instance, renaming onto another entry of the same directory is reported as a success. */
  lemma RenameOntoSibling(st: Fs, from: Bytes, to: Bytes)
    requires Inv(st) && PathOk(st, from) && PathOk(st, to)
    requires DirPath(from) == DirPath(to) && Last(from) != Last(to)
    requires |Last(from)| <= NAME_LEN && |Last(to)| <= NAME_LEN
    requires TreeAt(Tree(st), FullPath(from)) != 0 && TreeAt(Tree(st), FullPath(to)) != 0
    ensures var (u, e) := RenameFile(st, from, to);
            && e == OK && TreeAt(Tree(u), FullPath(to)) == TreeAt(Tree(st), FullPath(to))
            && forall p: Path :: TreeAt(Tree(u), p) != TreeAt(Tree(st), FullPath(from))
  {
    FullPathSteps(st, from);
    ParentIsDir(st, from);
    hide Inv, PathOk, RenameFile, TreeAt, Moved, Lost;
    assert |FullPath(from)| == |FullPath(to)| > |DirPath(to)|;
    assert FullPath(from)[|DirPath(from)|] == Last(from) && FullPath(to)[|DirPath(to)|] == Last(to);
    var r, o, d, q := RenameFileMeaning(st, from, to);
    RenameTargetIff(st, from, to);
  }

  lemma ParentIsDir(st: Fs, path: Bytes)
    requires Inv(st) && HasSlash(path) && TreeAt(Tree(st), FullPath(path)) != 0
    ensures LiveDir(st, TreeAt(Tree(st), DirPath(path)))
  {
    FullPathSteps(st, path);
  }

  lemma InsertedIsSized(t: Table, name: Name, c: nat)
    requires Good(t) && c < Bound(4) && t.size < SLOTS
    ensures Sized(Insert(t, name, c).0)
  {
    BoundsAre();
  }
}

// The namespace operations (fs_mkdir, fs_create_file, fs_rename_file and fs_remove_file in
// src/chisai-core/fs.c) and what they do to the tree of paths.
module Operations {
  import opened Arith
  import opened Codec
  import opened FileIO
  import opened FileMap
  import opened Invariant
  import opened Namespace
  import opened Nodes
  import opened Paths
  import opened Pools
  import opened Resolution
  import opened State
  import opened Tables

  // ---------- what the operations ask of a path ----------

  ghost predicate Walkable(st: Fs, p: Path) {
    ThroughDirs(st, p) && TableOrNothing(st, TreeAt(Tree(st), p))
  }

  /** An absolute path whose parent part never leads into a file with data. */
  ghost predicate PathOk(st: Fs, path: Bytes) {
    HasSlash(path) && 0 !in path && |Last(path)| != NAME_LEN && Walkable(st, Tokens(Parent(path)))
  }

  /** The path of the parent directory as components, and the full path with the last name appended. */
  function DirPath(path: Bytes): Path
    requires HasSlash(path)
  {
    Tokens(Parent(path))
  }

  function FullPath(path: Bytes): Path
    requires HasSlash(path)
  {
    DirPath(path) + [Last(path)]
  }

  /**
   * The components of a path string are its full path, except for a path that ends in a slash: its
   * last name is empty, and no string has an empty component.
   */
  lemma StringOfPath(path: Bytes)
    requires HasSlash(path)
    ensures Tokens(path) == if Last(path) == [] then DirPath(path) else FullPath(path)
    ensures Last(path) == [] ==> forall s: Bytes :: !(FullPath(path) <= Tokens(s))
  {
    PathSplits(path);
    forall s: Bytes | Last(path) == []
      ensures !(FullPath(path) <= Tokens(s))
    {
      TokensArePlain(s);
      assert FullPath(path)[|DirPath(path)|] == [];
      OnlyPrefixed(FullPath(path), Tokens(s), []);
    }
  }

  lemma OnlyPrefixed(p: Path, q: Path, n: Name)
    requires n in p && n !in q
    ensures !(p <= q)
  {
  }

  lemma PathOkWalks(st: Fs, path: Bytes)
    requires PathOk(st, path)
    ensures ThroughDirs(st, DirPath(path)) && ThroughDirs(st, FullPath(path)) && ThroughDirs(st, Tokens(path))
  {
    StringOfPath(path);
    var p, f := DirPath(path), FullPath(path);
    forall k | 0 <= k < |f|
      ensures TableOrNothing(st, TreeAt(Tree(st), f[..k]))
    {
      assert f[..k] == if k < |p| then p[..k] else p;
    }
  }

  /** The parent search succeeds exactly when the name is short enough and the parent is a directory. */
  lemma ParentMeaning(st: Fs, path: Bytes)
    requires Inv(st) && PathOk(st, path)
    ensures var (e, d) := PathToParent(st, path);
            var i := TreeAt(Tree(st), DirPath(path));
            && (e == ENAMETOOLONG <==> |Last(path)| > NAME_LEN)
            && (e == ENOENT <==> |Last(path)| <= NAME_LEN && i == 0)
            && (e == CORRUPT <==> |Last(path)| <= NAME_LEN && i != 0 && !IsDirAt(st, i))
            && (e == OK <==> |Last(path)| <= NAME_LEN && LiveDir(st, i))
            && (e == OK ==> d == i && GoodName(Last(path)))
  {
    var p := DirPath(path);
    InvMeansWalkInv(st);
    ResolveIsTree(st, p);
    if TreeAt(Tree(st), p) != 0 {
      ReachedIsLive(st, p);
      var i := TreeAt(Tree(st), p);
      assert Ref(st, i, 0) == st.inodes[i].direct[0];
      if IsDir(st.inodes[i]) { assert DirOk(st, i); } else { ZeroFree(st.dpool); }
    }
  }

  predicate IsDirAt(st: Fs, i: nat) {
    i < |st.inodes| && IsDir(st.inodes[i])
  }

  // ---------- creating files and directories ----------

  /** `S_IFDIR | mode` */
  function DirMode(mode: nat): nat {
    if mode / 0x4000 % 2 == 1 then mode else mode + 0x4000
  }

  function NewFile(mode: nat): (x: Inode) {
    NewInode(mode, 1, 0, 0, 0)
  }

  function NewDir(mode: nat, block: nat): (x: Inode) {
    NewInode(DirMode(mode), 2, 0x1000, 9, block)
  }

  /** Enter inode `i` in directory `d` and store the table; a full table is stored as it was. */
  function EnterIn(st: Fs, d: nat, name: Name, i: nat): (u: Fs) {
    if d >= |st.inodes| then st
    else SaveDir(st, st.inodes[d].direct[0], Insert(DirOf(st, d), name, i).0)
  }

  /** fs_create_file; the third result is the new inode's index. */
  function CreateFile(st: Fs, path: Bytes, mode: nat): (r: (Fs, Error, nat))
    requires HasSlash(path)
  {
    var (e, d) := PathToParent(st, path);
    if e != OK then (st, e, 0)
    else if Lookup(DirOf(st, d), Last(path)) != 0 then (st, EEXIST, 0)
    else CreateIn(st, d, Last(path), mode)
  }

  function CreateIn(st: Fs, d: nat, name: Name, mode: nat): (r: (Fs, Error, nat)) {
    var (st1, i) := InodeAlloc(st);
    if i == 0 then (st1, ENOMEM, 0)
    else (SaveInode(EnterIn(st1, d, name, i), i, NewFile(mode)), OK, i)
  }

  /** fs_mkdir; when the inode allocation fails, the data block stays allocated. */
  function Mkdir(st: Fs, path: Bytes, mode: nat): (r: (Fs, Error, nat))
    requires HasSlash(path)
  {
    var (e, d) := PathToParent(st, path);
    if e != OK then (st, e, 0)
    else if Lookup(DirOf(st, d), Last(path)) != 0 then (st, EEXIST, 0)
    else MkdirIn(st, d, Last(path), mode)
  }

  function MkdirIn(st: Fs, d: nat, name: Name, mode: nat): (r: (Fs, Error, nat)) {
    var (st1, blk) := DataAlloc(st);
    if blk == 0 then (st1, ENOMEM, 0)
    else
      var (st2, i) := InodeAlloc(st1);
      if i == 0 then (st2, ENOMEM, 0)
      else (SaveDir(SaveInode(EnterIn(st2, d, name, i), i, NewDir(mode, blk)), blk, Empty()), OK, i)
  }

  /** The tree has gained one path, to a node that was not there before. */
  ghost predicate TreeGains(st: Fs, u: Fs, full: Path, i: nat) {
    forall p: Path :: TreeAt(Tree(u), p) == if p == full then i else TreeAt(Tree(st), p)
  }

  ghost predicate TreeSame(st: Fs, u: Fs) {
    forall p: Path :: TreeAt(Tree(u), p) == TreeAt(Tree(st), p)
  }

  lemma {:induction false} SameEdgesSameTree(g: Edges, h: Edges, p: Path)
    requires forall d, n :: h(d, n) == g(d, n)
    ensures TreeAt(h, p) == TreeAt(g, p)
  {
    if p != [] { SameEdgesSameTree(g, h, p[..|p| - 1]); }
  }

  lemma ChildrenSameTree(st: Fs, u: Fs)
    requires forall d: nat, n: Name :: Child(u, d, n) == Child(st, d, n)
    ensures TreeSame(st, u)
  {
    forall p: Path
      ensures TreeAt(Tree(u), p) == TreeAt(Tree(st), p)
    {
      SameEdgesSameTree(Tree(st), Tree(u), p);
    }
  }

  /** Storing a directory's table unchanged changes nothing. */
  lemma RewriteTable(st: Fs, d: nat)
    requires Inv(st) && LiveDir(st, d)
    ensures var u := SaveDir(st, st.inodes[d].direct[0], DirOf(st, d));
            && Inv(u) && OnlyNode(st, u, d) && TreeSame(st, u) && DirOf(u, d) == DirOf(st, d)
            && u.inodes == st.inodes && u.ipool == st.ipool && u.dpool == st.dpool
            && u.freeBlocks == st.freeBlocks && u.freeInodes == st.freeInodes
  {
    assert DirOk(st, d);
    SaveTableKeeps(st, d, DirOf(st, d));
    var u := SaveDir(st, st.inodes[d].direct[0], DirOf(st, d));
    LiveAgain(st, u);
    ForestKept(Tree(st), Tree(u));
    ChildrenSameTree(st, u);
  }

  /** The outcome of entering a new node: one more path and entry, or none when the table was full. */
  ghost predicate Entered(st: Fs, u: Fs, dir: Path, d: nat, name: Name, i: nat) {
    match u
    case Fs(b, _, _, _, _, _, _) =>
      && b == st.b && Inv(u) && SameDevice(st, u) && Live(u, i) && !Live(st, i)
      && d < |st.inodes| && u.inodes[d] == st.inodes[d]
      && (if DirOf(st, d).size < SLOTS
          then TreeGains(st, u, dir + [name], i) && Appended(DirOf(st, d), DirOf(u, d), name, i)
          else TreeSame(st, u) && DirOf(u, d) == DirOf(st, d))
      && (forall j: nat :: Live(st, j) && j != d ==> Live(u, j) && Same(st, u, j))
  }

  /** The walk then follows every path as before, except to the new node. */
  lemma EnteredWalk(st: Fs, u: Fs, dir: Path, d: nat, name: Name, i: nat, p: Path)
    requires Inv(st) && Entered(st, u, dir, d, name, i) && TableOrNothing(u, i) && ThroughDirs(st, p)
    ensures ThroughDirs(u, p)
    ensures Resolve(u, p) == if DirOf(st, d).size < SLOTS && p == dir + [name] then i else Resolve(st, p)
  {
    hide Inv, TableOrNothing, TreeAt, Live, Resolve;
    forall k | 0 <= k < |p|
      ensures TableOrNothing(u, TreeAt(Tree(u), p[..k]))
    {
      StillPassable(st, u, dir, d, name, i, p[..k]);
    }
    EnteredTree(st, u, dir, d, name, i);
    InvMeansWalkInv(st);
    InvMeansWalkInv(u);
    ResolveIsTree(st, p);
    ResolveIsTree(u, p);
  }

  lemma EnteredTree(st: Fs, u: Fs, dir: Path, d: nat, name: Name, i: nat)
    requires Entered(st, u, dir, d, name, i)
    ensures Inv(u)
    ensures if DirOf(st, d).size < SLOTS then TreeGains(st, u, dir + [name], i) else TreeSame(st, u)
  {
  }

  lemma StillPassable(st: Fs, u: Fs, dir: Path, d: nat, name: Name, i: nat, p: Path)
    requires Inv(st) && Entered(st, u, dir, d, name, i) && TableOrNothing(u, i)
    requires TableOrNothing(st, TreeAt(Tree(st), p))
    ensures TableOrNothing(u, TreeAt(Tree(u), p))
  {
    hide TreeAt;
    InvMeansWalkInv(st);
    EnteredTree(st, u, dir, d, name, i);
    var t := TreeAt(Tree(st), p);
    if t != 0 { ReachedIsLive(st, p); }
  }

  /** The path string leads to the new node exactly when the entry was made and the name is not empty. */
  lemma CreatedPath(st: Fs, u: Fs, path: Bytes, d: nat, i: nat)
    requires Inv(st) && PathOk(st, path) && Entered(st, u, DirPath(path), d, Last(path), i) && TableOrNothing(u, i)
    ensures Resolve(u, Tokens(path)) == i <==> Last(path) != [] && DirOf(st, d).size < SLOTS
  {
    hide Inv, PathOk, Entered, ThroughDirs, TableOrNothing, Resolve, TreeAt;
    StringOfPath(path);
    PathOkWalks(st, path);
    EnteredWalk(st, u, DirPath(path), d, Last(path), i, Tokens(path));
    NewIsNowhere(st, u, DirPath(path), d, Last(path), i, Tokens(path));
    assert |FullPath(path)| != |DirPath(path)|;
  }

  lemma NewIsNowhere(st: Fs, u: Fs, dir: Path, d: nat, name: Name, i: nat, p: Path)
    requires Inv(st) && Entered(st, u, dir, d, name, i) && ThroughDirs(st, p)
    ensures Resolve(st, p) != i
  {
    InvMeansWalkInv(st);
    ResolveIsTree(st, p);
    if TreeAt(Tree(st), p) != 0 { ReachedIsLive(st, p); }
  }

  /** From a placed node `i` in `m` on: the entry is made in the directory at `dir`. */
  lemma EnterPlaced(st: Fs, m: Fs, dir: Path, d: nat, name: Name, i: nat)
    requires d == TreeAt(Tree(st), dir)
    requires Inv(st) && Inv(m) && OnlyNode(st, m, i) && !Live(st, i) && Live(m, i) && i != ROOT && i != 0
    requires Unlinked(m, i) && (forall j: nat, n: Name :: Child(m, j, n) == Child(st, j, n))
    requires LiveDir(st, d) && GoodName(name) && Child(st, d, name) == 0
    ensures var u := EnterIn(m, d, name, i);
            Entered(st, u, dir, d, name, i)
            && u.inodes == m.inodes && u.ipool == m.ipool && u.dpool == m.dpool
            && u.freeBlocks == m.freeBlocks && u.freeInodes == m.freeInodes
  {
    var u := EnterIn(m, d, name, i);
    assert Same(st, m, d) && DirOk(st, d);
    SameTable(st, m, d);
    ChildrenSameTree(st, m);
    if DirOf(st, d).size < SLOTS {
      LinkEntry(m, d, name, i);
      forall p: Path
        ensures TreeAt(Tree(u), p) == if p == dir + [name] then i else TreeAt(Tree(st), p)
      {
        AddLeaf(Tree(m), Tree(u), dir, name, i, p);
      }
    } else {
      RewriteTable(m, d);
    }
    forall j: nat | Live(st, j) && j != d
      ensures Live(u, j) && Same(st, u, j)
    {
      SameTransitive(st, m, u, j);
    }
  }

  lemma NewInodeShape(mode: nat, nlink: nat, size: nat, blkcnt: nat, block: nat)
    requires mode < TWO_32 && nlink < TWO_64 && size < TWO_64 && blkcnt < TWO_64 && block < TWO_32
    ensures var x := NewInode(mode, nlink, size, blkcnt, block);
            x.Valid() && x.indirect == 0 && x.direct[0] == block && forall s :: 0 < s < DIRECT_BLKS ==> x.direct[s] == 0
  {
  }

  /** Permission bits without a type, as mkdir receives them, or with the directory type already set. */
  predicate DirModeOk(mode: nat) {
    mode < TWO_32 && (mode / 0x1000 % 16 == 0 || mode / 0x1000 % 16 == 4)
  }

  lemma DirModeIsDir(mode: nat)
    requires DirModeOk(mode)
    ensures DirMode(mode) < TWO_32 && DirMode(mode) / 0x1000 % 16 == 4
  {
    var low, q := mode % 0x1000, mode / 0x1000;
    var t, a := q % 16, q / 16;
    assert mode == 0x10000 * a + 0x1000 * t + low;
    assert mode / 0x4000 == 4 * a + t / 4;
    if t == 0 {
      assert DirMode(mode) == 0x1000 * (16 * a + 4) + low;
      assert DirMode(mode) / 0x1000 == 16 * a + 4;
    }
  }

  /** A file's mode carries any type but the directory's. */
  predicate FileModeOk(mode: nat) {
    mode < TWO_32 && mode / 0x1000 % 16 != 4
  }

  /**
   * Creating a file refines inserting one path into the tree: it succeeds exactly when the parent
   * is a directory, the name is short enough and new, and an inode is free. Then the path leads to
   * a fresh empty file exactly when the parent's table had room and the path does not end in a
   * slash, and every other path, file and directory is as before. A failure changes nothing.
   */
  lemma CreateFileMeaning(st: Fs, path: Bytes, mode: nat) returns (r: (Fs, Error, nat))
    requires Inv(st) && HintsLive(st.ipool) && PathOk(st, path) && FileModeOk(mode)
    ensures r == CreateFile(st, path, mode)
    ensures Answers(st, path, Clear(st.ipool) > 0, r.1)
    ensures r.1 != OK ==> r.0 == st
    ensures r.1 == OK ==>
              && Entered(st, r.0, DirPath(path), TreeAt(Tree(st), DirPath(path)), Last(path), r.2)
              && EmptyFileAt(r.0, r.2, mode)
              && forall j: nat :: InUse(r.0.ipool, j) <==> InUse(st.ipool, j) || j == r.2
    ensures r.1 == OK ==>
              (Resolve(r.0, Tokens(path)) == r.2 <==>
                Last(path) != [] && DirOf(st, TreeAt(Tree(st), DirPath(path))).size < SLOTS)
    ensures r.0.dpool == st.dpool && BlockDrift(r.0) == BlockDrift(st) && InodeDrift(r.0) == InodeDrift(st)
    ensures HintsLive(r.0.ipool)
  {
    r := CreateFile(st, path, mode);
    ParentMeaning(st, path);
    InodeAllocMeaning(st);
    var (e, d) := PathToParent(st, path);
    if e == OK && Child(st, d, Last(path)) == 0 && Clear(st.ipool) > 0 {
      CreateSucceeds(st, DirPath(path), d, Last(path), mode);
      NewFileIsPassable(r.0, r.2, mode);
      CreatedPath(st, r.0, path, d, r.2);
    }
  }

  /** A file without contents: the given mode, one link, no bytes, no blocks. */
  ghost predicate EmptyFileAt(u: Fs, i: nat, mode: nat) {
    i < |u.inodes|
    && var x := u.inodes[i];
    && x.mode == mode && x.nlink == 1 && x.size == 0 && x.blkcnt == 0 && x.doubleIndirect == 0
    && forall s: nat :: Ref(u, i, s) == 0
  }

  lemma NewFileIsPassable(u: Fs, i: nat, mode: nat)
    requires EmptyFileAt(u, i, mode)
    ensures TableOrNothing(u, i)
  {
    assert Ref(u, i, 0) == u.inodes[i].direct[0];
  }

  lemma NewFileIsEmpty(u: Fs, i: nat, mode: nat)
    requires i < |u.inodes| && u.inodes[i] == NewFile(mode)
    ensures EmptyFileAt(u, i, mode)
  {
  }

  /** All answers of create and mkdir: `free` says that the inode, and for mkdir the block, is there. */
  ghost predicate Answers(st: Fs, path: Bytes, free: bool, e: Error)
    requires HasSlash(path)
  {
    var d := TreeAt(Tree(st), DirPath(path));
    && (e == ENAMETOOLONG <==> |Last(path)| > NAME_LEN)
    && (e == ENOENT <==> |Last(path)| <= NAME_LEN && d == 0)
    && (e == CORRUPT <==> |Last(path)| <= NAME_LEN && d != 0 && !IsDirAt(st, d))
    && (e == EEXIST <==> |Last(path)| <= NAME_LEN && LiveDir(st, d) && Child(st, d, Last(path)) != 0)
    && (e == ENOMEM <==> |Last(path)| <= NAME_LEN && LiveDir(st, d) && Child(st, d, Last(path)) == 0 && !free)
    && (e == OK <==> |Last(path)| <= NAME_LEN && LiveDir(st, d) && Child(st, d, Last(path)) == 0 && free)
  }

  lemma CreateSucceeds(st: Fs, dir: Path, d: nat, name: Name, mode: nat)
    requires Inv(st) && HintsLive(st.ipool) && FileModeOk(mode)
    requires d == TreeAt(Tree(st), dir)
    requires LiveDir(st, d) && GoodName(name) && Child(st, d, name) == 0 && Clear(st.ipool) > 0
    ensures var r := CreateIn(st, d, name, mode);
            && r.1 == OK && Entered(st, r.0, dir, d, name, r.2) && EmptyFileAt(r.0, r.2, mode)
            && (forall j: nat :: InUse(r.0.ipool, j) <==> InUse(st.ipool, j) || j == r.2)
            && r.0.dpool == st.dpool && BlockDrift(r.0) == BlockDrift(st) && InodeDrift(r.0) == InodeDrift(st)
            && HintsLive(r.0.ipool)
  {
    hide Entered, Inv, OnlyNode, Unlinked, Child, TreeAt, EmptyFileAt, InUse, HintsLive, IsDir, EnterIn, NewFile, DirAt,
        Shape;
    ShapeOf(st);
    InodeAllocMeaning(st);
    var (st1, i) := InodeAlloc(st);
    NotReserved(st, i);
    FilePlaced(st, st1, i, mode);
    var m := PlaceNode(st1, i, NewFile(mode));
    EnterPlaced(st, m, dir, d, name, i);
    var u := EnterIn(m, d, name, i);
    NewFileIsEmpty(u, i, mode);
    EnterCommutes(st1, d, name, i, NewFile(mode));
    DriftSame(st1, u);
    DriftSame(st, st1);
    InodeDriftSame(st1, u);
  }

  lemma FilePlaced(st: Fs, st1: Fs, i: nat, mode: nat)
    requires Inv(st) && FileModeOk(mode) && i > ROOT && i < |st.inodes| && !InUse(st.ipool, i)
    requires Shape(st1) && SameDevice(st, st1) && st1.inodes == st.inodes && st1.blocks == st.blocks
        && st1.dpool == st.dpool
    requires forall j: nat :: InUse(st1.ipool, j) <==> InUse(st.ipool, j) || j == i
    ensures var m := PlaceNode(st1, i, NewFile(mode));
            && Inv(m) && OnlyNode(st, m, i) && m.ipool == st1.ipool && m.dpool == st1.dpool
            && m.freeBlocks == st1.freeBlocks && m.freeInodes == st1.freeInodes
            && m == SaveInode(st1, i, NewFile(mode)) && m.inodes[i] == NewFile(mode) && Live(m, i) && Unlinked(m, i)
            && (forall j: nat, n: Name :: Child(m, j, n) == Child(st, j, n))
  {
    NewInodeShape(mode, 1, 0, 0, 0);
    ZeroFree(st.dpool);
    PlaceKeeps(st, st1, i, NewFile(mode));
  }

  /** The entry and the new inode live in different places, so the order of storing them is immaterial. */
  lemma EnterCommutes(m: Fs, d: nat, name: Name, i: nat, x: Inode)
    requires d != i && d < |m.inodes| && i < |m.inodes|
    ensures SaveInode(EnterIn(m, d, name, i), i, x) == EnterIn(SaveInode(m, i, x), d, name, i)
  {
    hide Insert, Tables.Encode, Splice;
    var e := Tables.Encode(Insert(DirOf(m, d), name, i).0);
    assert DirOf(SaveInode(m, i, x), d) == DirOf(m, d);
  }

  /** Allocation never returns the reserved inode or the root again. */
  lemma NotReserved(st: Fs, i: nat)
    requires Inv(st) && i != 0 && !InUse(st.ipool, i)
    ensures i > ROOT && !Live(st, i)
  {
    assert Live(st, ROOT);
  }

  /** Reading a file right after its creation answers no bytes, whatever is asked for. */
  lemma CreateThenRead(st: Fs, path: Bytes, mode: nat, size: nat, off: nat, words: FileIO.Words)
    requires Inv(st) && HintsLive(st.ipool) && PathOk(st, path) && FileModeOk(mode)
    ensures var (u, e, i) := CreateFile(st, path, mode);
            e == OK ==> i < |u.inodes| && ReadFile(u, i, size, off, words) == Read([])
  {
    var r := CreateFileMeaning(st, path, mode);
  }

  // ---------- mkdir ----------

  lemma DirPlaced(st: Fs, m: Fs, i: nat, mode: nat, blk: nat)
    requires Inv(st) && DirModeOk(mode) && i > ROOT && i < |st.inodes| && !InUse(st.ipool, i)
    requires Shape(m) && SameDevice(st, m) && m.inodes == st.inodes && m.blocks == st.blocks
    requires forall j: nat :: InUse(m.ipool, j) <==> InUse(st.ipool, j) || j == i
    requires 0 < blk < |st.blocks| && !InUse(st.dpool, blk)
    requires forall d: nat :: InUse(m.dpool, d) <==> InUse(st.dpool, d) || d == blk
    ensures var x := NewDir(mode, blk);
            var u := SaveDir(SaveInode(m, i, x), blk, Empty());
            && Inv(u) && OnlyNode(st, u, i) && u.ipool == m.ipool && u.dpool == m.dpool
            && u.freeBlocks == m.freeBlocks && u.freeInodes == m.freeInodes
            && LiveDir(u, i) && Unlinked(u, i) && DirOf(u, i) == Empty() && u.inodes[i] == x
            && (forall j: nat, n: Name :: Child(u, j, n) == Child(st, j, n))
  {
    DirModeIsDir(mode);
    NewInodeShape(DirMode(mode), 2, 0x1000, 9, blk);
    PlaceKeeps(st, m, i, NewDir(mode, blk));
  }

  /** Entry, inode and empty table of a new directory are stored in three different places. */
  lemma MkdirCommutes(m: Fs, d: nat, name: Name, i: nat, x: Inode, blk: nat)
    requires d != i && d < |m.inodes| && i < |m.inodes| && m.inodes[d].direct[0] != blk
    ensures SaveDir(SaveInode(EnterIn(m, d, name, i), i, x), blk, Empty())
            == EnterIn(SaveDir(SaveInode(m, i, x), blk, Empty()), d, name, i)
  {
    hide Insert, Tables.Encode, Splice, Tables.Decode, Empty;
    var v := SaveDir(SaveInode(m, i, x), blk, Empty());
    assert DirOf(v, d) == DirOf(m, d);
  }

  /**
   * A directory without entries: permission bits of the given mode under the directory type, two
   * links, 4096 bytes in 9 units, and one block that was free before, with an empty table.
   */
  ghost predicate EmptyDirAt(st: Fs, u: Fs, i: nat, mode: nat) {
    i < |u.inodes|
    && var x := u.inodes[i];
    var d := x.direct[0];
    && IsDir(x) && x.mode % 0x1000 == mode % 0x1000 && x.mode / 0x10000 == mode / 0x10000
    && x.nlink == 2 && x.size == 4096 && x.blkcnt == 9 && x.doubleIndirect == 0
    && d != 0 && !InUse(st.dpool, d) && (forall e: nat :: InUse(u.dpool, e) <==> InUse(st.dpool, e) || e == d)
    && (forall s: nat :: Ref(u, i, s) == if s == 0 then d else 0)
    && DirOf(u, i) == Empty()
  }

  lemma DirModeParts(mode: nat)
    requires DirModeOk(mode)
    ensures DirMode(mode) % 0x1000 == mode % 0x1000 && DirMode(mode) / 0x10000 == mode / 0x10000
  {
    var low, q := mode % 0x1000, mode / 0x1000;
    var t, a := q % 16, q / 16;
    assert mode == 0x10000 * a + (0x1000 * t + low);
    if t == 0 {
      DivModUnique(mode, 0x4000, 4 * a, low);
      DivModUnique(mode + 0x4000, 0x1000, 16 * a + 4, low);
      DivModUnique(mode + 0x4000, 0x10000, a, 0x4000 + low);
    } else {
      DivModUnique(mode, 0x4000, 4 * a + 1, low);
    }
    DivModUnique(mode, 0x10000, a, 0x1000 * t + low);
  }

  lemma NewDirIsEmpty(st: Fs, u: Fs, i: nat, mode: nat, d: nat)
    requires DirModeOk(mode) && i < |u.inodes| && u.inodes[i] == NewDir(mode, d) && DirOf(u, i) == Empty()
    requires d != 0 && !InUse(st.dpool, d) && forall e: nat :: InUse(u.dpool, e) <==> InUse(st.dpool, e) || e == d
    ensures EmptyDirAt(st, u, i, mode)
  {
    DirModeParts(mode);
    DirModeIsDir(mode);
  }

  lemma MkdirSucceeds(st: Fs, dir: Path, d: nat, name: Name, mode: nat)
    requires Inv(st) && HintsLive(st.ipool) && HintsLive(st.dpool) && DirModeOk(mode)
    requires d == TreeAt(Tree(st), dir)
    requires LiveDir(st, d) && GoodName(name) && Child(st, d, name) == 0
    requires Clear(st.ipool) > 0 && Clear(st.dpool) > 0
    ensures var r := MkdirIn(st, d, name, mode);
            && r.1 == OK && Entered(st, r.0, dir, d, name, r.2) && LiveDir(r.0, r.2)
            && EmptyDirAt(st, r.0, r.2, mode) && SameDevice(st, r.0)
            && (forall j: nat :: InUse(r.0.ipool, j) <==> InUse(st.ipool, j) || j == r.2)
            && BlockDrift(r.0) == BlockDrift(st) && InodeDrift(r.0) == InodeDrift(st)
            && HintsLive(r.0.ipool) && HintsLive(r.0.dpool)
            && Clear(r.0.ipool) == Clear(st.ipool) - 1 && Clear(r.0.dpool) == Clear(st.dpool) - 1
  {
    DataAllocMeaning(st);
    var (st1, blk) := DataAlloc(st);
    InodeAllocMeaning(st1);
    var (st2, i) := InodeAlloc(st1);
    NotReserved(st, i);
    DirPlaced(st, st2, i, mode, blk);
    var x := NewDir(mode, blk);
    var m := SaveDir(SaveInode(st2, i, x), blk, Empty());
    EnterPlaced(st, m, dir, d, name, i);
    DirBlockInUse(st, d);
    hide Entered, Inv, OnlyNode, Unlinked, Child, TreeAt, EmptyDirAt;
    var u := EnterIn(m, d, name, i);
    TableElsewhere(m, d, name, i, i, blk);
    NewDirIsEmpty(st, u, i, mode, blk);
    MkdirCommutes(st2, d, name, i, x, blk);
    DriftSame(st2, u); DriftSame(st1, st2);
    InodeDriftSame(st2, u); InodeDriftSame(st, st1);
  }

  /** The entry is stored in another block than the one of directory `j`. */
  lemma TableElsewhere(m: Fs, d: nat, name: Name, i: nat, j: nat, blk: nat)
    requires d < |m.inodes| && j < |m.inodes| && m.inodes[j].direct[0] == blk && m.inodes[d].direct[0] != blk
    ensures DirOf(EnterIn(m, d, name, i), j) == DirOf(m, j)
  {
    hide Insert, Tables.Encode, Splice;
  }

  lemma DirBlockInUse(st: Fs, d: nat)
    requires Inv(st) && LiveDir(st, d)
    ensures st.inodes[d].direct[0] != 0 && InUse(st.dpool, st.inodes[d].direct[0])
  {
    assert DirOk(st, d);
    assert Ref(st, d, 0) == st.inodes[d].direct[0];
  }

  /** Taking a free block without using it only makes it unavailable. */
  lemma LeakedBlock(st: Fs)
    requires Inv(st) && HintsLive(st.dpool)
    ensures var u := DataAlloc(st).0;
            Inv(u) && TreeSame(st, u) && (forall j: nat :: Live(st, j) ==> Live(u, j) && Same(st, u, j))
  {
    DataAllocMeaning(st);
    var u := DataAlloc(st).0;
    forall j: nat, s: nat
      ensures Ref(u, j, s) == Ref(st, j, s)
    {
    }
    BlockInvStep(st, u, 0);
    TreeKept(st, u);
    ChildrenSameTree(st, u);
  }

  /**
   * Making a directory refines inserting one path: it succeeds exactly when the parent is a
   * directory, the name is short enough and new, and a block and an inode are free. Then the path
   * leads to a fresh empty directory exactly when the parent's table had room and the path does not
   * end in a slash. When only the inode is missing, the block stays taken, and nothing else changes.
   */
  lemma MkdirMeaning(st: Fs, path: Bytes, mode: nat) returns (r: (Fs, Error, nat))
    requires Inv(st) && HintsLive(st.ipool) && HintsLive(st.dpool) && PathOk(st, path) && DirModeOk(mode)
    ensures r == Mkdir(st, path, mode)
    ensures Answers(st, path, Clear(st.ipool) > 0 && Clear(st.dpool) > 0, r.1)
    ensures r.1 == OK ==>
              Entered(st, r.0, DirPath(path), TreeAt(Tree(st), DirPath(path)), Last(path), r.2) && LiveDir(r.0, r.2)
    ensures r.1 == OK ==>
              EmptyDirAt(st, r.0, r.2, mode) && forall j: nat :: InUse(r.0.ipool, j) <==> InUse(st.ipool, j) || j == r.2
    ensures r.1 == OK ==>
              (Resolve(r.0, Tokens(path)) == r.2 <==>
                Last(path) != [] && DirOf(st, TreeAt(Tree(st), DirPath(path))).size < SLOTS)
    ensures r.1 != OK ==>
              Inv(r.0) && TreeSame(st, r.0) && forall j: nat :: Live(st, j) ==> Live(r.0, j) && Same(st, r.0, j)
    ensures r.1 != OK ==> if r.1 == ENOMEM && Clear(st.dpool) > 0 then BlockLeaked(st, r.0) else r.0 == st
    ensures r.1 == OK ==> Clear(r.0.ipool) == Clear(st.ipool) - 1 && Clear(r.0.dpool) == Clear(st.dpool) - 1
    ensures BlockDrift(r.0) == BlockDrift(st) && InodeDrift(r.0) == InodeDrift(st)
    ensures HintsLive(r.0.ipool) && HintsLive(r.0.dpool) && SameDevice(st, r.0)
  {
    hide EmptyDirAt, Entered, MkdirIn, TreeSame, Same, TreeAt, Inv, DirAt, BlockLeaked;
    r := Mkdir(st, path, mode);
    ParentMeaning(st, path);
    var (e, d) := PathToParent(st, path);
    NothingSame(st);
    if e == OK && Child(st, d, Last(path)) == 0 {
      if Clear(st.ipool) > 0 && Clear(st.dpool) > 0 {
        MkdirSucceeds(st, DirPath(path), d, Last(path), mode);
        CreatedPath(st, r.0, path, d, r.2);
      } else {
        MkdirFails(st, d, Last(path), mode);
      }
    }
  }

  lemma NothingSame(st: Fs)
    ensures TreeSame(st, st) && SameDevice(st, st)
    ensures forall j: nat :: Live(st, j) ==> Live(st, j) && Same(st, st, j)
  {
  }

  /** One block more is taken, and nothing else has changed. */
  ghost predicate BlockLeaked(st: Fs, u: Fs) {
    && u.inodes == st.inodes && u.blocks == st.blocks && u.ipool == st.ipool && u.freeInodes == st.freeInodes
    && Clear(u.dpool) == Clear(st.dpool) - 1
    && exists d: nat :: TakesBlock(st, u, d)
  }

  ghost predicate TakesBlock(st: Fs, u: Fs, d: nat) {
    d != 0 && !InUse(st.dpool, d) && forall e: nat :: InUse(u.dpool, e) <==> InUse(st.dpool, e) || e == d
  }

  lemma MkdirFails(st: Fs, d: nat, name: Name, mode: nat)
    requires Inv(st) && HintsLive(st.ipool) && HintsLive(st.dpool)
    requires Clear(st.ipool) == 0 || Clear(st.dpool) == 0
    ensures var r := MkdirIn(st, d, name, mode);
            && r.1 == ENOMEM
            && (if Clear(st.dpool) > 0 then BlockLeaked(st, r.0) else r.0 == st)
            && Inv(r.0) && TreeSame(st, r.0) && (forall j: nat :: Live(st, j) ==> Live(r.0, j) && Same(st, r.0, j))
            && BlockDrift(r.0) == BlockDrift(st) && InodeDrift(r.0) == InodeDrift(st)
            && HintsLive(r.0.ipool) && HintsLive(r.0.dpool) && SameDevice(st, r.0)
  {
    DataAllocMeaning(st);
    NothingSame(st);
    var (st1, blk) := DataAlloc(st);
    if blk != 0 {
      LeakedBlock(st);
      assert TakesBlock(st, st1, blk);
      InodeAllocMeaning(st1);
      InodeDriftSame(st, st1);
    }
  }
}

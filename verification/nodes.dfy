// The four updates every namespace operation is made of: adding a node, entering it in a
// directory, taking an entry out, and giving a node back. Each keeps the invariant.
module Nodes {
  import opened Codec
  import opened Invariant
  import opened Layout
  import opened Namespace
  import opened Pools
  import opened State
  import opened Tables

  // ---------- entries ----------

  /** Every node but `i` is untouched, and the same inodes are live. */
  ghost predicate OnlyNode(st: Fs, u: Fs, i: nat) {
    && SameDevice(st, u)
    && (forall j: nat :: Live(st, j) && j != i ==> Live(u, j) && Same(st, u, j))
  }

  lemma StoredTable(st: Fs, d: nat, t: Table)
    requires Shape(st) && d < |st.blocks| && Sized(t)
    ensures DirAt(SaveDir(st, d, t), d) == t
  {
    TableRoundTrip(t);
    assert Splice(st.blocks[d], 0, Tables.Encode(t))[..TABLE_BYTES] == Tables.Encode(t);
  }

  /** Storing a well-formed table in directory `p` changes the children of `p` and nothing else. */
  lemma SaveTableKeeps(st: Fs, p: nat, t: Table)
    requires Inv(st) && LiveDir(st, p) && Good(t)
    ensures var u := SaveDir(st, st.inodes[p].direct[0], t);
            && BlockInv(u) && DirsOk(u) && OnlyNode(st, u, p)
            && u.inodes == st.inodes && u.ipool == st.ipool && u.dpool == st.dpool
            && u.freeBlocks == st.freeBlocks && u.freeInodes == st.freeInodes
            && DirOf(u, p) == t
            && (forall j: nat, n: Name :: Child(u, j, n) == if j == p then Lookup(t, n) else Child(st, j, n))
  {
    var d := st.inodes[p].direct[0];
    var u := SaveDir(st, d, t);
    assert DirOk(st, p) && Ref(st, p, 0) == d;
    InUseInRange(st.dpool, d);
    PutBlockShape(st, d, 0, Tables.Encode(t));
    StoredTable(st, d, t);
    SaveTableRefs(st, p, t);
    BlockInvStep(st, u, p);
    forall j: nat | LiveDir(u, j)
      ensures DirOk(u, j) && DirOf(u, j) == if j == p then t else DirOf(st, j)
    {
      assert DirOk(st, j);
      if j != p { SameTable(st, u, j); }
    }
  }

  lemma SaveTableRefs(st: Fs, p: nat, t: Table)
    requires Inv(st) && LiveDir(st, p)
    ensures var u := SaveDir(st, st.inodes[p].direct[0], t);
            && (forall j: nat, s: nat :: Live(st, j) ==> Ref(u, j, s) == Ref(st, j, s))
            && (forall j: nat :: Live(st, j) && j != p ==> Same(st, u, j))
  {
    var d := st.inodes[p].direct[0];
    var u := SaveDir(st, d, t);
    assert DirOk(st, p) && Ref(st, p, 0) == d;
    forall j: nat | Live(st, j)
      ensures forall s: nat :: Ref(u, j, s) == Ref(st, j, s)
      ensures j != p ==> Same(st, u, j)
    {
      assert Ref(st, j, TableSlot(st.b)) == st.inodes[j].indirect;
    }
  }

  /** No directory entry leads to inode `c`. */
  ghost predicate Unlinked(st: Fs, c: nat) {
    forall d: nat, n: Name :: Child(st, d, n) != c
  }

  /** Entering an unlinked node under a new name. */
  lemma LinkEntry(st: Fs, p: nat, name: Name, c: nat)
    requires Inv(st) && LiveDir(st, p) && GoodName(name) && Child(st, p, name) == 0
    requires DirOf(st, p).size < SLOTS
    requires Live(st, c) && c != ROOT && Unlinked(st, c)
    ensures var u := SaveDir(st, st.inodes[p].direct[0], Insert(DirOf(st, p), name, c).0);
            && Inv(u) && OnlyNode(st, u, p) && AddsEdge(Tree(st), Tree(u), p, name, c)
            && Appended(DirOf(st, p), DirOf(u, p), name, c)
            && u.inodes == st.inodes && u.ipool == st.ipool && u.dpool == st.dpool
            && u.freeBlocks == st.freeBlocks && u.freeInodes == st.freeInodes
  {
    var t := Insert(DirOf(st, p), name, c).0;
    assert DirOk(st, p);
    BoundsAre();
    InsertAddsBinding(DirOf(st, p), name, c);
    InsertAppends(DirOf(st, p), name, c);
    SaveTableKeeps(st, p, t);
    var u := SaveDir(st, st.inodes[p].direct[0], t);
    assert AddsEdge(Tree(st), Tree(u), p, name, c);
    AddForest(Tree(st), Tree(u), p, name, c);
    LiveAgain(st, u);
    forall j: nat, n: Name | Child(u, j, n) != 0
      ensures Live(u, Child(u, j, n))
    {
      assert Child(u, j, n) == c || Child(u, j, n) == Child(st, j, n);
    }
  }

  lemma AddForest(g: Edges, h: Edges, d: nat, n: Name, c: nat)
    requires Forest(g) && AddsEdge(g, h, d, n, c) && c != ROOT && c != 0
    requires forall e, m :: g(e, m) != c
    ensures Forest(h)
  {
  }

  lemma LiveAgain(st: Fs, u: Fs)
    requires u.inodes == st.inodes && u.ipool == st.ipool
    ensures forall j: nat :: Live(u, j) <==> Live(st, j)
  {
  }

  /** Directory `p` has lost its entry `name`; its last entry is now in that place. */
  ghost predicate LostEntry(st: Fs, u: Fs, p: nat, name: Name) {
    0 < DirOf(st, p).size <= SLOTS && DirOf(u, p) == Without(DirOf(st, p), name)
  }

  /** Taking an entry out. */
  lemma UnlinkEntry(st: Fs, p: nat, name: Name)
    requires Inv(st) && LiveDir(st, p)
    ensures var (t, c) := Remove(DirOf(st, p), name);
            var u := SaveDir(st, st.inodes[p].direct[0], t);
            && c == Child(st, p, name) && DirOf(u, p) == t
            && Inv(u) && OnlyNode(st, u, p) && CutsEdge(Tree(st), Tree(u), p, name, 0)
            && (c != 0 ==> Unlinked(u, c) && LostEntry(st, u, p, name))
            && u.inodes == st.inodes && u.ipool == st.ipool && u.dpool == st.dpool
            && u.freeBlocks == st.freeBlocks && u.freeInodes == st.freeInodes
  {
    var (t, c) := Remove(DirOf(st, p), name);
    assert DirOk(st, p);
    RemoveDeletesBinding(DirOf(st, p), name);
    if c != 0 { RemoveIsWithout(DirOf(st, p), name); }
    SaveTableKeeps(st, p, t);
    ZeroHasNoChildren(st);
    CutKeepsTree(st, SaveDir(st, st.inodes[p].direct[0], t), p, name);
  }

  lemma CutKeepsTree(st: Fs, u: Fs, p: nat, name: Name)
    requires Inv(st) && BlockInv(u) && DirsOk(u) && u.inodes == st.inodes && u.ipool == st.ipool
    requires CutsEdge(Tree(st), Tree(u), p, name, 0)
    ensures Inv(u) && (Child(st, p, name) != 0 ==> Unlinked(u, Child(st, p, name)))
  {
    hide DirsOk;
    ZeroHasNoChildren(st);
    CutForest(Tree(st), Tree(u), p, name);
    LiveAgain(st, u);
    forall j: nat, n: Name
      ensures Child(u, j, n) != 0 ==> Live(u, Child(u, j, n))
      ensures Child(st, p, name) != 0 ==> Child(u, j, n) != Child(st, p, name)
    {
      assert Tree(u)(j, n) == 0 || Tree(u)(j, n) == Tree(st)(j, n);
      assert Tree(u)(p, name) == 0;
      assert Tree(st)(j, n) == Tree(st)(p, name) && Tree(st)(j, n) != 0 ==> j == p && n == name;
    }
  }

  lemma ZeroHasNoChildren(st: Fs)
    ensures forall n: Name :: Child(st, 0, n) == 0
  {
  }

  // ---------- nodes ----------

  /** Inode allocation takes a free index, or fails because there is none. */
  lemma InodeAllocMeaning(st: Fs)
    requires Shape(st) && HintsLive(st.ipool)
    ensures var (u, i) := InodeAlloc(st);
            && Shape(u) && HintsLive(u.ipool) && SameDevice(st, u)
            && u.inodes == st.inodes && u.blocks == st.blocks && u.dpool == st.dpool && u.freeBlocks == st.freeBlocks
            && i < |st.inodes| && (i == 0 <==> Clear(st.ipool) == 0)
            && (i == 0 ==> u == st)
            && (i != 0 ==> !InUse(st.ipool, i) && Clear(u.ipool) == Clear(st.ipool) - 1)
            && InodeDrift(u) == InodeDrift(st)
            && forall j: nat :: InUse(u.ipool, j) <==> InUse(st.ipool, j) || (i != 0 && j == i)
  {
    LiveMeansReady(st.ipool);
    AllocAddsOne(st.ipool, 8 * st.b);
    AllocCounts(st.ipool, 8 * st.b);
    DriftStep(st.freeInodes, Clear(st.ipool));
  }

  /** The inode a new file or directory gets. */
  function NewInode(mode: nat, nlink: nat, size: nat, blkcnt: nat, block: nat): (x: Inode) {
    Inode(mode, nlink, blkcnt, size, seq(DIRECT_BLKS, s => if s == 0 then block else 0), 0, 0)
  }

  /** A new inode in slot `i`; if `block` is not 0, an empty directory table in that block. */
  function PlaceNode(st: Fs, i: nat, x: Inode): (u: Fs) {
    if x.direct[0] == 0 then SaveInode(st, i, x) else SaveDir(SaveInode(st, i, x), x.direct[0], Empty())
  }

  /**
   * Inode `i` and its block `d` have just been allocated between `st` and `m`. Filling them makes
   * an unlinked node without children, and leaves every other node alone.
   */
  lemma PlaceKeeps(st: Fs, m: Fs, i: nat, x: Inode)
    requires Inv(st) && Shape(m) && SameDevice(st, m) && m.inodes == st.inodes && m.blocks == st.blocks
    requires ROOT < i < |st.inodes| && !InUse(st.ipool, i)
    requires forall j: nat :: InUse(m.ipool, j) <==> InUse(st.ipool, j) || j == i
    requires x.Valid() && x.indirect == 0 && (forall s :: 0 < s < DIRECT_BLKS ==> x.direct[s] == 0)
    requires x.direct[0] < |st.blocks| && !InUse(st.dpool, x.direct[0])
    requires IsDir(x) <==> x.direct[0] != 0
    requires forall d: nat :: InUse(m.dpool, d) <==> InUse(st.dpool, d) || (x.direct[0] != 0 && d == x.direct[0])
    ensures var u := PlaceNode(m, i, x);
            && Inv(u) && OnlyNode(st, u, i) && u.ipool == m.ipool && u.dpool == m.dpool
            && u.freeBlocks == m.freeBlocks && u.freeInodes == m.freeInodes
            && u.inodes == st.inodes[i := x] && Live(u, i) && Unlinked(u, i)
            && (forall j: nat, n: Name :: Child(u, j, n) == Child(st, j, n))
            && (IsDir(x) ==> DirOf(u, i) == Empty())
  {
    hide Tables.Encode, Empty, Decode, Lookup, Splice;
    var u := PlaceNode(m, i, x);
    PlaceShape(m, i, x);
    PlaceRefs(st, m, i, x);
    BlockInvStep(st, u, i);
    PlaceTree(st, u, i, x);
  }

  lemma PlaceShape(m: Fs, i: nat, x: Inode)
    requires Shape(m) && x.Valid() && i < |m.inodes| && x.direct[0] < |m.blocks|
    ensures Shape(PlaceNode(m, i, x)) && SameDevice(m, PlaceNode(m, i, x))
    ensures x.direct[0] != 0 ==> DirAt(PlaceNode(m, i, x), x.direct[0]) == Empty()
  {
    SaveInodeShape(m, i, x);
    if x.direct[0] != 0 {
      EmptyIsGood();
      PutBlockShape(SaveInode(m, i, x), x.direct[0], 0, Tables.Encode(Empty()));
      StoredTable(SaveInode(m, i, x), x.direct[0], Empty());
    }
  }

  lemma PlaceRefs(st: Fs, m: Fs, i: nat, x: Inode)
    requires Inv(st) && SameDevice(st, m) && m.inodes == st.inodes && m.blocks == st.blocks
    requires i < |st.inodes| && !Live(st, i) && !InUse(st.dpool, x.direct[0])
    requires x.indirect == 0 && (forall s :: 0 < s < DIRECT_BLKS ==> x.direct[s] == 0)
    ensures var u := PlaceNode(m, i, x);
            && (forall s: nat :: Ref(u, i, s) == if s == 0 then x.direct[0] else 0)
            && (forall j: nat :: Live(st, j) ==> Same(st, u, j) && forall s: nat :: Ref(u, j, s) == Ref(st, j, s))
  {
    hide Tables.Encode, Empty, Decode, Lookup, IsDir;
    var u := PlaceNode(m, i, x);
    forall j: nat | Live(st, j)
      ensures Same(st, u, j) && forall s: nat :: Ref(u, j, s) == Ref(st, j, s)
    {
      assert Same(st, u, j);
      SameRefs(st, u, j);
    }
  }

  lemma PlaceTree(st: Fs, u: Fs, i: nat, x: Inode)
    requires Inv(st) && SameDevice(st, u) && ROOT < i < |st.inodes| && !InUse(st.ipool, i)
    requires forall j: nat :: InUse(u.ipool, j) <==> InUse(st.ipool, j) || j == i
    requires forall j: nat :: Live(st, j) ==> Same(st, u, j)
    requires u.inodes == st.inodes[i := x] && x.indirect == 0 && (forall s :: 0 < s < DIRECT_BLKS ==> x.direct[s] == 0)
    requires IsDir(x) <==> x.direct[0] != 0
    requires IsDir(x) ==> DirOf(u, i) == Empty()
    ensures TreeInv(u) && Unlinked(u, i)
    ensures forall j: nat, n: Name :: Child(u, j, n) == Child(st, j, n)
  {
    EmptyIsGood();
    forall j: nat | LiveDir(u, j)
      ensures DirOk(u, j) && (j != i ==> DirOf(u, j) == DirOf(st, j))
    {
      if j != i {
        assert DirOk(st, j);
        SameTable(st, u, j);
      }
    }
    forall j: nat, n: Name
      ensures Child(u, j, n) == Child(st, j, n) && Child(u, j, n) != i
    {
      assert j != i ==> (LiveDir(u, j) <==> LiveDir(st, j));
    }
    ForestKept(Tree(st), Tree(u));
  }

  /** Give back an inode and the block in its first direct slot, and no other block. */
  function DropNode(st: Fs, c: nat): (u: Fs)
    requires c < |st.inodes|
  {
    InodeRelease(DataRelease(st, st.inodes[c].direct[0]), c)
  }

  /** What giving back does to the bitmaps. */
  lemma DropPools(st: Fs, c: nat)
    requires Inv(st) && Live(st, c)
    ensures var u, d := DropNode(st, c), st.inodes[c].direct[0];
            && Shape(u) && SameDevice(st, u) && u.inodes == st.inodes && u.blocks == st.blocks
            && (forall j: nat :: InUse(u.ipool, j) <==> InUse(st.ipool, j) && j != c)
            && (forall e: nat :: InUse(u.dpool, e) <==> InUse(st.dpool, e) && !(d != 0 && e == d))
            && Clear(u.dpool) == Clear(st.dpool) + (if d != 0 then 1 else 0)
            && Clear(u.ipool) == Clear(st.ipool) + 1
  {
    var d := st.inodes[c].direct[0];
    assert Ref(st, c, 0) == d;
    ReleaseRemovesOne(st.ipool, 8 * st.b, c);
    if d != 0 {
      ReleaseRemovesOne(st.dpool, 8 * st.b, d);
    } else {
      ZeroFree(st.dpool);
    }
  }

  /** What it does to the counters: the block counter moves even when there is no block. */
  lemma DropDrift(st: Fs, c: nat)
    requires Inv(st) && Live(st, c)
    ensures var u := DropNode(st, c);
            && BlockDrift(u) == (if st.inodes[c].direct[0] != 0 then BlockDrift(st) else U32(BlockDrift(st) + 1))
            && InodeDrift(u) == InodeDrift(st)
  {
    hide U32, InUse, Release, Clear, Live, IsDir;
    DropPools(st, c);
    DriftStep(st.freeInodes, Clear(st.ipool));
    DriftStep(st.freeBlocks, Clear(st.dpool));
    OneMore(st.freeBlocks, Clear(st.dpool));
  }

  lemma OneMore(f: nat, c: nat)
    requires f < TWO_32
    ensures U32(U32(f + 1) - c) == U32(U32(f - c) + 1)
  {
    U32IsMod(f + 1); U32IsMod(U32(f + 1) - c); U32IsMod(f - c); U32IsMod(U32(f - c) + 1);
  }

  /** Dropping an unlinked node keeps the invariant; its children, if any, become unreachable. */
  lemma DropKeeps(st: Fs, c: nat)
    requires Inv(st) && Live(st, c) && c != ROOT && Unlinked(st, c)
    ensures var u := DropNode(st, c);
            && Inv(u) && OnlyNode(st, u, c) && u.inodes == st.inodes && !Live(u, c)
            && (forall j: nat :: Live(u, j) <==> Live(st, j) && j != c)
            && (forall j: nat, n: Name :: Child(u, j, n) == if j == c then 0 else Child(st, j, n))
  {
    DropPools(st, c);
    DropKeepsBlocks(st, c);
    DropTree(st, DropNode(st, c), c);
  }

  lemma DropTree(st: Fs, u: Fs, c: nat)
    requires Inv(st) && c != ROOT && Unlinked(st, c)
    requires SameDevice(st, u) && u.inodes == st.inodes && u.blocks == st.blocks
    requires forall j: nat :: InUse(u.ipool, j) <==> InUse(st.ipool, j) && j != c
    requires c != BADBLK_INODE
    ensures TreeInv(u)
    ensures forall j: nat, n: Name :: Child(u, j, n) == if j == c then 0 else Child(st, j, n)
  {
    forall j: nat | LiveDir(u, j)
      ensures DirOk(u, j) && DirOf(u, j) == DirOf(st, j)
    {
      assert LiveDir(st, j) && DirOk(st, j);
    }
    forall j: nat, n: Name
      ensures Child(u, j, n) == if j == c then 0 else Child(st, j, n)
      ensures Child(u, j, n) != 0 ==> Live(u, Child(u, j, n))
    {
      assert j != c ==> (LiveDir(u, j) <==> LiveDir(st, j));
      assert Child(st, j, n) != c;
    }
    DropForest(Tree(st), Tree(u), c);
  }

  lemma DropForest(g: Edges, h: Edges, c: nat)
    requires Forest(g) && forall d, n :: h(d, n) == if d == c then 0 else g(d, n)
    ensures Forest(h)
  {
  }

  lemma DropKeepsBlocks(st: Fs, c: nat)
    requires Inv(st) && Live(st, c)
    ensures BlockInv(DropNode(st, c))
  {
    DropPools(st, c);
    assert Ref(st, c, 0) == st.inodes[c].direct[0];
    BlockInvStep(st, DropNode(st, c), c);
  }
}

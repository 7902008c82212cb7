// What every operation keeps: nothing is shared, everything referenced is allocated, and the
// directories form a forest.
module Invariant {
  import opened Align
  import opened Codec
  import opened Layout
  import opened Namespace
  import opened Pools
  import opened State
  import opened Tables

  /** Sizes and index ranges fit together. */
  predicate Shape(st: Fs) {
    && GoodBlockSize(st.b) && PowerOfTwo(st.b)
    && WellFormed(st.ipool, 8 * st.b) && WellFormed(st.dpool, 8 * st.b)
    && Capacity(st.ipool) + 1 == |st.inodes| && Capacity(st.dpool) + 1 == |st.blocks|
    && |st.inodes| == |st.blocks| <= TWO_32
    && st.freeInodes < TWO_32 && st.freeBlocks < TWO_32
    && InodesValid(st) && BlocksSized(st)
  }

  predicate InodesValid(st: Fs) {
    forall i :: 0 <= i < |st.inodes| ==> st.inodes[i].Valid()
  }

  predicate BlocksSized(st: Fs) {
    forall d :: 0 <= d < |st.blocks| ==> |st.blocks[d]| == st.b
  }

  /** Every block a live inode refers to is allocated. */
  ghost predicate RefsInUse(st: Fs) {
    forall i: nat, s: nat :: Live(st, i) && Ref(st, i, s) != 0 ==> InUse(st.dpool, Ref(st, i, s))
  }

  /** No two references of live inodes name the same block. */
  ghost predicate NoSharing(st: Fs) {
    forall i: nat, s: nat, j: nat, t: nat ::
      Live(st, i) && Live(st, j) && Ref(st, i, s) == Ref(st, j, t) && Ref(st, i, s) != 0 ==> i == j && s == t
  }

  /** A directory inode has exactly one block, holding a well-formed table. */
  predicate DirOk(st: Fs, i: nat)
    requires i < |st.inodes|
  {
    var x := st.inodes[i];
    x.direct[0] != 0 && x.indirect == 0 && (forall s :: 0 < s < DIRECT_BLKS ==> x.direct[s] == 0)
    && Good(DirOf(st, i))
  }

  ghost predicate DirsOk(st: Fs) {
    forall i: nat :: LiveDir(st, i) ==> DirOk(st, i)
  }

  /** Directory entries lead to allocated inodes. */
  ghost predicate ChildrenLive(st: Fs) {
    forall i: nat, n: Name :: Child(st, i, n) != 0 ==> Live(st, Child(st, i, n))
  }

  ghost predicate BlockInv(st: Fs) {
    Shape(st) && RefsInUse(st) && NoSharing(st)
  }

  ghost predicate TreeInv(st: Fs) {
    && LiveDir(st, ROOT) && InUse(st.ipool, BADBLK_INODE)
    && DirsOk(st) && ChildrenLive(st) && Forest(Tree(st))
  }

  /** The invariant of a mounted file system. (A match keeps it one unit in proof obligations.) */
  ghost predicate Inv(st: Fs) {
    match st
    case Fs(b, _, _, _, _, _, _) => b > 0 && BlockInv(st) && TreeInv(st)
  }

  lemma ShapeOf(st: Fs)
    requires Inv(st)
    ensures Shape(st)
  {
  }

  lemma SaveInodeShape(st: Fs, i: nat, x: Inode)
    requires Shape(st) && x.Valid()
    ensures Shape(SaveInode(st, i, x))
  {
  }

  lemma PutBlockShape(st: Fs, d: nat, o: nat, data: Bytes)
    requires Shape(st)
    ensures Shape(PutBlock(st, d, o, data))
  {
  }

  // ---------- nodes an update does not touch ----------

  function BlockAt(st: Fs, d: nat): Bytes {
    if d < |st.blocks| then st.blocks[d] else []
  }

  /** Inode `j` and every block it refers to are the same in both states. */
  ghost predicate Same(st: Fs, u: Fs, j: nat) {
    && j < |st.inodes| && j < |u.inodes| && u.inodes[j] == st.inodes[j]
    && forall s: nat :: Ref(st, j, s) != 0 ==> BlockAt(u, Ref(st, j, s)) == BlockAt(st, Ref(st, j, s))
  }

  /** The two states are of the same device. */
  predicate SameDevice(st: Fs, u: Fs) {
    u.b == st.b && |u.inodes| == |st.inodes| && |u.blocks| == |st.blocks|
  }

  lemma SameRefs(st: Fs, u: Fs, j: nat)
    requires SameDevice(st, u) && Same(st, u, j)
    ensures forall s: nat :: Ref(u, j, s) == Ref(st, j, s)
  {
    var x := st.inodes[j];
    assert Ref(st, j, TableSlot(st.b)) == x.indirect;
  }

  /** An untouched node keeps every byte of its contents. */
  lemma SameContents(st: Fs, u: Fs, j: nat, k: nat)
    requires SameDevice(st, u) && Same(st, u, j)
    ensures ByteAt(u, j, k) == ByteAt(st, j, k)
  {
    SameRefs(st, u, j);
  }

  lemma SameTable(st: Fs, u: Fs, j: nat)
    requires SameDevice(st, u) && Same(st, u, j) && st.inodes[j].direct[0] != 0
    ensures DirOf(u, j) == DirOf(st, j)
  {
    assert Ref(st, j, 0) == st.inodes[j].direct[0];
  }

  // ---------- one step for the block half ----------

  /**
   * If only inode `i` changes its references, they stay among its own old blocks or move to blocks
   * that were free, and everything still referenced stays allocated, then nothing becomes shared.
   */
  lemma BlockInvStep(st: Fs, u: Fs, i: nat)
    requires BlockInv(st) && Shape(u)
    requires forall j: nat :: Live(u, j) && j != i ==> Live(st, j)
    requires forall j: nat, s: nat :: Live(u, j) && j != i ==> Ref(u, j, s) == Ref(st, j, s)
    requires forall j: nat, s: nat :: Live(u, j) && j != i && Ref(st, j, s) != 0 ==> InUse(u.dpool, Ref(st, j, s))
    requires Live(u, i) ==> forall s: nat :: Ref(u, i, s) != 0 ==>
               InUse(u.dpool, Ref(u, i, s)) &&
               (!InUse(st.dpool, Ref(u, i, s)) || (Live(st, i) && Ref(u, i, s) == Ref(st, i, s)))
    requires Live(u, i) ==> forall s: nat, t: nat :: Ref(u, i, s) == Ref(u, i, t) && Ref(u, i, s) != 0 ==> s == t
    ensures BlockInv(u)
  {
  }

  // ---------- one step for the tree half ----------

  /** If every live directory is untouched, the namespace is exactly as before. */
  lemma TreeKept(st: Fs, u: Fs)
    requires Inv(st) && SameDevice(st, u)
    requires forall j: nat :: Live(u, j) <==> Live(st, j)
    requires InUse(u.ipool, BADBLK_INODE)
    requires forall j: nat :: LiveDir(st, j) ==> Same(st, u, j)
    requires forall j: nat :: Live(st, j) ==> IsDir(u.inodes[j]) == IsDir(st.inodes[j])
    ensures TreeInv(u)
    ensures forall j: nat, n: Name :: Child(u, j, n) == Child(st, j, n)
  {
    forall j: nat | LiveDir(u, j)
      ensures DirOk(u, j) && DirOf(u, j) == DirOf(st, j)
    {
      assert DirOk(st, j);
      SameTable(st, u, j);
    }
    forall j: nat, n: Name
      ensures Child(u, j, n) == Child(st, j, n)
    {
      assert LiveDir(u, j) <==> LiveDir(st, j);
    }
    ForestKept(Tree(st), Tree(u));
  }

  lemma ForestKept(g: Edges, h: Edges)
    requires Forest(g) && forall d, n :: h(d, n) == g(d, n)
    ensures Forest(h)
  {
  }

  lemma SameTransitive(st: Fs, m: Fs, u: Fs, j: nat)
    requires SameDevice(st, m) && Same(st, m, j) && Same(m, u, j)
    ensures Same(st, u, j)
  {
    SameRefs(st, m, j);
  }

  // ---------- the free counters ----------

  /** How far the superblock's counters are from the clear bits in the bitmaps, modulo 2^32. */
  function BlockDrift(st: Fs): nat { U32(st.freeBlocks - Clear(st.dpool)) }

  function InodeDrift(st: Fs): nat { U32(st.freeInodes - Clear(st.ipool)) }

  lemma InodeDriftSame(st: Fs, u: Fs)
    requires u.ipool == st.ipool && u.freeInodes == st.freeInodes
    ensures InodeDrift(u) == InodeDrift(st)
  {
  }

  lemma DriftSame(st: Fs, u: Fs)
    requires u.dpool == st.dpool && u.freeBlocks == st.freeBlocks
    ensures BlockDrift(u) == BlockDrift(st)
  {
  }

  /** One less on both sides, or one more, leaves the difference modulo 2^32 alone. */
  lemma DriftStep(f: nat, c: nat)
    requires f < TWO_32
    ensures c > 0 ==> U32(U32(f - 1) - (c - 1)) == U32(f - c)
    ensures U32(U32(f + 1) - (c + 1)) == U32(f - c)
  {
    if f == 0 {
      assert U32(f - 1) == TWO_32 - 1;
    }
    if f == TWO_32 - 1 {
      assert U32(f + 1) == U32(0) == 0;
      assert U32(0 - (c + 1)) == U32(TWO_32 - (c + 1));
    }
  }
}

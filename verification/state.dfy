// The mounted file system as a value: the inode slots and data blocks of the device, the two
// allocators, and the superblock's free counters.
module State {
  import opened Align
  import opened Arith
  import opened Codec
  import opened Layout
  import opened Namespace
  import opened Pools
  import opened Tables

  datatype Error = OK | ENOENT | ENOMEM | EEXIST | ENAMETOOLONG | CORRUPT | ABORT

  /**
   * `inodes[i]` and `blocks[d]` are the slots of index `i` and `d`; index 0 exists nowhere, its
   * entries are placeholders.
   */
  datatype Fs = Fs(b: nat, inodes: seq<Inode>, blocks: seq<Bytes>, ipool: Pool, dpool: Pool,
                   freeInodes: nat, freeBlocks: nat)

  const BADBLK_INODE: nat := 1

  // ---------- blocks and bytes ----------

  /** `off / blk_size` and `off - ALIGN_DOWN(off, blk_size)`, one block at a time. */
  function BlockOf(b: nat, k: nat): nat {
    if b == 0 || k < b then 0 else 1 + BlockOf(b, k - b)
  }

  function OffsetIn(b: nat, k: nat): (o: nat)
    ensures b > 0 ==> o < b
  {
    if b == 0 || k < b then k else OffsetIn(b, k - b)
  }

  /** Position `k` is block number `k / b`, offset `k - ALIGN_DOWN(k, b)`. */
  lemma {:induction false} CodeSplitsOffset(b: nat, k: nat)
    requires PowerOfTwo(b)
    ensures BlockOf(b, k) == k / b && OffsetIn(b, k) == k - AlignDown(k, b)
  {
    FloorForPowers(k, b);
    SplitByDivision(b, k);
  }

  lemma {:induction false} SplitByDivision(b: nat, k: nat)
    requires b > 0
    ensures BlockOf(b, k) == k / b && OffsetIn(b, k) == k % b
  {
    if k < b {
      DivModUnique(k, b, 0, k);
    } else {
      SplitByDivision(b, k - b);
      SplitShift(k, b);
    }
  }

  /** The positions of one block are the ones the loops handle in one round. */
  lemma {:induction false} SameBlock(b: nat, off: nat, k: nat)
    requires b > 0 && OffsetIn(b, off) <= off
    ensures off <= k < off + (b - OffsetIn(b, off)) ==>
              BlockOf(b, k) == BlockOf(b, off) && OffsetIn(b, k) == OffsetIn(b, off) + (k - off)
    ensures BlockOf(b, k) == BlockOf(b, off) ==>
              OffsetIn(b, k) as int - OffsetIn(b, off) == k - off
    decreases off
  {
    if off < b {
      if k >= b { BlockPositive(b, k); }
    } else if k >= b {
      OffsetBelow(b, off - b);
      SameBlock(b, off - b, k - b);
    } else {
      BlockPositive(b, off);
      OffsetBelow(b, off);
    }
  }

  /** Block `n` starts at position `n * b`. */
  lemma {:induction false} BlockStart(b: nat, n: nat)
    requires b > 0
    ensures BlockOf(b, n * b) == n && OffsetIn(b, n * b) == 0
  {
    if n != 0 {
      assert n * b - b == (n - 1) * b && n * b >= b;
      BlockStart(b, n - 1);
    }
  }

  lemma {:induction false} BlockAtLeast(b: nat, n: nat, k: nat)
    requires b > 0
    ensures BlockOf(b, k) >= n <==> k >= n * b
  {
    if n != 0 {
      assert n * b == (n - 1) * b + b && (n - 1) * b >= 0;
      if k >= b { BlockAtLeast(b, n - 1, k - b); }
    }
  }

  lemma BlockPositive(b: nat, k: nat)
    requires 0 < b <= k
    ensures BlockOf(b, k) > 0
  {
  }

  lemma {:induction false} OffsetBelow(b: nat, k: nat)
    requires b > 0
    ensures OffsetIn(b, k) <= k
  {
    if k >= b { OffsetBelow(b, k - b); }
  }

  lemma {:induction false} BlockMonotone(b: nat, j: nat, k: nat)
    requires b > 0 && j <= k
    ensures BlockOf(b, j) <= BlockOf(b, k)
  {
    if j >= b { BlockMonotone(b, j - b, k - b); }
  }

  /** What no operation on a file's contents changes: type and permissions, links, the unused slot. */
  predicate SameKind(x: Inode, y: Inode) {
    y.mode == x.mode && y.nlink == x.nlink && y.doubleIndirect == x.doubleIndirect
  }

  // ---------- the block map of an inode ----------

  /** Block numbers 0..TableSlot are a file's data; slot TableSlot is its indirect block. */
  function TableSlot(b: nat): nat { DIRECT_BLKS + b / 4 }

  /** The data index an inode keeps in a slot, or 0 for a hole. */
  function SlotOf(b: nat, blocks: seq<Bytes>, x: Inode, s: nat): nat {
    if s < DIRECT_BLKS then x.direct[s]
    else if s == TableSlot(b) then x.indirect
    else if s > TableSlot(b) || x.indirect == 0 || x.indirect >= |blocks| then 0
    else Entry(blocks[x.indirect], s - DIRECT_BLKS)
  }

  function Ref(st: Fs, i: nat, s: nat): nat {
    if i < |st.inodes| then SlotOf(st.b, st.blocks, st.inodes[i], s) else 0
  }

  datatype Cell = Hole | Stored(v: byte)

  /** The byte at position `k` of file `i`. */
  function ByteAt(st: Fs, i: nat, k: nat): Cell {
    var d := if BlockOf(st.b, k) < TableSlot(st.b) then Ref(st, i, BlockOf(st.b, k)) else 0;
    if d == 0 || d >= |st.blocks| || OffsetIn(st.b, k) >= |st.blocks[d]| then Hole
    else Stored(st.blocks[d][OffsetIn(st.b, k)])
  }

  // ---------- directories ----------

  /** S_ISDIR */
  predicate IsDir(x: Inode) {
    x.mode / 0x1000 % 16 == 4
  }

  /** The directory table stored in data block `d`. */
  function DirAt(st: Fs, d: nat): Table {
    if d < |st.blocks| && |st.blocks[d]| >= TABLE_BYTES then Decode(st.blocks[d][..TABLE_BYTES]) else Empty()
  }

  /** Inode `i` is allocated and not the reserved one. */
  predicate Live(st: Fs, i: nat) {
    ROOT <= i < |st.inodes| && InUse(st.ipool, i)
  }

  predicate LiveDir(st: Fs, i: nat) {
    Live(st, i) && IsDir(st.inodes[i])
  }

  function DirOf(st: Fs, i: nat): Table {
    if i < |st.inodes| then DirAt(st, st.inodes[i].direct[0]) else Empty()
  }

  /** The child of directory inode `i` under name `n`, or 0. */
  function Child(st: Fs, i: nat, n: Name): nat {
    if LiveDir(st, i) then Lookup(DirOf(st, i), n) else 0
  }

  function Tree(st: Fs): Edges {
    (i, n) => Child(st, i, n)
  }

  // ---------- primitive updates ----------

  /** fs_data_alloc */
  function DataAlloc(st: Fs): (r: (Fs, nat)) {
    var (q, d) := Alloc(st.dpool);
    if d == 0 then (st, 0) else (st.(dpool := q, freeBlocks := U32(st.freeBlocks - 1)), d)
  }

  /** fs_inode_alloc */
  function InodeAlloc(st: Fs): (r: (Fs, nat)) {
    var (q, i) := Alloc(st.ipool);
    if i == 0 then (st, 0) else (st.(ipool := q, freeInodes := U32(st.freeInodes - 1)), i)
  }

  /** fs_data_release: the counter moves even for index 0. */
  function DataRelease(st: Fs, d: nat): (r: Fs) {
    st.(dpool := Release(st.dpool, d), freeBlocks := U32(st.freeBlocks + 1))
  }

  /** fs_inode_release */
  function InodeRelease(st: Fs, i: nat): (r: Fs) {
    st.(ipool := Release(st.ipool, i), freeInodes := U32(st.freeInodes + 1))
  }

  /** fs_save_inode */
  function SaveInode(st: Fs, i: nat, x: Inode): (r: Fs) {
    if i < |st.inodes| then st.(inodes := st.inodes[i := x]) else st
  }

  /** Store bytes at an offset inside data block `d`. */
  function PutBlock(st: Fs, d: nat, o: nat, data: Bytes): (r: Fs) {
    if d < |st.blocks| then st.(blocks := st.blocks[d := Splice(st.blocks[d], o, data)]) else st
  }

  /** fs_save_dir */
  function SaveDir(st: Fs, d: nat, t: Table): (r: Fs) {
    PutBlock(st, d, 0, Encode(t))
  }
}

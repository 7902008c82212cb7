// The block map of a file: 12 direct slots and one indirect table
// (fs_find_blk and fs_alloc_blk in src/chisai-core/fs.c).
module FileMap {
  import opened Codec
  import opened Invariant
  import opened Layout
  import opened Pools
  import opened State

  /**
   * fs_find_blk: the data index behind byte offset `off`, OK unless it is 0 or out of reach. When
   * the indirect table is missing the code loads through data index 0, which is addressed behind
   * the device. `word` is what that load leaves in the caller's variable: where the seek fails, the
   * bytes behind the previous access; where it succeeds but nothing is read, the old content.
   */
  function FindBlk(st: Fs, i: nat, off: nat, word: nat): (r: (Error, nat)) {
    var n := BlockOf(st.b, off);
    if i >= |st.inodes| || n >= TableSlot(st.b) then (CORRUPT, 0)
    else
      var x := st.inodes[i];
      var d := if n < DIRECT_BLKS then x.direct[n]
               else if x.indirect == 0 then word
               else Entry(BlockAt(st, x.indirect), n - DIRECT_BLKS);
      (if d == 0 then ENOENT else OK, d)
  }

  /** The loop that clears the entries of a new indirect table one by one. */
  function ZeroFill(blk: Bytes, n: nat): (r: Bytes)
    ensures |r| == |blk|
  {
    if n == 0 then blk else SetEntry(ZeroFill(blk, n - 1), n - 1, 0)
  }

  function PutEntry(st: Fs, d: nat, k: nat, v: nat): (r: Fs) {
    PutBlock(st, d, 4 * k, ToLE(4, v))
  }

  /** Make a freshly allocated block the indirect table of file `i`. */
  function NewTable(st: Fs, i: nat, d: nat): (r: Fs) {
    if i >= |st.inodes| || d >= |st.blocks| then st
    else SaveInode(st, i, st.inodes[i].(indirect := d))
         .(blocks := st.blocks[d := ZeroFill(st.blocks[d], st.b / 4)])
  }

  /** fs_alloc_blk: allocate a data block and enter it for byte offset `off` of file `i`. */
  function AllocBlk(st: Fs, i: nat, off: nat): (r: (Fs, Error, nat)) {
    var n := BlockOf(st.b, off);
    var (st1, d) := DataAlloc(st);
    if d == 0 || i >= |st.inodes| then (st1, ENOMEM, 0)
    else
      var x := st.inodes[i];
      if n < DIRECT_BLKS then (SaveInode(st1, i, x.(direct := x.direct[n := d])), OK, d)
      else if n >= TableSlot(st.b) then (st1, CORRUPT, d)
      else if x.indirect == 0 then
        var (st2, e) := DataAlloc(NewTable(st1, i, d));
        (PutEntry(st2, d, n - DIRECT_BLKS, e), OK, e)
      else (PutEntry(st1, x.indirect, n - DIRECT_BLKS, d), OK, d)
  }

  // ---------- looking up ----------

  /**
   * The search agrees with the block map exactly when it does not have to read an indirect table
   * that does not exist, or the word it gets instead is 0: otherwise it returns that word.
   */
  lemma FindAgreesIff(st: Fs, i: nat, off: nat, word: nat)
    requires Shape(st) && i < |st.inodes| && BlockOf(st.b, off) < TableSlot(st.b)
    requires st.inodes[i].indirect < |st.blocks|
    ensures FindBlk(st, i, off, word).1 == Ref(st, i, BlockOf(st.b, off)) <==>
            BlockOf(st.b, off) < DIRECT_BLKS || st.inodes[i].indirect != 0 || word == 0
  {
  }

  lemma NoTableNoRef(st: Fs, i: nat, n: nat)
    requires i < |st.inodes| && st.inodes[i].indirect == 0 && DIRECT_BLKS <= n < TableSlot(st.b)
    ensures Ref(st, i, n) == 0
  {
  }

  // ---------- allocation ----------

  /** Data allocation takes a free block, or fails because there is none. */
  lemma DataAllocMeaning(st: Fs)
    requires Shape(st) && HintsLive(st.dpool)
    ensures var (u, d) := DataAlloc(st);
            && Shape(u) && HintsLive(u.dpool) && SameDevice(st, u)
            && u.inodes == st.inodes && u.blocks == st.blocks && u.ipool == st.ipool && u.freeInodes == st.freeInodes
            && d < |st.blocks| && (d == 0 <==> Clear(st.dpool) == 0)
            && (d == 0 ==> u == st)
            && (d != 0 ==> !InUse(st.dpool, d) && Clear(u.dpool) == Clear(st.dpool) - 1
                           && u.freeBlocks == U32(st.freeBlocks - 1))
            && BlockDrift(u) == BlockDrift(st)
            && forall e: nat :: InUse(u.dpool, e) <==> InUse(st.dpool, e) || (d != 0 && e == d)
  {
    LiveMeansReady(st.dpool);
    AllocAddsOne(st.dpool, 8 * st.b);
    AllocCounts(st.dpool, 8 * st.b);
    DriftStep(st.freeBlocks, Clear(st.dpool));
  }

  lemma {:induction false} ZeroFillClears(blk: Bytes, n: nat, k: nat)
    requires k < n && 4 * n <= |blk|
    ensures Entry(ZeroFill(blk, n), k) == 0
  {
    BoundsAre();
    EntryAfterSet(ZeroFill(blk, n - 1), n - 1, 0, k);
    if k < n - 1 { ZeroFillClears(blk, n - 1, k); }
  }

  /** File `i` has gained block `d` at block number `n`, and nothing else about it changed. */
  ghost predicate Extended(st: Fs, u: Fs, i: nat, n: nat, d: nat) {
    && SameDevice(st, u) && u.ipool == st.ipool && u.freeInodes == st.freeInodes
    && i < |st.inodes|
    && SameKind(st.inodes[i], u.inodes[i]) && u.inodes[i].size == st.inodes[i].size
    && d != 0 && d < |st.blocks| && !InUse(st.dpool, d)
    && Ref(u, i, n) == d
    && (st.inodes[i].indirect != 0 ==> u.inodes[i].indirect == st.inodes[i].indirect)
    && (n < DIRECT_BLKS && st.inodes[i].indirect == 0 ==> u.inodes[i].indirect == 0)
    && (forall m: nat :: m < TableSlot(st.b) && m != n ==> Ref(u, i, m) == Ref(st, i, m))
    && (forall m: nat :: m < TableSlot(st.b) && Ref(st, i, m) != 0 ==>
          BlockAt(u, Ref(st, i, m)) == BlockAt(st, Ref(st, i, m)))
    && (forall j: nat :: Live(st, j) && j != i ==> Same(st, u, j))
  }

  /** What is left to check after a map update: the block half and the tree half of the invariant. */
  lemma ExtendedKeeps(st: Fs, u: Fs, i: nat, n: nat, d: nat)
    requires Inv(st) && Shape(u) && Live(st, i) && !IsDir(st.inodes[i])
    requires n < TableSlot(st.b) && Extended(st, u, i, n, d)
    requires forall e: nat :: InUse(st.dpool, e) ==> InUse(u.dpool, e)
    requires InUse(u.dpool, d)
    requires var t := Ref(u, i, TableSlot(st.b));
             t == Ref(st, i, TableSlot(st.b)) || (!InUse(st.dpool, t) && InUse(u.dpool, t) && t != d)
    ensures Inv(u)
  {
    forall j: nat | Live(st, j) && j != i
      ensures forall s: nat :: Ref(u, j, s) == Ref(st, j, s)
    {
      SameRefs(st, u, j);
    }
    forall s: nat | s > TableSlot(st.b)
      ensures Ref(u, i, s) == 0
    {
    }
    BlockInvStep(st, u, i);
    TreeKept(st, u);
  }

  /** Entering block `d`, free in `st` and allocated in `st1`, in a direct slot. */
  lemma DirectEffect(st: Fs, st1: Fs, i: nat, n: nat, d: nat)
    requires Inv(st) && Shape(st1) && Live(st, i) && n < DIRECT_BLKS && Ref(st, i, n) == 0
    requires SameDevice(st, st1) && st1.inodes == st.inodes && st1.blocks == st.blocks && st1.ipool == st.ipool
        && st1.freeInodes == st.freeInodes
    requires 0 < d < |st.blocks| && !InUse(st.dpool, d)
    ensures var x := st.inodes[i];
            var u := SaveInode(st1, i, x.(direct := x.direct[n := d]));
            Shape(u) && Extended(st, u, i, n, d) && Ref(u, i, TableSlot(st.b)) == Ref(st, i, TableSlot(st.b))
  {
    hide InUse, Entry, HintsLive, TreeInv, WellFormed, Capacity;
    var x := st.inodes[i];
    SaveInodeShape(st1, i, x.(direct := x.direct[n := d]));
  }

  /** Block numbers of the direct area. */
  lemma AllocDirect(st: Fs, i: nat, off: nat)
    requires Inv(st) && HintsLive(st.dpool) && Live(st, i) && !IsDir(st.inodes[i])
    requires BlockOf(st.b, off) < DIRECT_BLKS && Ref(st, i, BlockOf(st.b, off)) == 0
    requires Clear(st.dpool) > 0
    ensures var (u, e, d) := AllocBlk(st, i, off);
            e == OK && Extended(st, u, i, BlockOf(st.b, off), d) && Inv(u)
            && HintsLive(u.dpool) && Clear(u.dpool) == Clear(st.dpool) - 1
            && BlockDrift(u) == BlockDrift(st)
  {
    var n := BlockOf(st.b, off);
    DataAllocMeaning(st);
    var (st1, d) := DataAlloc(st);
    DirectEffect(st, st1, i, n, d);
    var u := AllocBlk(st, i, off).0;
    DriftSame(st1, u);
    ExtendedKeeps(st, u, i, n, d);
  }

  /** Entering a block in an existing indirect table. */
  lemma EntryEffect(st: Fs, st1: Fs, i: nat, n: nat, d: nat)
    requires Inv(st) && Shape(st1) && Live(st, i) && DIRECT_BLKS <= n < TableSlot(st.b) && Ref(st, i, n) == 0
    requires SameDevice(st, st1) && st1.inodes == st.inodes && st1.blocks == st.blocks && st1.ipool == st.ipool
        && st1.freeInodes == st.freeInodes
    requires 0 < d < |st.blocks| && !InUse(st.dpool, d)
    requires st.inodes[i].indirect != 0
    ensures var u := PutEntry(st1, st.inodes[i].indirect, n - DIRECT_BLKS, d);
            Shape(u) && Extended(st, u, i, n, d) && Ref(u, i, TableSlot(st.b)) == Ref(st, i, TableSlot(st.b))
  {
    hide Entry, InUse, ToLE, HintsLive, DirsOk, ChildrenLive;
    var t, k := st.inodes[i].indirect, n - DIRECT_BLKS;
    var u := PutEntry(st1, t, k, d);
    PutBlockShape(st1, t, 4 * k, ToLE(4, d));
    assert Ref(st, i, TableSlot(st.b)) == t;
    InUseInRange(st.dpool, t);
    BoundsAre();
    forall m: nat | m < TableSlot(st.b)
      ensures Ref(u, i, m) == if m == n then d else Ref(st, i, m)
    {
      if m >= DIRECT_BLKS {
        EntryAfterSet(st.blocks[t], k, d, m - DIRECT_BLKS);
      }
    }
  }

  /** Allocating a block and entering it in the indirect table of file `i`. */
  function EnterBlock(st: Fs, i: nat, n: nat): (r: (Fs, nat))
    requires i < |st.inodes| && n >= DIRECT_BLKS
  {
    var (st1, d) := DataAlloc(st);
    (PutEntry(st1, st.inodes[i].indirect, n - DIRECT_BLKS, d), d)
  }

  lemma EnterBlockEffect(st: Fs, i: nat, n: nat)
    requires Inv(st) && HintsLive(st.dpool) && Live(st, i) && !IsDir(st.inodes[i])
    requires DIRECT_BLKS <= n < TableSlot(st.b) && Ref(st, i, n) == 0 && st.inodes[i].indirect != 0
    requires Clear(st.dpool) > 0
    ensures var (u, d) := EnterBlock(st, i, n);
            Extended(st, u, i, n, d) && Inv(u) && HintsLive(u.dpool)
            && Clear(u.dpool) == Clear(st.dpool) - 1 && BlockDrift(u) == BlockDrift(st)
  {
    DataAllocMeaning(st);
    var (st1, d) := DataAlloc(st);
    EntryEffect(st, st1, i, n, d);
    DriftSame(st1, EnterBlock(st, i, n).0);
    ExtendedKeeps(st, EnterBlock(st, i, n).0, i, n, d);
  }

  /** File `i` has gained an empty indirect table in block `t`, and nothing else changed. */
  ghost predicate Tabled(st: Fs, u: Fs, i: nat, t: nat) {
    && SameDevice(st, u) && u.ipool == st.ipool && u.freeInodes == st.freeInodes
    && i < |st.inodes| && u.inodes[i] == st.inodes[i].(indirect := t)
    && t != 0 && t < |st.blocks| && !InUse(st.dpool, t)
    && (forall m: nat :: m < TableSlot(st.b) ==> Ref(u, i, m) == Ref(st, i, m))
    && (forall m: nat :: m < TableSlot(st.b) && Ref(st, i, m) != 0 ==>
          BlockAt(u, Ref(st, i, m)) == BlockAt(st, Ref(st, i, m)))
    && (forall j: nat :: Live(st, j) && j != i ==> Same(st, u, j))
  }

  lemma NewTableShape(st: Fs, i: nat, t: nat)
    requires Shape(st) && i < |st.inodes| && t < |st.blocks|
    ensures Shape(NewTable(st, i, t))
  {
    SaveInodeShape(st, i, st.inodes[i].(indirect := t));
  }

  /** All entries of a fresh table read as holes after the zero-fill loop. */
  lemma TableEffect(st: Fs, st1: Fs, i: nat, t: nat)
    requires Inv(st) && Shape(st1) && Live(st, i) && st.inodes[i].indirect == 0
    requires SameDevice(st, st1) && st1.inodes == st.inodes && st1.blocks == st.blocks && st1.ipool == st.ipool
        && st1.freeInodes == st.freeInodes
    requires 0 < t < |st.blocks| && !InUse(st.dpool, t)
    ensures Shape(NewTable(st1, i, t)) && Tabled(st, NewTable(st1, i, t), i, t)
  {
    var u := NewTable(st1, i, t);
    NewTableShape(st1, i, t);
    FreshTable(st, u, i, t);
  }

  lemma FreshTable(st: Fs, u: Fs, i: nat, t: nat)
    requires Inv(st) && Live(st, i) && st.inodes[i].indirect == 0 && 0 < t < |st.blocks| && !InUse(st.dpool, t)
    requires u.b == st.b && u.inodes == st.inodes[i := st.inodes[i].(indirect := t)]
    requires u.blocks == st.blocks[t := ZeroFill(st.blocks[t], st.b / 4)] && u.ipool == st.ipool
        && u.freeInodes == st.freeInodes
    ensures Tabled(st, u, i, t)
  {
    hide InUse, ZeroFill;
    forall m: nat | DIRECT_BLKS <= m < TableSlot(st.b)
      ensures Ref(u, i, m) == 0
    {
      ZeroFillClears(st.blocks[t], st.b / 4, m - DIRECT_BLKS);
    }
  }

  lemma TabledKeeps(st: Fs, u: Fs, i: nat, t: nat)
    requires Inv(st) && Shape(u) && Live(st, i) && !IsDir(st.inodes[i]) && Tabled(st, u, i, t)
    requires forall e: nat :: InUse(st.dpool, e) ==> InUse(u.dpool, e)
    requires InUse(u.dpool, t)
    ensures Inv(u)
  {
    forall j: nat | Live(st, j) && j != i
      ensures forall s: nat :: Ref(u, j, s) == Ref(st, j, s)
    {
      SameRefs(st, u, j);
    }
    assert Ref(u, i, TableSlot(st.b)) == t;
    forall s: nat | s > TableSlot(st.b)
      ensures Ref(u, i, s) == 0
    {
    }
    BlockInvStep(st, u, i);
    TreeKept(st, u);
  }

  lemma TabledThenExtended(st: Fs, m: Fs, u: Fs, i: nat, t: nat, n: nat, d: nat)
    requires Inv(st) && Live(st, i) && DIRECT_BLKS <= n < TableSlot(st.b)
    requires Tabled(st, m, i, t) && Extended(m, u, i, n, d)
    requires !InUse(st.dpool, d) && st.inodes[i].indirect == 0
    ensures Extended(st, u, i, n, d)
  {
    forall j: nat | Live(st, j) && j != i
      ensures Same(st, u, j)
    {
      assert Live(m, j);
      SameRefs(st, m, j);
    }
    forall s: nat | s < TableSlot(st.b) && Ref(st, i, s) != 0
      ensures BlockAt(u, Ref(st, i, s)) == BlockAt(st, Ref(st, i, s))
    {
      assert Ref(m, i, s) == Ref(st, i, s);
    }
  }

  lemma MakeTable(st: Fs, i: nat)
    requires Inv(st) && HintsLive(st.dpool) && Live(st, i) && !IsDir(st.inodes[i])
    requires st.inodes[i].indirect == 0 && Clear(st.dpool) > 0
    ensures var (st1, t) := DataAlloc(st);
            var m := NewTable(st1, i, t);
            Tabled(st, m, i, t) && Inv(m) && HintsLive(m.dpool)
            && Clear(m.dpool) == Clear(st.dpool) - 1 && BlockDrift(m) == BlockDrift(st)
            && forall e: nat :: InUse(st.dpool, e) ==> InUse(m.dpool, e)
  {
    DataAllocMeaning(st);
    var (st1, t) := DataAlloc(st);
    TableEffect(st, st1, i, t);
    DriftSame(st1, NewTable(st1, i, t));
    TabledKeeps(st, NewTable(st1, i, t), i, t);
  }

  /**
   * The first block of the indirect area: one allocation becomes the table, a second one is
   * entered in it. Two free blocks are needed, because the second result is not checked.
   */
  lemma AllocNewTable(st: Fs, i: nat, n: nat)
    requires Inv(st) && HintsLive(st.dpool) && Live(st, i) && !IsDir(st.inodes[i])
    requires DIRECT_BLKS <= n < TableSlot(st.b)
    requires st.inodes[i].indirect == 0
    requires Clear(st.dpool) > 1
    ensures var (st1, t) := DataAlloc(st);
            var (u, d) := EnterBlock(NewTable(st1, i, t), i, n);
            Extended(st, u, i, n, d) && Inv(u) && HintsLive(u.dpool)
            && Clear(u.dpool) == Clear(st.dpool) - 2 && BlockDrift(u) == BlockDrift(st)
  {
    MakeTable(st, i);
    var (st1, t) := DataAlloc(st);
    var m := NewTable(st1, i, t);
    assert Ref(m, i, n) == Ref(st, i, n) == 0 && m.inodes[i].indirect == t;
    EnterBlockEffect(m, i, n);
    var (u, d) := EnterBlock(m, i, n);
    TabledThenExtended(st, m, u, i, t, n, d);
  }

  // ---------- the three cases together ----------

  /** Blocks the map update takes: one for the data, one more if the indirect table is missing. */
  function BlocksTaken(st: Fs, i: nat, n: nat): nat {
    if n >= DIRECT_BLKS && i < |st.inodes| && st.inodes[i].indirect == 0 then 2 else 1
  }

  /**
   * The case the code does not handle: the table is missing and exactly one block is free. It
   * takes that block for the table and then uses the failed second allocation as a data index.
   */
  predicate LastBlockTrap(st: Fs, i: nat, n: nat) {
    BlocksTaken(st, i, n) == 2 && Clear(st.dpool) == 1
  }

  /**
   * What the trap leaves: the last free block has become an empty table, the entry for the block
   * number is still 0, and so is the data index handed back.
   */
  ghost predicate Trapped(st: Fs, u: Fs, i: nat) {
    match u
    case Fs(b, _, _, _, _, _, _) =>
      && b == st.b && Inv(u) && i < |u.inodes| && Tabled(st, u, i, u.inodes[i].indirect)
      && HintsLive(u.dpool) && Clear(u.dpool) == 0 && InUse(u.dpool, u.inodes[i].indirect)
      && BlockDrift(u) == BlockDrift(st)
  }

  /** The outcome of an allocation that works. */
  ghost predicate Added(st: Fs, u: Fs, i: nat, n: nat, d: nat) {
    match u
    case Fs(b, _, _, _, _, _, _) =>
      && b == st.b && Extended(st, u, i, n, d) && Inv(u) && HintsLive(u.dpool)
      && Clear(u.dpool) == Clear(st.dpool) - BlocksTaken(st, i, n) && BlockDrift(u) == BlockDrift(st)
  }

  lemma SameEntry(blk: Bytes, k: nat)
    requires 4 * k + 4 <= |blk|
    ensures SetEntry(blk, k, Entry(blk, k)) == blk
  {
    ToFromLE(blk[4 * k..4 * k + 4]);
  }

  lemma TrapEffect(st: Fs, i: nat, n: nat)
    requires Inv(st) && HintsLive(st.dpool) && Live(st, i) && !IsDir(st.inodes[i])
    requires DIRECT_BLKS <= n < TableSlot(st.b) && st.inodes[i].indirect == 0 && Clear(st.dpool) == 1
    ensures var (st1, t) := DataAlloc(st);
            var m := NewTable(st1, i, t);
            Trapped(st, m, i) && EnterBlock(m, i, n) == (m, 0)
  {
    MakeTable(st, i);
    DataAllocMeaning(st);
    var (st1, t) := DataAlloc(st);
    var m := NewTable(st1, i, t);
    hide Inv, HintsLive, BlockDrift, Clear, InUse;
    EnterNothing(m, i, n, t);
  }

  lemma EnterNothing(m: Fs, i: nat, n: nat, t: nat)
    requires Inv(m) && HintsLive(m.dpool) && Clear(m.dpool) == 0 && i < |m.inodes|
    requires DIRECT_BLKS <= n < TableSlot(m.b) && m.inodes[i].indirect == t && 0 < t < |m.blocks| && Ref(m, i, n) == 0
    ensures EnterBlock(m, i, n) == (m, 0)
  {
    DataAllocMeaning(m);
    assert |m.blocks[t]| == m.b;
    SameEntry(m.blocks[t], n - DIRECT_BLKS);
    assert m.blocks[t := m.blocks[t]] == m.blocks;
  }

  /** In the indirect part the allocation is one of the two cases above. */
  lemma AllocUnfold(st: Fs, i: nat, off: nat)
    requires i < |st.inodes| && DIRECT_BLKS <= BlockOf(st.b, off) < TableSlot(st.b)
    requires 0 < DataAlloc(st).1 < |st.blocks|
    ensures var (u, e, d) := AllocBlk(st, i, off);
            e == OK && (u, d) == if st.inodes[i].indirect == 0
                                 then EnterBlock(NewTable(DataAlloc(st).0, i, DataAlloc(st).1), i, BlockOf(st.b, off))
                                 else EnterBlock(st, i, BlockOf(st.b, off))
    ensures st.inodes[i].indirect == 0 ==> i < |NewTable(DataAlloc(st).0, i, DataAlloc(st).1).inodes|
  {
    hide Alloc, PutBlock, ZeroFill, BlockOf;
  }

  /**
   * fs_alloc_blk at a hole refines adding one binding to the block map: the new block was free,
   * every other block number keeps its answer, and no other file or directory changes. It fails
   * exactly when no block is free, and then leaves everything as it was. It reports success with
   * data index 0 exactly when the indirect table took the last free block.
   */
  lemma AllocBlkAddsBinding(st: Fs, i: nat, off: nat) returns (r: (Fs, Error, nat))
    requires Inv(st) && HintsLive(st.dpool) && Live(st, i) && !IsDir(st.inodes[i])
    requires BlockOf(st.b, off) < TableSlot(st.b) && Ref(st, i, BlockOf(st.b, off)) == 0
    ensures r == AllocBlk(st, i, off) && (r.1 == OK || r.1 == ENOMEM)
    ensures (r.1 == ENOMEM <==> Clear(st.dpool) == 0) && (r.1 == ENOMEM ==> r.0 == st)
    ensures r.1 == OK && r.2 == 0 <==> LastBlockTrap(st, i, BlockOf(st.b, off))
    ensures r.1 == OK && r.2 == 0 ==> Trapped(st, r.0, i)
    ensures r.1 == OK && r.2 != 0 ==> Added(st, r.0, i, BlockOf(st.b, off), r.2)
  {
    hide Inv, HintsLive, Extended, AllocBlk, Trapped, Live, IsDir, Ref, BlockDrift;
    r := AllocBlk(st, i, off);
    var n := BlockOf(st.b, off);
    LiveIsInode(st, i);
    if Clear(st.dpool) == 0 {
      NothingFree(st, i, off);
    } else if n < DIRECT_BLKS {
      AllocDirect(st, i, off);
      NewIsNotZero(st, r.0, i, n, r.2);
    } else {
      SomethingToTake(st);
      AllocUnfold(st, i, off);
      if st.inodes[i].indirect != 0 {
        EnterBlockEffect(st, i, n);
        NewIsNotZero(st, r.0, i, n, r.2);
      } else if Clear(st.dpool) == 1 {
        TrapEffect(st, i, n);
      } else {
        AllocNewTable(st, i, n);
        NewIsNotZero(st, r.0, i, n, r.2);
      }
    }
  }

  /** Behind the last block number an allocation would fail, but keep the block it has taken. */
  lemma AllocPastLimitLeaks(st: Fs, i: nat, off: nat)
    requires Shape(st) && HintsLive(st.dpool) && i < |st.inodes| && BlockOf(st.b, off) >= TableSlot(st.b)
    requires Clear(st.dpool) > 0
    ensures var (u, e, d) := AllocBlk(st, i, off);
            && e == CORRUPT && d != 0 && u.inodes == st.inodes && u.blocks == st.blocks && !InUse(st.dpool, d)
            && forall k: nat :: InUse(u.dpool, k) <==> InUse(st.dpool, k) || k == d
  {
    DataAllocMeaning(st);
  }

  lemma LiveIsInode(st: Fs, i: nat)
    requires Live(st, i)
    ensures i < |st.inodes|
  {
  }

  lemma NothingFree(st: Fs, i: nat, off: nat)
    requires Inv(st) && HintsLive(st.dpool) && Clear(st.dpool) == 0
    ensures AllocBlk(st, i, off) == (st, ENOMEM, 0)
  {
    DataAllocMeaning(st);
  }

  lemma SomethingToTake(st: Fs)
    requires Inv(st) && HintsLive(st.dpool) && Clear(st.dpool) > 0
    ensures 0 < DataAlloc(st).1 < |st.blocks|
  {
    DataAllocMeaning(st);
  }

  lemma NewIsNotZero(st: Fs, u: Fs, i: nat, n: nat, d: nat)
    requires Extended(st, u, i, n, d)
    ensures d != 0 && u.b == st.b
  {
  }

  /**
   * What the search answers after the update: the new block there, the old answer elsewhere. Once
   * the indirect table is there, it no longer matters what a load behind the device answers. Where
   * the table took the last block, the block number is still a hole.
   */
  lemma FindAfterAlloc(st: Fs, i: nat, off: nat, at: nat, word: nat)
    requires Inv(st) && HintsLive(st.dpool) && Live(st, i) && !IsDir(st.inodes[i])
    requires BlockOf(st.b, off) < TableSlot(st.b) && Ref(st, i, BlockOf(st.b, off)) == 0
    requires AllocBlk(st, i, off).1 == OK && BlockOf(st.b, at) < TableSlot(st.b)
    ensures var (u, e, d) := AllocBlk(st, i, off);
            FindBlk(u, i, at, word) ==
              if BlockOf(st.b, at) == BlockOf(st.b, off) then (if d == 0 then ENOENT else OK, d)
              else FindBlk(st, i, at, if BlockOf(st.b, off) >= DIRECT_BLKS then 0 else word)
  {
    hide AllocBlk, Trapped, Inv, FindBlk, Ref;
    var r := AllocBlkAddsBinding(st, i, off);
    if r.2 == 0 {
      SearchAfterTrap(st, r.0, i, at, word);
    } else {
      SearchLater(st, r.0, i, BlockOf(st.b, off), at, r.2, word);
    }
  }

  lemma SearchAfterTrap(st: Fs, u: Fs, i: nat, at: nat, word: nat)
    requires Inv(st) && Live(st, i) && Trapped(st, u, i) && BlockOf(st.b, at) < TableSlot(st.b)
    ensures FindBlk(u, i, at, word) == FindBlk(st, i, at, 0)
    ensures Ref(st, i, BlockOf(st.b, at)) == 0 ==> FindBlk(u, i, at, word) == (ENOENT, 0)
  {
    FoundMeansRef(st, i, at, 0);
    FoundMeansRef(u, i, at, word);
  }

  lemma FoundMeansRef(st: Fs, i: nat, off: nat, word: nat)
    requires Inv(st) && Live(st, i) && BlockOf(st.b, off) < TableSlot(st.b)
    requires BlockOf(st.b, off) < DIRECT_BLKS || st.inodes[i].indirect != 0 || word == 0
    ensures var d := Ref(st, i, BlockOf(st.b, off)); FindBlk(st, i, off, word) == (if d == 0 then ENOENT else OK, d)
  {
    assert Ref(st, i, TableSlot(st.b)) == st.inodes[i].indirect;
    if st.inodes[i].indirect != 0 { InUseInRange(st.dpool, st.inodes[i].indirect); }
    FindAgreesIff(st, i, off, word);
  }

  lemma SearchLater(st: Fs, u: Fs, i: nat, n: nat, at: nat, d: nat, word: nat)
    requires Inv(st) && Inv(u) && Live(st, i) && Extended(st, u, i, n, d)
    requires n < TableSlot(st.b) && BlockOf(st.b, at) < TableSlot(st.b)
    ensures FindBlk(u, i, at, word) ==
              if BlockOf(st.b, at) == n then (OK, d) else FindBlk(st, i, at, if n >= DIRECT_BLKS then 0 else word)
  {
    hide Inv;
    var old_word := if n >= DIRECT_BLKS then 0 else word;
    assert n >= DIRECT_BLKS ==> u.inodes[i].indirect != 0;
    if BlockOf(st.b, at) < DIRECT_BLKS || st.inodes[i].indirect != 0 || old_word == 0 {
      FoundMeansRef(st, i, at, old_word);
      FoundMeansRef(u, i, at, word);
    }
  }
}

// What the invariant says about the indices the code follows without checking them: they exist on
// the device, and what they lead to is well-formed.
module Following {
  import opened Codec
  import opened FileIO
  import opened FileMap
  import opened Invariant
  import opened Moves
  import opened Namespace
  import opened Nodes
  import opened Operations
  import opened Paths
  import opened Pools
  import opened Resolution
  import opened Runs
  import opened State
  import opened Tables
  import opened Truncate

  // ---------- walking paths ----------

  /** The first slot of an allocated inode is empty or names an allocated block. */
  lemma FirstSlotInRange(st: Fs, i: nat)
    requires Inv(st) && Live(st, i)
    ensures st.inodes[i].direct[0] != 0 ==>
              InUse(st.dpool, st.inodes[i].direct[0]) && st.inodes[i].direct[0] < |st.blocks|
  {
    assert Ref(st, i, 0) == st.inodes[i].direct[0];
    if st.inodes[i].direct[0] != 0 { InUseInRange(st.dpool, st.inodes[i].direct[0]); }
  }

  /** The direct slots of an allocated inode are empty or name blocks of the device. */
  lemma SlotsInRange(st: Fs, i: nat)
    requires Inv(st) && Live(st, i)
    ensures i < |st.inodes| && forall s :: 0 <= s < DIRECT_BLKS ==> st.inodes[i].direct[s] < |st.blocks|
  {
    forall s | 0 <= s < DIRECT_BLKS
      ensures st.inodes[i].direct[s] < |st.blocks|
    {
      assert Ref(st, i, s) == st.inodes[i].direct[s];
      if Ref(st, i, s) != 0 { InUseInRange(st.dpool, Ref(st, i, s)); }
    }
  }

  /** A table found on the way is well-formed, and its entries are inodes of the device. */
  lemma TableIsGood(st: Fs, d: nat, name: Name)
    requires Inv(st) && Live(st, d) && TableOrNothing(st, d) && InUse(st.dpool, st.inodes[d].direct[0])
    ensures LiveDir(st, d) && DirOf(st, d).size <= SLOTS
    ensures Lookup(DirOf(st, d), name) == Child(st, d, name) < |st.inodes|
    ensures 0 !in name ==> SearchStays(DirOf(st, d), name)
  {
    ZeroFree(st.dpool);
    assert DirOk(st, d);
    if 0 !in name { GoodSearchStays(DirOf(st, d), name); }
    if Child(st, d, name) != 0 { assert Live(st, Child(st, d, name)); }
  }

  /** The last name of a C string is one. */
  lemma LastIsString(path: Bytes)
    requires HasSlash(path) && 0 !in path
    ensures 0 !in Last(path)
  {
  }

  lemma RootSlot(st: Fs)
    requires Inv(st)
    ensures ROOT < |st.inodes|
  {
    assert LiveDir(st, ROOT);
  }

  /** The walk has reached node `d` after `k` components, and goes on from there. */
  lemma WalkedTo(st: Fs, p: Path, k: nat, d: nat)
    requires Inv(st) && ThroughDirs(st, p) && k < |p| && d == Resolve(st, p[..k]) && d != 0
    ensures Live(st, d) && TableOrNothing(st, d)
  {
    hide Inv, TableOrNothing, Live, Resolve, TreeAt;
    var q := p[..k];
    assert forall j :: 0 <= j < |q| ==> q[..j] == p[..j];
    InvMeansWalkInv(st);
    ResolveIsTree(st, q);
    ReachedIsLive(st, q);
  }

  lemma NextStep(st: Fs, p: Path, k: nat, d: nat)
    requires k < |p| && d == Resolve(st, p[..k]) && d != 0
    ensures Resolve(st, p[..k + 1]) == Enter(st, d, p[k])
  {
    hide Enter;
    assert p[..k + 1][..k] == p[..k];
  }

  /** A walk that has failed stays failed. */
  lemma {:induction false} FailedWalk(st: Fs, p: Path, k: nat)
    requires k <= |p| && Resolve(st, p[..k]) == 0
    ensures Resolve(st, p) == 0
  {
    if k < |p| {
      assert p[..|p| - 1][..k] == p[..k];
      FailedWalk(st, p[..|p| - 1], k);
    } else {
      assert p[..k] == p;
    }
  }

  lemma ParentReached(st: Fs, path: Bytes)
    requires Inv(st) && PathOk(st, path)
    ensures var d := Resolve(st, Tokens(Parent(path)));
            d != 0 ==> Live(st, d) && TableOrNothing(st, d)
  {
    InvMeansWalkInv(st);
    ResolveIsTree(st, Tokens(Parent(path)));
    if TreeAt(Tree(st), Tokens(Parent(path))) != 0 {
      ReachedIsLive(st, Tokens(Parent(path)));
    }
  }

  // ---------- namespace operations ----------

  /** Whatever is allocated next exists on the device and leaves the hints of the other pool alone. */
  lemma AllocsInRange(st: Fs)
    requires Inv(st) && HintsLive(st.ipool) && HintsLive(st.dpool)
    ensures DataAlloc(st).1 < |st.blocks| <= TWO_32 && InodeAlloc(st).1 < |st.inodes|
    ensures InodeAlloc(DataAlloc(st).0).1 < |st.inodes|
    ensures AllocReady(st.dpool) && AllocReady(st.ipool) && AllocReady(DataAlloc(st).0.ipool)
  {
    LiveMeansReady(st.dpool);
    LiveMeansReady(st.ipool);
    DataAllocMeaning(st);
    InodeAllocMeaning(st);
    InodeAllocMeaning(DataAlloc(st).0);
  }

  lemma InodeInRange(st: Fs)
    requires Inv(st) && HintsLive(st.ipool)
    ensures InodeAlloc(st).1 < |st.inodes| && AllocReady(st.ipool)
  {
    LiveMeansReady(st.ipool);
    InodeAllocMeaning(st);
  }

  /** The allocations for a block number are defined: the first, and that for a new table's entry. */
  predicate TakesReady(st: Fs, x: Inode, n: nat) {
    AllocReady(st.dpool)
    && (DIRECT_BLKS <= n < TableSlot(st.b) && x.indirect == 0 ==> AllocReady(DataAlloc(st).0.dpool))
  }

  lemma LiveTakes(st: Fs, x: Inode, n: nat)
    requires Shape(st) && HintsLive(st.dpool)
    ensures TakesReady(st, x, n)
  {
    LiveMeansReady(st.dpool);
    DataAllocMeaning(st);
    LiveMeansReady(DataAlloc(st).0.dpool);
  }

  lemma NextAlloc(st: Fs)
    requires Shape(st) && AllocReady(st.dpool)
    ensures DataAlloc(st).1 < |st.blocks|
  {
    AllocAddsOne(st.dpool, 8 * st.b);
    if Alloc(st.dpool).1 != 0 { InUseInRange(Alloc(st.dpool).0, Alloc(st.dpool).1); }
  }

  lemma DirOfKept(st: Fs, u: Fs, d: nat)
    requires u.inodes == st.inodes && u.blocks == st.blocks
    ensures DirOf(u, d) == DirOf(st, d)
  {
  }

  lemma NewDirValid(mode: nat, blk: nat)
    requires DirModeOk(mode) && blk < TWO_32
    ensures NewDir(mode, blk).Valid()
  {
    DirModeIsDir(mode);
    NewInodeShape(DirMode(mode), 2, 0x1000, 9, blk);
  }

  lemma NewFileValid(mode: nat)
    requires FileModeOk(mode)
    ensures NewFile(mode).Valid()
  {
    NewInodeShape(mode, 1, 0, 0, 0);
  }

  lemma RemoveFindsLookup(t: Table, name: Name)
    requires t.size <= SLOTS
    ensures Remove(t, name).1 == Lookup(t, name)
  {
  }

  /** Taking the source entry out leaves a file system in which the target can be searched for. */
  lemma CutKeepsTarget(st: Fs, src: Bytes, dst: Bytes, d: nat)
    requires Inv(st) && PathOk(st, src) && PathOk(st, dst)
    requires Resolution.PathToParent(st, src) == (OK, d) && Lookup(DirOf(st, d), Last(src)) != 0
    ensures Inv(CutIn(st, d, Last(src))) && PathOk(CutIn(st, d, Last(src)), dst)
  {
    ParentMeaning(st, src);
    CutOutMeaning(st, DirPath(src), d, Last(src), Child(st, d, Last(src)));
    hide Inv, PathOk, TreeLoses;
    TargetStaysOk(st, CutIn(st, d, Last(src)), FullPath(src), dst);
  }

  /** The node an entry leads to is allocated, and so is the block in its first slot if it has one. */
  lemma RemovedIsLive(st: Fs, d: nat, name: Name)
    requires Inv(st) && LiveDir(st, d)
    ensures var c := Remove(DirOf(st, d), name).1;
            && c < |st.inodes|
            && (InUse(st.ipool, c) ==> c != 0 && st.inodes[c].direct[0] < |st.blocks|)
  {
    UnlinkEntry(st, d, name);
    var c := Child(st, d, name);
    ZeroFree(st.ipool);
    if c != 0 {
      ChildIsLive(st, d, name);
      FirstSlotInRange(st, c);
    }
  }

  lemma FreshIsExact(st: Fs)
    requires Fresh(st)
    ensures HintsExact(st.ipool) && HintsExact(st.dpool) && |st.blocks| == |st.inodes| > ROOT
  {
  }

  /** What root creation relies on: live hints, and indices that exist. */
  lemma RootSteps(st: Fs)
    requires Fresh(st)
    ensures AllocReady(st.dpool)
    ensures var (st1, d) := DataAlloc(st);
            var m := State.SaveDir(st1, d, Empty());
            var (m1, bad) := InodeAlloc(m);
            var (m2, i) := InodeAlloc(m1);
            && d == 1 && |st1.blocks| > 1 && i == 2 && |m2.inodes| > 2
            && AllocReady(m.ipool) && AllocReady(m1.ipool) && RootInode(d).Valid()
  {
    hide InUse, Alloc, Tables.Encode, Splice, HintsLive, AllocReady, Shape;
    FreshIsExact(st);
    ExactMeansLive(st.ipool); ExactMeansLive(st.dpool);
    LiveMeansReady(st.dpool);
    FirstBlock(st);
    var (st1, d) := DataAlloc(st);
    var m := State.SaveDir(st1, d, Empty());
    FirstInodes(st, m);
    LiveMeansReady(m.ipool);
    LiveMeansReady(InodeAlloc(m).0.ipool);
    NewInodeShape(0x41FF, 2, 0, 0, 1);
  }

  lemma LiveSlot(st: Fs, i: nat)
    requires Live(st, i)
    ensures 0 < i < |st.inodes|
  {
  }

  // ---------- runs ----------

  lemma StepStays(st: Fs, op: Op)
    requires Inv(st) && Allowed(st, op)
    ensures Inv(Step(st, op))
    ensures op.OpTruncate? && op.i < |st.inodes| ==>
              (TruncateFile(st, op.i, op.size).1 == OK || TruncateFile(st, op.i, op.size).1 == ABORT)
  {
    StepKeeps(st, op);
    if op.OpTruncate? { var r := TruncateFileMeaning(st, op.i, op.size); }
  }

  lemma PermittedWrite(st: Fs, i: nat, off: nat, size: nat, words: Words)
    requires Inv(st) && HintsLive(st.dpool) && Live(st, i) && !IsDir(st.inodes[i]) && Permitted(st, i, off, size, words)
    ensures Writable(st, i, off, size, words)
  {
  }

  lemma RunUnfold(st: Fs, ops: seq<Op>)
    ensures |ops| == 0 ==> Run(st, ops) == st
    ensures |ops| > 0 ==> Run(st, ops) == Run(Step(st, ops[0]), ops[1..])
    ensures |ops| > 0 && AllAllowed(st, ops) ==> Allowed(st, ops[0]) && AllAllowed(Step(st, ops[0]), ops[1..])
  {
    hide Step, Allowed;
  }
}

// Mounting a freshly formatted device, and runs of operations from there.
module Runs {
  import opened Bits
  import opened Codec
  import opened FileIO
  import opened FileMap
  import opened Invariant
  import opened Layout
  import opened Moves
  import opened Namespace
  import opened Nodes
  import opened Operations
  import opened Paths
  import opened Pools
  import opened Resolution
  import opened State
  import opened Tables
  import opened Truncate

  // ---------- mounting ----------

  /** A freshly formatted device: nothing allocated, hints scanned, counters at their maximum. */
  ghost predicate Fresh(st: Fs) {
    && Shape(st) && HintsExact(st.ipool) && HintsExact(st.dpool)
    && (forall j: nat :: !InUse(st.ipool, j)) && (forall j: nat :: !InUse(st.dpool, j))
    && Capacity(st.ipool) > ROOT
    && st.freeInodes == Capacity(st.ipool) && st.freeBlocks == Capacity(st.dpool)
  }

  /** The root inode: mode 040777, two links, one block. */
  function RootInode(block: nat): (x: Inode) {
    NewInode(0x41FF, 2, 0, 0, block)
  }

  /** fs_create_root; `ok` says that its three assertions hold. */
  function CreateRoot(st: Fs): (r: (Fs, bool)) {
    var (st1, d) := DataAlloc(st);
    var (st2, bad) := InodeAlloc(SaveDir(st1, d, Empty()));
    var (st3, i) := InodeAlloc(st2);
    (SaveInode(st3, i, RootInode(d)), d == 1 && bad == BADBLK_INODE && i == ROOT)
  }

  lemma {:induction false} EmptyPoolIsClear(p: Pool, per: nat)
    requires WellFormed(p, per) && forall j: nat :: !InUse(p, j)
    ensures Clear(p) == Capacity(p)
  {
    if p != [] {
      forall i | 0 <= i < |p[0].bits|
        ensures !p[0].bits[i]
      {
        assert !InUse(p, i + 1);
      }
      AllClear(p[0].bits, |p[0].bits|);
      forall j: nat
        ensures !InUse(p[1..], j)
      {
        assert !InUse(p, j + |p[0].bits|);
        if j == 0 { ZeroFree(p[1..]); }
      }
      EmptyPoolIsClear(p[1..], per);
    }
  }

  lemma {:induction false} AllClear(f: seq<bool>, n: nat)
    requires n <= |f| && forall i :: 0 <= i < n ==> !f[i]
    ensures CountClearTo(f, n) == n
  {
    if n != 0 { AllClear(f, n - 1); }
  }

  /** The first allocations from an empty pool are 1 and 2. */
  lemma FirstTwo(p: Pool, per: nat)
    requires WellFormed(p, per) && HintsExact(p) && (forall j: nat :: !InUse(p, j)) && Capacity(p) > 2
    ensures var (q, i) := Alloc(p);
            && i == 1 && HintsLive(p) && HintsLive(q) && HintsExact(q) && WellFormed(q, per)
            && Alloc(q).1 == 2
  {
    ExactMeansLive(p);
    LiveMeansReady(p);
    AllocAddsOne(p, per); AllocCounts(p, per);
    SequentialAlloc(p, per, 0);
    SequentialAlloc(p, per, 1);
    assert AllocTimes(p, per, 0) == p;
    assert AllocTimes(p, per, 1) == Alloc(p).0;
  }

  lemma FirstBlock(st: Fs)
    requires Fresh(st)
    ensures var (st1, d) := DataAlloc(st);
            var m := SaveDir(st1, d, Empty());
            && d == 1 && Shape(m) && SameDevice(st, m) && HintsLive(m.dpool)
            && (forall e: nat :: InUse(m.dpool, e) <==> e == 1)
            && BlockDrift(m) == 0 && DirAt(m, 1) == Empty() && Clear(m.dpool) == Capacity(st.dpool) - 1
            && m.inodes == st.inodes && m.ipool == st.ipool && m.freeInodes == st.freeInodes
  {
    FirstTwo(st.dpool, 8 * st.b);
    EmptyPoolIsClear(st.dpool, 8 * st.b);
    DataAllocMeaning(st);
    var (st1, d) := DataAlloc(st);
    var m := SaveDir(st1, d, Empty());
    EmptyIsGood();
    PutBlockShape(st1, d, 0, Tables.Encode(Empty()));
    StoredTable(st1, d, Empty());
    DriftSame(st1, m);
  }

  lemma FirstInodes(st: Fs, m: Fs)
    requires Fresh(st) && Shape(m) && SameDevice(st, m)
    requires m.inodes == st.inodes && m.ipool == st.ipool && m.freeInodes == st.freeInodes
    ensures var (m1, bad) := InodeAlloc(m);
            var (m2, i) := InodeAlloc(m1);
            && bad == 1 && i == 2 && Shape(m2) && SameDevice(m, m2)
            && HintsLive(m.ipool) && HintsLive(m1.ipool) && HintsLive(m2.ipool)
            && m2.inodes == m.inodes && m2.blocks == m.blocks && m2.dpool == m.dpool && m2.freeBlocks == m.freeBlocks
            && (forall j: nat :: InUse(m2.ipool, j) <==> j == 1 || j == 2)
            && InodeDrift(m2) == 0 && Clear(m2.ipool) == Capacity(st.ipool) - 2
  {
    FirstTwo(st.ipool, 8 * st.b);
    EmptyPoolIsClear(st.ipool, 8 * st.b);
    InodeAllocMeaning(m);
    var (m1, bad) := InodeAlloc(m);
    InodeAllocMeaning(m1);
  }

  /** From the allocated indices on: the root is the only node, an empty directory. */
  lemma RootStands(m: Fs, u: Fs)
    requires Shape(m) && |m.inodes| > ROOT && u == SaveInode(m, ROOT, RootInode(1)) && |m.blocks| > 1
    requires forall j: nat :: InUse(m.ipool, j) <==> j == 1 || j == 2
    requires forall d: nat :: InUse(m.dpool, d) <==> d == 1
    requires DirAt(m, 1) == Empty()
    ensures Inv(u) && DirOf(u, ROOT) == Empty() && forall d: nat, n: Name :: Child(u, d, n) == 0
  {
    NewInodeShape(0x41FF, 2, 0, 0, 1);
    EmptyIsGood();
    SaveInodeShape(m, ROOT, RootInode(1));
    assert DirOf(u, ROOT) == Empty();
    assert forall j: nat :: Live(u, j) <==> j == ROOT;
    forall s: nat
      ensures Ref(u, ROOT, s) == if s == 0 then 1 else 0
    {
    }
    assert BlockInv(u);
    forall d: nat, n: Name
      ensures Child(u, d, n) == 0
    {
      assert LiveDir(u, d) ==> d == ROOT;
    }
    assert Forest(Tree(u)) by { NoEdgesForest(Tree(u)); }
  }

  lemma NoEdgesForest(g: Edges)
    requires forall d, n :: g(d, n) == 0
    ensures Forest(g)
  {
  }

  /**
   * The only nodes are the reserved one and the root: a directory for everybody (040777) with two
   * links and no bytes, whose only block, number 1, is the only block in use.
   */
  ghost predicate OnlyTheRoot(u: Fs) {
    ROOT < |u.inodes|
    && var x := u.inodes[ROOT];
    && x.mode == 0x4000 + 0x1FF && x.nlink == 2 && x.size == 0 && x.blkcnt == 0 && x.doubleIndirect == 0
    && (forall s: nat :: Ref(u, ROOT, s) == if s == 0 then 1 else 0)
    && (forall j: nat :: InUse(u.ipool, j) <==> j == 1 || j == 2)
    && (forall d: nat :: InUse(u.dpool, d) <==> d == 1)
  }

  lemma RootIsOnly(m: Fs, u: Fs)
    requires |m.inodes| > ROOT && u == SaveInode(m, ROOT, RootInode(1))
    requires forall j: nat :: InUse(m.ipool, j) <==> j == 1 || j == 2
    requires forall d: nat :: InUse(m.dpool, d) <==> d == 1
    ensures OnlyTheRoot(u)
  {
  }

  /**
   * Mounting a freshly formatted device: the three assertions of root creation hold, and the
   * result satisfies the invariant, with the root as the only path and exact counters.
   */
  lemma MountMeaning(st: Fs)
    requires Fresh(st)
    ensures var (u, ok) := CreateRoot(st);
            && ok && Inv(u) && HintsLive(u.ipool) && HintsLive(u.dpool) && SameDevice(st, u)
            && BlockDrift(u) == 0 && InodeDrift(u) == 0
            && Clear(u.ipool) == Capacity(st.ipool) - 2 && Clear(u.dpool) == Capacity(st.dpool) - 1
            && OnlyTheRoot(u) && DirOf(u, ROOT) == Empty()
            && forall p: Path :: TreeAt(Tree(u), p) == if p == [] then ROOT else 0
  {
    FirstBlock(st);
    var (st1, d) := DataAlloc(st);
    var m := SaveDir(st1, d, Empty());
    FirstInodes(st, m);
    var m2 := InodeAlloc(InodeAlloc(m).0).0;
    var u := SaveInode(m2, ROOT, RootInode(1));
    RootStands(m2, u);
    RootIsOnly(m2, u);
    assert CreateRoot(st).0 == u;
    DriftSame(m, u); InodeDriftSame(m2, u);
    forall p: Path
      ensures TreeAt(Tree(u), p) == if p == [] then ROOT else 0
    {
      OnlyRoot(Tree(u), p);
    }
  }

  lemma OnlyRoot(g: Edges, p: Path)
    requires forall d, n :: g(d, n) == 0
    ensures TreeAt(g, p) == if p == [] then ROOT else 0
  {
  }

  // ---------- operations and runs ----------

  datatype Op =
    | OpMkdir(path: Bytes, mode: nat)
    | OpCreate(path: Bytes, mode: nat)
    | OpWrite(i: nat, buf: Bytes, off: nat, prev: nat, words: Words)
    | OpTruncate(i: nat, size: nat)
    | OpRename(src: Bytes, dst: Bytes)
    | OpRemove(path: Bytes)

  /** What each operation asks of the state it starts in. */
  ghost predicate Allowed(st: Fs, op: Op) {
    match op
    case OpMkdir(path, mode) => HintsLive(st.ipool) && HintsLive(st.dpool) && PathOk(st, path) && DirModeOk(mode)
    case OpCreate(path, mode) => HintsLive(st.ipool) && PathOk(st, path) && FileModeOk(mode)
    case OpWrite(i, buf, off, prev, words) =>
      && HintsLive(st.dpool) && Live(st, i) && !IsDir(st.inodes[i])
      && Permitted(st, i, off, |buf|, words)
    case OpTruncate(i, size) =>
      Live(st, i) && !IsDir(st.inodes[i]) && st.inodes[i].blkcnt <= DIRECT_BLKS
    case OpRename(src, dst) => PathOk(st, src) && PathOk(st, dst) && TargetFree(st, src, dst)
    case OpRemove(path) => PathOk(st, path)
  }

  /** The state after an operation; an operation that aborts stores nothing. */
  ghost function Step(st: Fs, op: Op): (u: Fs) {
    match op
    case OpMkdir(path, mode) => if HasSlash(path) then Mkdir(st, path, mode).0 else st
    case OpCreate(path, mode) => if HasSlash(path) then CreateFile(st, path, mode).0 else st
    case OpWrite(i, buf, off, prev, words) => if i < |st.inodes| then WriteFile(st, i, buf, off, prev, words).0 else st
    case OpTruncate(i, size) => if i < |st.inodes| then Settled(st, TruncateFile(st, i, size)) else st
    case OpRename(src, dst) => if HasSlash(src) && HasSlash(dst) then RenameFile(st, src, dst).0 else st
    case OpRemove(path) => if HasSlash(path) then RemoveFile(st, path).0 else st
  }

  function Settled(st: Fs, r: (Fs, Error)): (u: Fs) { if r.1 == OK then r.0 else st }

  /** The node at a path, and the node its last component is looked up in. */
  ghost function NodeAt(st: Fs, path: Bytes): nat {
    if HasSlash(path) then TreeAt(Tree(st), FullPath(path)) else 0
  }

  ghost function ParentAt(st: Fs, path: Bytes): nat {
    if HasSlash(path) then TreeAt(Tree(st), DirPath(path)) else 0
  }

  /** The inodes an operation may change: the file itself, or the directories whose tables it stores. */
  ghost function Touched(st: Fs, op: Op): set<nat> {
    match op
    case OpMkdir(path, _) => {ParentAt(st, path)}
    case OpCreate(path, _) => {ParentAt(st, path)}
    case OpWrite(i, _, _, _, _) => {i}
    case OpTruncate(i, _) => {i}
    case OpRename(src, dst) => {ParentAt(st, src), ParentAt(st, dst)}
    case OpRemove(path) => {ParentAt(st, path), NodeAt(st, path)}
  }

  /** Removing a node whose first slot is empty moves the block counter without freeing a block. */
  ghost predicate Overcounts(st: Fs, op: Op) {
    match op
    case OpRemove(path) => HasSlash(path) && RemoveFile(st, path).1 == OK && NoFirstBlock(st, NodeAt(st, path))
    case _ => false
  }

  predicate NoFirstBlock(st: Fs, c: nat) {
    c < |st.inodes| && st.inodes[c].direct[0] == 0
  }

  /** What one operation keeps: the invariant, every node it does not touch, and the counters. */
  ghost predicate StepOk(st: Fs, touched: set<nat>, over: bool, u: Fs) {
    match u
    case Fs(b, _, _, _, _, _, _) =>
      && b == st.b && Inv(u) && SameDevice(st, u)
      && (forall j: nat :: Live(st, j) && j !in touched ==> Live(u, j) && Same(st, u, j))
      && BlockDrift(u) == (if over then U32(BlockDrift(st) + 1) else BlockDrift(st))
      && InodeDrift(u) == InodeDrift(st)
  }

  lemma CreateStep(st: Fs, op: Op)
    requires Inv(st) && Allowed(st, op) && op.OpCreate?
    ensures StepOk(st, Touched(st, op), Overcounts(st, op), Step(st, op))
  {
    var r := CreateFileMeaning(st, op.path, op.mode);
    NothingSame(st);
  }

  lemma MkdirStep(st: Fs, op: Op)
    requires Inv(st) && Allowed(st, op) && op.OpMkdir?
    ensures StepOk(st, Touched(st, op), Overcounts(st, op), Step(st, op))
  {
    var r := MkdirMeaning(st, op.path, op.mode);
  }

  lemma WriteStep(st: Fs, op: Op)
    requires Inv(st) && Allowed(st, op) && op.OpWrite?
    ensures StepOk(st, Touched(st, op), Overcounts(st, op), Step(st, op))
  {
    var r := WriteFileMeaning(st, op.i, op.buf, op.off, op.prev, op.words);
    InodeDriftSame(st, r.0);
  }

  lemma TruncateStep(st: Fs, op: Op)
    requires Inv(st) && Allowed(st, op) && op.OpTruncate?
    ensures StepOk(st, Touched(st, op), Overcounts(st, op), Step(st, op))
  {
    var r := TruncateFileMeaning(st, op.i, op.size);
    NothingSame(st);
    if r.1 == OK { InodeDriftSame(st, r.0); }
  }

  lemma RenameStep(st: Fs, op: Op)
    requires Inv(st) && Allowed(st, op) && op.OpRename?
    ensures StepOk(st, Touched(st, op), Overcounts(st, op), Step(st, op))
  {
    hide StepOk, Inv, Walkable, TargetFree, CanEnter, Moved, Hidden, Lost, RenameFile, TreeAt;
    var r, o, d, q := RenameFileMeaning(st, op.src, op.dst);
    RenameOutcome(st, r.0, o, FullPath(op.src), FullPath(op.dst), d, q);
    assert Touched(st, op) == {d, q};
  }

  lemma RenameOutcome(st: Fs, u: Fs, o: Outcome, full: Path, target: Path, d: nat, q: nat)
    requires Inv(st) && SameDevice(st, u) && BlockDrift(u) == BlockDrift(st) && InodeDrift(u) == InodeDrift(st)
    requires !o.SubtreeHidden? && (o.Untouched? ==> u == st)
    requires o.SubtreeMoved? ==> Moved(st, u, full, target, d, q)
    requires o.SourceLost? ==> Lost(st, u, full, d)
    ensures StepOk(st, {d, q}, false, u)
  {
    NothingSame(st);
  }

  lemma RemoveStep(st: Fs, op: Op)
    requires Inv(st) && Allowed(st, op) && op.OpRemove?
    ensures StepOk(st, Touched(st, op), Overcounts(st, op), Step(st, op))
  {
    var r := RemoveFileMeaning(st, op.path);
    NothingSame(st);
  }

  /** Every operation, successful or not, keeps the invariant and every node it does not touch. */
  lemma StepKeeps(st: Fs, op: Op)
    requires Inv(st) && Allowed(st, op)
    ensures StepOk(st, Touched(st, op), Overcounts(st, op), Step(st, op))
  {
    hide Allowed, Step;
    match op
    case OpMkdir(_, _) => MkdirStep(st, op);
    case OpCreate(_, _) => CreateStep(st, op);
    case OpWrite(_, _, _, _, _) => WriteStep(st, op);
    case OpTruncate(_, _) => TruncateStep(st, op);
    case OpRename(_, _) => RenameStep(st, op);
    case OpRemove(_) => RemoveStep(st, op);
  }

  /** No operation changes the inode, the block map or a single byte of a node it does not touch. */
  lemma OthersUnchanged(st: Fs, op: Op, j: nat, k: nat)
    requires Inv(st) && Allowed(st, op) && Live(st, j) && j !in Touched(st, op)
    ensures var u := Step(st, op);
            && Live(u, j) && u.inodes[j] == st.inodes[j] && ByteAt(u, j, k) == ByteAt(st, j, k)
            && (forall s: nat :: Ref(u, j, s) == Ref(st, j, s))
            && (forall n: Name :: Child(u, j, n) == Child(st, j, n))
  {
    StepKeeps(st, op);
    var u := Step(st, op);
    KeptNode(st, u, Touched(st, op), Overcounts(st, op), j, k);
  }

  lemma KeptNode(st: Fs, u: Fs, touched: set<nat>, over: bool, j: nat, k: nat)
    requires Inv(st) && Live(st, j) && j !in touched && StepOk(st, touched, over, u)
    ensures Live(u, j) && u.inodes[j] == st.inodes[j] && ByteAt(u, j, k) == ByteAt(st, j, k)
    ensures forall s: nat :: Ref(u, j, s) == Ref(st, j, s)
    ensures forall n: Name :: Child(u, j, n) == Child(st, j, n)
  {
    SameRefs(st, u, j);
    SameContents(st, u, j, k);
    if IsDir(st.inodes[j]) {
      assert DirOk(st, j);
      SameTable(st, u, j);
    }
  }

  /** Every operation of the run is allowed in the state it starts in. */
  ghost predicate AllAllowed(st: Fs, ops: seq<Op>)
    decreases |ops|
  {
    ops == [] || (Allowed(st, ops[0]) && AllAllowed(Step(st, ops[0]), ops[1..]))
  }

  ghost function Run(st: Fs, ops: seq<Op>): (u: Fs)
    decreases |ops|
  {
    if ops == [] then st else Run(Step(st, ops[0]), ops[1..])
  }

  /** How many removals of the run moved the block counter without freeing a block. */
  ghost function Overcounted(st: Fs, ops: seq<Op>): (n: nat)
    decreases |ops|
  {
    if ops == [] then 0
    else (if Overcounts(st, ops[0]) then 1 else 0) + Overcounted(Step(st, ops[0]), ops[1..])
  }

  lemma WrapSum(x: nat, n: nat)
    ensures U32(U32(x) + n) == U32(x + n)
  {
    U32IsMod(x); U32IsMod(U32(x) + n); U32IsMod(x + n);
  }

  /** Over every run the invariant holds and the counters drift by the over-counted removals only. */
  lemma {:induction false} RunKeeps(st: Fs, ops: seq<Op>)
    requires Inv(st) && AllAllowed(st, ops)
    ensures Inv(Run(st, ops)) && SameDevice(st, Run(st, ops))
    ensures BlockDrift(Run(st, ops)) == U32(BlockDrift(st) + Overcounted(st, ops))
    ensures InodeDrift(Run(st, ops)) == InodeDrift(st)
    decreases |ops|
  {
    hide Inv, Allowed, Step, Overcounts, Touched, BlockDrift, InodeDrift;
    if ops == [] {
      DriftBound(st);
    } else {
      var m := Step(st, ops[0]);
      StepKeeps(st, ops[0]);
      RunKeeps(m, ops[1..]);
      var over := if Overcounts(st, ops[0]) then 1 else 0;
      WrapSum(BlockDrift(st) + over, Overcounted(m, ops[1..]));
      DriftBound(st);
    }
  }

  lemma DriftBound(st: Fs)
    ensures BlockDrift(st) < TWO_32 && U32(BlockDrift(st)) == BlockDrift(st)
  {
  }

  /** The counter itself, from its drift. */
  lemma CounterFromDrift(f: nat, c: nat, n: nat)
    requires f < TWO_32 && U32(f - c) == U32(n)
    ensures f == U32(c + n)
  {
    U32IsMod(f - c); U32IsMod(n); U32IsMod(c + n);
  }

  /**
   * Every run of operations on a freshly formatted device: paths form a tree without sharing,
   * every path leads to an allocated inode, no block is referred to twice, everything referred to
   * is allocated, names in a directory are distinct, and the superblock's counters are the numbers
   * of free indices, except that free_blocks has gained one for each removed node without a block.
   */
  lemma EveryRun(st: Fs, ops: seq<Op>) returns (u: Fs, over: nat)
    requires Fresh(st) && AllAllowed(CreateRoot(st).0, ops)
    ensures u == Run(CreateRoot(st).0, ops) && over == Overcounted(CreateRoot(st).0, ops)
    ensures forall p: Path, q: Path :: TreeAt(Tree(u), p) == TreeAt(Tree(u), q) && TreeAt(Tree(u), p) != 0 ==> p == q
    ensures forall p: Path :: TreeAt(Tree(u), p) != 0 ==> Live(u, TreeAt(Tree(u), p))
    ensures NoSharing(u) && RefsInUse(u) && DirsOk(u)
    ensures u.freeBlocks == U32(Clear(u.dpool) + over) && u.freeInodes == U32(Clear(u.ipool))
  {
    var m := CreateRoot(st).0;
    u, over := Run(m, ops), Overcounted(m, ops);
    hide Run, Overcounted, AllAllowed, CreateRoot, NoSharing, RefsInUse, DirsOk;
    MountMeaning(st);
    RunKeeps(m, ops);
    ZeroWraps();
    TreeOfRun(u);
    CountersOfRun(u, over);
  }

  lemma TreeOfRun(u: Fs)
    requires Inv(u)
    ensures forall p: Path, q: Path :: TreeAt(Tree(u), p) == TreeAt(Tree(u), q) && TreeAt(Tree(u), p) != 0 ==> p == q
    ensures forall p: Path :: TreeAt(Tree(u), p) != 0 ==> Live(u, TreeAt(Tree(u), p))
  {
    forall p: Path, q: Path
      ensures TreeAt(Tree(u), p) == TreeAt(Tree(u), q) && TreeAt(Tree(u), p) != 0 ==> p == q
    {
      UniqueIf(Tree(u), p, q);
    }
    InvMeansWalkInv(u);
    forall p: Path | TreeAt(Tree(u), p) != 0
      ensures Live(u, TreeAt(Tree(u), p))
    {
      ReachedIsLive(u, p);
    }
  }

  lemma CountersOfRun(u: Fs, over: nat)
    requires Inv(u) && BlockDrift(u) == U32(over) && InodeDrift(u) == 0
    ensures u.freeBlocks == U32(Clear(u.dpool) + over) && u.freeInodes == U32(Clear(u.ipool))
  {
    hide U32;
    CounterFromDrift(u.freeBlocks, Clear(u.dpool), over);
    ZeroWraps();
    CounterFromDrift(u.freeInodes, Clear(u.ipool), 0);
  }

  lemma ZeroWraps()
    ensures U32(0) == 0
  {
  }
}

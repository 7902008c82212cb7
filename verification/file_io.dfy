// Writing, reading and truncating files (src/chisai-core/fs.c, fs_write_file, fs_read_file and
// fs_truncate_file).
module FileIO {
  import opened Arith
  import opened Codec
  import opened FileMap
  import opened Invariant
  import opened Layout
  import opened Pools
  import opened State

  function Min(x: nat, y: nat): nat { if x < y then x else y }

  /** How many of `size` bytes at position `off` the loops handle in one round. */
  function Chunk(b: nat, off: nat, size: nat): (w: nat)
    requires b > 0
    ensures w <= size && (size > 0 ==> w > 0)
  {
    Min(size, b - OffsetIn(b, off))
  }

  /** How often a loop that completes goes round. */
  function Rounds(b: nat, off: nat, size: nat): (n: nat)
    requires b > 0
    decreases size
  {
    if size == 0 then 0 else 1 + Rounds(b, off + Chunk(b, off, size), size - Chunk(b, off, size))
  }

  /** One round for every block the range touches: `(off % b + size) / b`, rounded up. */
  lemma {:induction false} RoundsAre(b: nat, off: nat, size: nat)
    requires b > 0 && size > 0
    ensures Rounds(b, off, size) == (off % b + size + b - 1) / b
    decreases size
  {
    SplitByDivision(b, off);
    var o := OffsetIn(b, off);
    var w := Chunk(b, off, size);
    if w < size {
      NextRound(b, off);
      SplitByDivision(b, off + w);
      RoundsAre(b, off + w, size - w);
      SplitShift(o + size + b - 1, b);
      assert o + size + b - 1 - b == size - w + b - 1;
    } else {
      SplitShift(o + size + b - 1, b);
      DivModUnique(o + size - 1, b, 0, o + size - 1);
    }
  }

  /**
   * What loads through data index 0 answer, by the position in the file they are made for. This is
   * up to the device: such a load is addressed behind its end.
   */
  type Words = nat -> nat

  /**
   * Find the block behind `off`, allocating it when it is a hole. Behind the last block number the
   * search leaves the caller's variable, and with it the block index `prev`, as it was.
   */
  function Prepare(st: Fs, i: nat, off: nat, prev: nat, word: nat): (r: (Fs, Error, nat)) {
    var (e, d) := FindBlk(st, i, off, word);
    if e == ENOENT then AllocBlk(st, i, off) else (st, e, if e == CORRUPT then prev else d)
  }

  /**
   * The write loop: the new state and the number of bytes written. `prev` is the content of its
   * block-index variable, which keeps the last block from round to round.
   */
  function WriteLoop(st: Fs, i: nat, buf: Bytes, off: nat, prev: nat, words: Words): (r: (Fs, nat))
    decreases |buf|
  {
    if buf == [] || st.b == 0 then (st, 0)
    else
      var (st1, e, d) := Prepare(st, i, off, prev, words(off));
      if e == ENOMEM then (st1, 0)
      else
        var w := Chunk(st.b, off, |buf|);
        var (u, t) := WriteLoop(PutBlock(st1, d, OffsetIn(st.b, off), buf[..w]), i, buf[w..], off + w, d, words);
        (u, w + t)
  }

  // ---------- what one round of writing does ----------

  /** File `i` holds `data` at `off`; its other stored bytes and all other nodes are unchanged. */
  ghost predicate Written(st: Fs, u: Fs, i: nat, off: nat, data: Bytes) {
    && SameDevice(st, u) && u.ipool == st.ipool && u.freeInodes == st.freeInodes && i < |st.inodes|
    && SameKind(st.inodes[i], u.inodes[i]) && u.inodes[i].size == st.inodes[i].size
    && (forall m: nat :: Ref(st, i, m) != 0 ==> Ref(u, i, m) == Ref(st, i, m))
    && (forall k: nat :: off <= k < off + |data| ==> ByteAt(u, i, k) == Stored(data[k - off]))
    && (forall k: nat :: !(off <= k < off + |data|) && ByteAt(st, i, k) != Hole ==> ByteAt(u, i, k) == ByteAt(st, i, k))
    && (forall j: nat :: Live(st, j) && j != i ==> Same(st, u, j))
  }

  lemma WrittenNothing(st: Fs, i: nat, off: nat)
    requires i < |st.inodes|
    ensures Written(st, st, i, off, [])
  {
  }

  lemma WrittenThen(st: Fs, m: Fs, u: Fs, i: nat, off: nat, data: Bytes, more: Bytes)
    requires Written(st, m, i, off, data) && Written(m, u, i, off + |data|, more)
    ensures Written(st, u, i, off, data + more)
  {
    forall j: nat | Live(st, j) && j != i
      ensures Same(st, u, j)
    {
      assert Live(m, j);
      SameTransitive(st, m, u, j);
    }
  }

  /** The block for position `off` is in place: found, or newly allocated. */
  ghost predicate Prepared(st: Fs, u: Fs, i: nat, n: nat, d: nat) {
    && SameDevice(st, u) && u.ipool == st.ipool && u.freeInodes == st.freeInodes && i < |st.inodes|
    && SameKind(st.inodes[i], u.inodes[i]) && u.inodes[i].size == st.inodes[i].size
    && d != 0 && d < |st.blocks| && Ref(u, i, n) == d
    && (st.inodes[i].indirect != 0 ==> u.inodes[i].indirect == st.inodes[i].indirect)
    && (n < DIRECT_BLKS && st.inodes[i].indirect == 0 ==> u.inodes[i].indirect == 0)
    && (forall m: nat :: m < TableSlot(st.b) && (m != n || Ref(st, i, n) != 0) ==> Ref(u, i, m) == Ref(st, i, m))
    && (forall m: nat :: m < TableSlot(st.b) && Ref(st, i, m) != 0 ==>
          BlockAt(u, Ref(st, i, m)) == BlockAt(st, Ref(st, i, m)))
    && (forall j: nat :: Live(st, j) && j != i ==> Same(st, u, j))
  }

  /** Storing bytes in a data block of file `i` touches nothing but those bytes. */
  lemma PutDataKeeps(st: Fs, i: nat, n: nat, o: nat, data: Bytes)
    requires Inv(st) && Live(st, i) && !IsDir(st.inodes[i])
    requires n < TableSlot(st.b) && Ref(st, i, n) != 0
    ensures var u := PutBlock(st, Ref(st, i, n), o, data);
            && Inv(u) && SameDevice(st, u)
            && u.dpool == st.dpool && u.ipool == st.ipool && u.inodes == st.inodes
                && u.freeBlocks == st.freeBlocks && u.freeInodes == st.freeInodes
            && (forall j: nat, s: nat :: Live(st, j) ==> Ref(u, j, s) == Ref(st, j, s))
            && (forall j: nat :: Live(st, j) && j != i ==> Same(st, u, j))
  {
    var d := Ref(st, i, n);
    var u := PutBlock(st, d, o, data);
    PutBlockShape(st, d, o, data);
    forall j: nat | Live(st, j)
      ensures forall s: nat :: Ref(u, j, s) == Ref(st, j, s)
      ensures j != i ==> Same(st, u, j)
    {
      assert Ref(st, j, TableSlot(st.b)) == st.inodes[j].indirect;
    }
    BlockInvStep(st, u, i);
    TreeKept(st, u);
  }

  /** Bytes of a spliced block. */
  lemma SpliceBytes(s: Bytes, o: nat, data: Bytes, k: nat)
    requires o + |data| <= |s| && k < |s|
    ensures Splice(s, o, data)[k] == if o <= k < o + |data| then data[k - o] else s[k]
  {
  }

  /** One round: the chunk is stored in the prepared block. */
  lemma RoundWrites(st: Fs, m: Fs, i: nat, off: nat, data: Bytes, d: nat)
    requires Inv(m) && Live(m, i) && !IsDir(m.inodes[i]) && st.b > 0 && i < |st.inodes|
    requires BlockOf(st.b, off) < TableSlot(st.b) && OffsetIn(st.b, off) + |data| <= st.b
    requires Prepared(st, m, i, BlockOf(st.b, off), d)
    ensures Written(st, PutBlock(m, d, OffsetIn(st.b, off), data), i, off, data)
  {
    var n, o := BlockOf(st.b, off), OffsetIn(st.b, off);
    var u := PutBlock(m, d, o, data);
    PutDataKeeps(m, i, n, o, data);
    InUseInRange(m.dpool, d);
    forall k: nat
      ensures off <= k < off + |data| ==> ByteAt(u, i, k) == Stored(data[k - off])
      ensures !(off <= k < off + |data|) && ByteAt(st, i, k) != Hole ==> ByteAt(u, i, k) == ByteAt(st, i, k)
    {
      RoundByte(st, m, u, i, off, data, d, k);
    }
    forall j: nat | Live(st, j) && j != i
      ensures Same(st, u, j)
    {
      assert Live(m, j);
      SameTransitive(st, m, u, j);
    }
  }

  lemma RoundByte(st: Fs, m: Fs, u: Fs, i: nat, off: nat, data: Bytes, d: nat, k: nat)
    requires Inv(m) && Live(m, i) && st.b > 0 && i < |st.inodes|
    requires BlockOf(st.b, off) < TableSlot(st.b) && OffsetIn(st.b, off) + |data| <= st.b
    requires Prepared(st, m, i, BlockOf(st.b, off), d)
    requires u == PutBlock(m, d, OffsetIn(st.b, off), data)
    requires forall s: nat :: Ref(u, i, s) == Ref(m, i, s)
    ensures off <= k < off + |data| ==> ByteAt(u, i, k) == Stored(data[k - off])
    ensures !(off <= k < off + |data|) && ByteAt(st, i, k) != Hole ==> ByteAt(u, i, k) == ByteAt(st, i, k)
  {
    hide Same, InUse, Entry, DirsOk, ChildrenLive, IsDir;
    var b := st.b;
    var n, o := BlockOf(b, off), OffsetIn(b, off);
    OffsetBelow(b, off);
    SameBlock(b, off, k);
    if BlockOf(b, k) == n {
      SpliceBytes(m.blocks[d], o, data, OffsetIn(b, k));
    } else if BlockOf(b, k) < TableSlot(b) && Ref(st, i, BlockOf(b, k)) != 0 {
      assert Ref(m, i, BlockOf(b, k)) == Ref(st, i, BlockOf(b, k));
      assert Ref(m, i, BlockOf(b, k)) != d;
    }
  }

  // ---------- the preconditions of a write ----------

  /** All `size` bytes at `off` are within the direct and single-indirect block numbers. */
  predicate InReach(b: nat, off: nat, size: nat) {
    size == 0 || BlockOf(b, off + size - 1) < TableSlot(b)
  }

  /** That is the documented size limit: 12 blocks and as many as an indirect block has entries. */
  lemma LimitMeaning(b: nat, off: nat, size: nat)
    requires b > 0
    ensures InReach(b, off, size) <==> size == 0 || off + size <= (12 + b / 4) * b
  {
    if size > 0 {
      SplitByDivision(b, off + size - 1);
      DivBelow(off + size - 1, b, TableSlot(b));
    }
  }

  lemma ReachIsShort(b: nat, off: nat, size: nat)
    requires InReach(b, off, size) && GoodBlockSize(b)
    ensures size < TWO_32 && (size > 0 ==> off + size < TWO_32)
  {
    LimitMeaning(b, off, size);
    MulMono(b, MAX_BLOCK, 12 + b / 4);
    assert (12 + b / 4) * MAX_BLOCK <= (12 + MAX_BLOCK / 4) * MAX_BLOCK;
    assert (12 + b / 4) * b == b * (12 + b / 4);
    assert (12 + b / 4) * MAX_BLOCK == MAX_BLOCK * (12 + b / 4);
  }

  /** Block numbers in [n, m) that are holes. */
  function Holes(st: Fs, i: nat, n: nat, m: nat): (h: nat)
    decreases m - n
  {
    if n >= m then 0 else (if Ref(st, i, n) == 0 then 1 else 0) + Holes(st, i, n + 1, m)
  }

  /** The first position of the range that is in the indirect part, if there is one. */
  function FirstProbe(b: nat, off: nat): nat { if off < DIRECT_BLKS * b then DIRECT_BLKS * b else off }

  /**
   * No round takes a word from behind the device for a block: the indirect table is there, the
   * range ends before its part, or the first load made for it answers 0, like a hole.
   */
  predicate ProbeSafe(st: Fs, i: nat, off: nat, size: nat, words: Words)
    requires i < |st.inodes|
  {
    || st.inodes[i].indirect != 0 || size == 0 || BlockOf(st.b, off + size - 1) < DIRECT_BLKS
    || words(FirstProbe(st.b, off)) == 0
  }

  /**
   * When the write reaches the point where it has to create the indirect table, the number of
   * free blocks left is not exactly one.
   */
  predicate NoTrap(st: Fs, i: nat, off: nat, size: nat)
    requires i < |st.inodes|
  {
    size > 0 && BlockOf(st.b, off + size - 1) >= DIRECT_BLKS && st.inodes[i].indirect == 0 ==>
      Clear(st.dpool) != Holes(st, i, BlockOf(st.b, off), DIRECT_BLKS) + 1
  }

  predicate Permitted(st: Fs, i: nat, off: nat, size: nat, words: Words) {
    i < |st.inodes| && InReach(st.b, off, size) && ProbeSafe(st, i, off, size, words) && NoTrap(st, i, off, size)
  }

  ghost predicate Writable(st: Fs, i: nat, off: nat, size: nat, words: Words) {
    match st
    case Fs(b, _, _, _, _, _, _) =>
      && b > 0 && Inv(st) && HintsLive(st.dpool) && Live(st, i) && !IsDir(st.inodes[i])
      && Permitted(st, i, off, size, words)
  }

  /** Free blocks a write of `t` bytes consumes: one per hole touched, one for a missing table. */
  function Spent(st: Fs, i: nat, off: nat, t: nat): nat
    requires i < |st.inodes|
  {
    if t == 0 then 0
    else
      var last := BlockOf(st.b, off + t - 1);
      Holes(st, i, BlockOf(st.b, off), last + 1)
      + (if last >= DIRECT_BLKS && st.inodes[i].indirect == 0 then 1 else 0)
  }

  lemma {:induction false} HolesSame(st: Fs, u: Fs, i: nat, n: nat, m: nat)
    requires forall s: nat :: n <= s < m ==> Ref(u, i, s) == Ref(st, i, s)
    ensures Holes(u, i, n, m) == Holes(st, i, n, m)
    decreases m - n
  {
    if n < m { HolesSame(st, u, i, n + 1, m); }
  }

  lemma PrepareMeaning(st: Fs, i: nat, off: nat, prev: nat, word: nat)
    requires Inv(st) && HintsLive(st.dpool) && Live(st, i) && !IsDir(st.inodes[i])
    requires BlockOf(st.b, off) < TableSlot(st.b)
    requires word == 0 || st.inodes[i].indirect != 0 || BlockOf(st.b, off) < DIRECT_BLKS
    requires !LastBlockTrap(st, i, BlockOf(st.b, off))
    ensures var (u, e, d) := Prepare(st, i, off, prev, word);
            var n := BlockOf(st.b, off);
            && (e == ENOMEM <==> Ref(st, i, n) == 0 && Clear(st.dpool) == 0)
            && (e == ENOMEM ==> u == st)
            && (e != ENOMEM ==>
                  Prepared(st, u, i, n, d) && Inv(u) && HintsLive(u.dpool) && BlockDrift(u) == BlockDrift(st)
                  && Clear(u.dpool) == Clear(st.dpool) - (if Ref(st, i, n) == 0 then BlocksTaken(st, i, n) else 0))
  {
    hide Inv, HintsLive, BlockDrift, LastBlockTrap, Live, IsDir, AllocBlk, FindBlk, Ref;
    var n := BlockOf(st.b, off);
    FoundMeansRef(st, i, off, word);
    if Ref(st, i, n) == 0 {
      var r := AllocBlkAddsBinding(st, i, off);
      if r.1 == OK { AddedIsPrepared(st, r.0, i, n, r.2); }
    } else {
      FoundIsPrepared(st, i, n);
    }
  }

  lemma AddedIsPrepared(st: Fs, u: Fs, i: nat, n: nat, d: nat)
    requires Live(st, i) && Added(st, u, i, n, d) && Ref(st, i, n) == 0
    ensures Prepared(st, u, i, n, d) && Inv(u) && HintsLive(u.dpool) && BlockDrift(u) == BlockDrift(st)
    ensures Clear(u.dpool) == Clear(st.dpool) - BlocksTaken(st, i, n)
  {
  }

  lemma FoundIsPrepared(st: Fs, i: nat, n: nat)
    requires Inv(st) && Live(st, i) && Ref(st, i, n) != 0
    ensures Prepared(st, st, i, n, Ref(st, i, n))
  {
    InUseInRange(st.dpool, Ref(st, i, n));
  }

  // ---------- the write loop ----------

  /** If a round does not finish the buffer, the next one starts at the next block. */
  lemma {:induction false} NextRound(b: nat, off: nat)
    requires b > 0
    ensures var w := b - OffsetIn(b, off);
            BlockOf(b, off + w) == BlockOf(b, off) + 1 && OffsetIn(b, off + w) == 0
  {
    if off >= b {
      NextRound(b, off - b);
      assert off - b + (b - OffsetIn(b, off)) == off + (b - OffsetIn(b, off)) - b;
    }
  }

  /** State after the first round of a write: the block is prepared and the chunk stored. */
  function Round(st: Fs, i: nat, buf: Bytes, off: nat, prev: nat, words: Words): (r: Fs)
    requires st.b > 0
  {
    var (st1, e, d) := Prepare(st, i, off, prev, words(off));
    PutBlock(st1, d, OffsetIn(st.b, off), buf[..Chunk(st.b, off, |buf|)])
  }

  lemma RoundIsSafe(st: Fs, i: nat, off: nat, size: nat, words: Words)
    requires st.b > 0 && Permitted(st, i, off, size, words) && size > 0
    ensures BlockOf(st.b, off) < TableSlot(st.b)
    ensures words(off) == 0 || st.inodes[i].indirect != 0 || BlockOf(st.b, off) < DIRECT_BLKS
    ensures !LastBlockTrap(st, i, BlockOf(st.b, off))
  {
    BlockMonotone(st.b, off, off + size - 1);
    BlockAtLeast(st.b, DIRECT_BLKS, off);
  }

  /** What is left of a write after its first round is again a permitted write. */
  lemma RoundLeaves(st: Fs, u: Fs, i: nat, off: nat, size: nat, words: Words)
    requires st.b > 0 && Permitted(st, i, off, size, words) && size > 0 && SameDevice(st, u)
    requires st.inodes[i].indirect != 0 || BlockOf(st.b, off) >= DIRECT_BLKS ==> u.inodes[i].indirect != 0
    requires forall m: nat :: BlockOf(st.b, off) < m < DIRECT_BLKS ==> Ref(u, i, m) == Ref(st, i, m)
    requires BlockOf(st.b, off) < DIRECT_BLKS ==>
               Clear(u.dpool) == Clear(st.dpool) - (if Ref(st, i, BlockOf(st.b, off)) == 0 then 1 else 0)
    ensures var w := Chunk(st.b, off, size);
            Permitted(u, i, off + w, size - w, words)
  {
    hide Clear, Ref, OffsetIn, BlockOf, FirstProbe, TableSlot, LastBlockTrap;
    var n, w := BlockOf(st.b, off), Chunk(st.b, off, size);
    if w < size {
      assert off + w + (size - w) - 1 == off + size - 1;
      if u.inodes[i].indirect == 0 {
        NextRound(st.b, off);
        HolesSame(st, u, i, n + 1, DIRECT_BLKS);
        SameProbe(st.b, off, w);
      }
    }
  }

  /** Within the direct part every round has the same first position of the indirect part before it. */
  lemma SameProbe(b: nat, off: nat, w: nat)
    requires b > 0 && BlockOf(b, off) < DIRECT_BLKS && w == b - OffsetIn(b, off)
    ensures FirstProbe(b, off + w) == FirstProbe(b, off)
  {
    NextRound(b, off);
    BlockAtLeast(b, DIRECT_BLKS, off);
    BlockAtLeast(b, DIRECT_BLKS, off + w - 1);
    OffsetBelow(b, off);
    SameBlock(b, off, off + w - 1);
  }

  /** The effect of one round on everything the rest of the loop depends on. */
  ghost predicate RoundDone(st: Fs, i: nat, off: nat, data: Bytes, u: Fs) {
    match u
    case Fs(b, _, _, _, _, _, _) =>
      && b == st.b && Inv(u) && HintsLive(u.dpool) && Live(u, i) && !IsDir(u.inodes[i])
      && Written(st, u, i, off, data)
      && BlockDrift(u) == BlockDrift(st)
  }

  /** How the round changes the block map of the file and the number of free blocks. */
  ghost predicate RoundMaps(st: Fs, i: nat, n: nat, u: Fs) {
    && SameDevice(st, u) && i < |st.inodes|
    && Ref(u, i, n) != 0
    && (n >= DIRECT_BLKS || st.inodes[i].indirect != 0 ==> u.inodes[i].indirect != 0)
    && (n < DIRECT_BLKS && st.inodes[i].indirect == 0 ==> u.inodes[i].indirect == 0)
    && (forall m: nat :: n < m < TableSlot(st.b) ==> Ref(u, i, m) == Ref(st, i, m))
    && Clear(u.dpool) == Clear(st.dpool) - (if Ref(st, i, n) == 0 then BlocksTaken(st, i, n) else 0)
  }

  lemma RoundMeaning(st: Fs, i: nat, buf: Bytes, off: nat, prev: nat, words: Words)
    requires Writable(st, i, off, |buf|, words) && st.b > 0 && buf != []
    requires Prepare(st, i, off, prev, words(off)).1 != ENOMEM
    ensures var w := Chunk(st.b, off, |buf|);
            var u := Round(st, i, buf, off, prev, words);
            RoundDone(st, i, off, buf[..w], u) && RoundMaps(st, i, BlockOf(st.b, off), u)
  {
    RoundIsSafe(st, i, off, |buf|, words);
    PrepareMeaning(st, i, off, prev, words(off));
    var (m, e, d) := Prepare(st, i, off, prev, words(off));
    RoundFrom(st, m, i, off, buf[..Chunk(st.b, off, |buf|)], d);
  }

  /** From the prepared state `m` on: store the chunk. */
  lemma RoundFrom(st: Fs, m: Fs, i: nat, off: nat, data: Bytes, d: nat)
    requires st.b > 0 && Live(st, i) && !IsDir(st.inodes[i])
    requires BlockOf(st.b, off) < TableSlot(st.b) && OffsetIn(st.b, off) + |data| <= st.b
    requires Inv(m) && HintsLive(m.dpool) && BlockDrift(m) == BlockDrift(st)
    requires Prepared(st, m, i, BlockOf(st.b, off), d)
    requires Clear(m.dpool) == Clear(st.dpool) -
               (if Ref(st, i, BlockOf(st.b, off)) == 0 then BlocksTaken(st, i, BlockOf(st.b, off)) else 0)
    ensures var u := PutBlock(m, d, OffsetIn(st.b, off), data);
            RoundDone(st, i, off, data, u) && RoundMaps(st, i, BlockOf(st.b, off), u)
  {
    var n := BlockOf(st.b, off);
    var u := PutBlock(m, d, OffsetIn(st.b, off), data);
    RoundWrites(st, m, i, off, data, d);
    PutDataKeeps(m, i, n, OffsetIn(st.b, off), data);
    DriftSame(m, u);
  }

  /** A round that finds or allocates its block leaves a smaller permitted write to do. */
  lemma RoundThenRest(st: Fs, i: nat, off: nat, size: nat, data: Bytes, u: Fs, words: Words)
    requires Writable(st, i, off, size, words) && st.b > 0 && size > 0
    requires RoundDone(st, i, off, data, u) && RoundMaps(st, i, BlockOf(st.b, off), u)
    ensures u.b == st.b
    ensures var w := Chunk(st.b, off, size); Writable(u, i, off + w, size - w, words)
  {
    RoundLeaves(st, u, i, off, size, words);
  }

  /** The first round together with the write that is left after it. */
  lemma FirstRound(st: Fs, i: nat, buf: Bytes, off: nat, prev: nat, words: Words) returns (w: nat, m: Fs, d: nat)
    requires Writable(st, i, off, |buf|, words) && st.b > 0 && buf != []
    requires Prepare(st, i, off, prev, words(off)).1 != ENOMEM
    ensures w == Chunk(st.b, off, |buf|) && m == Round(st, i, buf, off, prev, words)
    ensures d == Prepare(st, i, off, prev, words(off)).2
    ensures RoundDone(st, i, off, buf[..w], m) && m.b == st.b
    ensures Writable(m, i, off + w, |buf[w..]|, words)
  {
    hide Writable, Round, RoundDone, RoundMaps, Prepare;
    w, m := Chunk(st.b, off, |buf|), Round(st, i, buf, off, prev, words);
    d := Prepare(st, i, off, prev, words(off)).2;
    RoundMeaning(st, i, buf, off, prev, words);
    RoundThenRest(st, i, off, |buf|, buf[..w], m, words);
  }

  /** One unfolding of the loop. */
  lemma WriteLoopUnfold(st: Fs, i: nat, buf: Bytes, off: nat, m: Fs, w: nat, d: nat, prev: nat, words: Words)
    requires buf != [] && st.b != 0 && Prepare(st, i, off, prev, words(off)).1 != ENOMEM
    requires w == Chunk(st.b, off, |buf|) && m == Round(st, i, buf, off, prev, words)
    requires d == Prepare(st, i, off, prev, words(off)).2
    ensures var r := WriteLoop(m, i, buf[w..], off + w, d, words);
            WriteLoop(st, i, buf, off, prev, words) == (r.0, w + r.1)
  {
  }

  lemma NothingLeft(st: Fs, i: nat, buf: Bytes, off: nat, prev: nat, words: Words)
    requires |buf| == 0
    ensures WriteLoop(st, i, buf, off, prev, words) == (st, 0)
  {
  }

  /** What the loop has achieved when it ends with `t` bytes written. */
  ghost predicate LoopDone(st: Fs, i: nat, buf: Bytes, off: nat, r: (Fs, nat)) {
    match r
    case (u, t) =>
      && t <= |buf| && Inv(u) && HintsLive(u.dpool)
      && Written(st, u, i, off, buf[..t])
      && BlockDrift(u) == BlockDrift(st)
      && (t < |buf| ==> Clear(u.dpool) == 0 && ByteAt(u, i, off + t) == Hole)
  }

  lemma DoneWithoutRound(st: Fs, i: nat, buf: Bytes, off: nat, prev: nat, words: Words)
    requires Writable(st, i, off, |buf|, words)
    requires buf == [] || Prepare(st, i, off, prev, words(off)).1 == ENOMEM
    ensures LoopDone(st, i, buf, off, (st, 0)) && WriteLoop(st, i, buf, off, prev, words) == (st, 0)
  {
    WrittenNothing(st, i, off);
    if buf != [] {
      RoundIsSafe(st, i, off, |buf|, words);
      PrepareMeaning(st, i, off, prev, words(off));
    }
  }

  lemma DoneAfterRound(st: Fs, m: Fs, i: nat, buf: Bytes, off: nat, w: nat, r: (Fs, nat))
    requires w <= |buf| && RoundDone(st, i, off, buf[..w], m)
    requires LoopDone(m, i, buf[w..], off + w, r)
    ensures LoopDone(st, i, buf, off, (r.0, w + r.1))
  {
    hide Written, Inv, BlockDrift, HintsLive, ByteAt;
    var (u, t) := r;
    assert buf[..w] + buf[w..][..t] == buf[..w + t];
    WrittenThen(st, m, u, i, off, buf[..w], buf[w..][..t]);
  }

  /**
   * fs_write_file's loop, for every buffer and position it supports: it stores a prefix of the
   * buffer at the position, keeps every other stored byte of the file and every other file and
   * directory, and stops early only when the device has no free block left for the next hole.
   */
  lemma {:induction false} WriteLoopMeaning(st: Fs, i: nat, buf: Bytes, off: nat, prev: nat, words: Words)
    returns (r: (Fs, nat))
    requires Writable(st, i, off, |buf|, words) && st.b > 0
    ensures r == WriteLoop(st, i, buf, off, prev, words)
    ensures LoopDone(st, i, buf, off, r)
    decreases |buf|
  {
    hide Prepare, Round, LoopDone, RoundDone, Writable;
    if buf == [] || Prepare(st, i, off, prev, words(off)).1 == ENOMEM {
      DoneWithoutRound(st, i, buf, off, prev, words);
      r := (st, 0);
    } else {
      var w, m, d := FirstRound(st, i, buf, off, prev, words);
      var rest := WriteLoopMeaning(m, i, buf[w..], off + w, d, words);
      WriteLoopUnfold(st, i, buf, off, m, w, d, prev, words);
      r := (rest.0, w + rest.1);
      DoneAfterRound(st, m, i, buf, off, w, rest);
    }
  }

  /** The loop takes exactly one free block per hole it fills, and one for the indirect table. */
  lemma {:induction false} WriteLoopCost(st: Fs, i: nat, buf: Bytes, off: nat, prev: nat, words: Words)
    returns (r: (Fs, nat))
    requires Writable(st, i, off, |buf|, words) && st.b > 0
    ensures r == WriteLoop(st, i, buf, off, prev, words) && r.1 <= |buf|
    ensures Clear(r.0.dpool) == Clear(st.dpool) - Spent(st, i, off, r.1)
    decreases |buf|
  {
    hide Prepare, Round, LoopDone, RoundDone, RoundMaps, Writable, WriteLoop, Holes, BlockOf, OffsetIn, Clear;
    if buf == [] || Prepare(st, i, off, prev, words(off)).1 == ENOMEM {
      DoneWithoutRound(st, i, buf, off, prev, words);
      r := (st, 0);
    } else {
      var w, m, d := FirstRound(st, i, buf, off, prev, words);
      RoundMeaning(st, i, buf, off, prev, words);
      var rest := WriteLoopCost(m, i, buf[w..], off + w, d, words);
      WriteLoopUnfold(st, i, buf, off, m, w, d, prev, words);
      r := (rest.0, w + rest.1);
      RoundInReach(st, i, off, |buf|, words);
      SpentSplits(st, m, i, off, BlockOf(st.b, off), |buf|, rest.1);
    }
  }

  lemma RoundInReach(st: Fs, i: nat, off: nat, size: nat, words: Words)
    requires Writable(st, i, off, size, words)
    ensures InReach(st.b, off, size) && GoodBlockSize(st.b)
  {
  }

  lemma SpentSplits(st: Fs, m: Fs, i: nat, off: nat, n: nat, size: nat, t: nat)
    requires st.b > 0 && size > 0 && InReach(st.b, off, size) && n == BlockOf(st.b, off)
    requires t <= size - Chunk(st.b, off, size)
    requires RoundMaps(st, i, n, m)
    ensures var w := Chunk(st.b, off, size);
            i < |m.inodes| && Clear(m.dpool) - Spent(m, i, off + w, t) == Clear(st.dpool) - Spent(st, i, off, w + t)
  {
    hide RoundMaps, Holes, BlockOf, OffsetIn, InReach, BlocksTaken, Ref;
    var w := Chunk(st.b, off, size);
    var last := BlockOf(st.b, off + (w + t) - 1);
    LastBlock(st.b, off, n, size, t, last);
    BlockTakenOnce(st, m, i, n, last);
    if t != 0 {
      assert off + w + t - 1 == off + (w + t) - 1;
      assert BlockOf(st.b, off + w) == n + 1 by { NextRound(st.b, off); LastBlock(st.b, off, n, size, t, last); }
    }
  }

  lemma LastBlock(b: nat, off: nat, n: nat, size: nat, t: nat, last: nat)
    requires b > 0 && size > 0 && InReach(b, off, size) && n == BlockOf(b, off)
    requires t <= size - Chunk(b, off, size)
    requires last == BlockOf(b, off + (Chunk(b, off, size) + t) - 1)
    ensures n <= last < TableSlot(b) && (t == 0 <==> last == n)
    ensures t != 0 ==> Chunk(b, off, size) == b - OffsetIn(b, off)
  {
    var w := Chunk(b, off, size);
    BlockMonotone(b, off, off + (w + t) - 1);
    BlockMonotone(b, off + (w + t) - 1, off + size - 1);
    if t == 0 {
      OffsetBelow(b, off);
      SameBlock(b, off, off + w - 1);
    } else {
      NextRound(b, off);
      BlockMonotone(b, off + w, off + (w + t) - 1);
    }
  }

  /** Blocks `n` to `last` cost what block `n` costs and what the later ones cost after that. */
  lemma BlockTakenOnce(st: Fs, m: Fs, i: nat, n: nat, last: nat)
    requires n <= last < TableSlot(st.b) && RoundMaps(st, i, n, m)
    ensures i < |st.inodes| && i < |m.inodes| && m.b == st.b
    ensures Clear(m.dpool)
            - (if n < last
               then Holes(m, i, n + 1, last + 1) + (if last >= DIRECT_BLKS && m.inodes[i].indirect == 0 then 1 else 0)
               else 0)
            == Clear(st.dpool)
            - (Holes(st, i, n, last + 1) + (if last >= DIRECT_BLKS && st.inodes[i].indirect == 0 then 1 else 0))
  {
    HolesSame(st, m, i, n + 1, last + 1);
  }

  /** Block numbers behind the last byte written keep what they had. */
  lemma {:induction false} WriteLoopLater(st: Fs, i: nat, buf: Bytes, off: nat, prev: nat, words: Words, m: nat)
    returns (r: (Fs, nat))
    requires Writable(st, i, off, |buf|, words) && st.b > 0 && m < TableSlot(st.b)
    ensures r == WriteLoop(st, i, buf, off, prev, words)
    ensures r.1 == 0 || BlockOf(st.b, off + r.1 - 1) < m ==> Ref(r.0, i, m) == Ref(st, i, m)
    decreases |buf|
  {
    hide Prepare, Round, LoopDone, RoundDone, Writable, Ref, WriteLoop, OffsetIn, Clear, BlocksTaken;
    if buf == [] || Prepare(st, i, off, prev, words(off)).1 == ENOMEM {
      DoneWithoutRound(st, i, buf, off, prev, words);
      r := (st, 0);
    } else {
      var w, mid, d := FirstRound(st, i, buf, off, prev, words);
      RoundMeaning(st, i, buf, off, prev, words);
      var rest := WriteLoopLater(mid, i, buf[w..], off + w, d, words, m);
      WriteLoopUnfold(st, i, buf, off, mid, w, d, prev, words);
      r := (rest.0, w + rest.1);
      BlockMonotone(st.b, off, off + r.1 - 1);
      assert off + w + rest.1 - 1 == off + r.1 - 1;
    }
  }

  // ---------- fs_write_file ----------

  /** inode_set_size */
  function SetSize(x: Inode, size: nat): (y: Inode) {
    x.(size := size, blkcnt := size / 512 + 1)
  }

  /** The size a write stores: the bytes written, added to the old size unless it overwrites. */
  function NewSize(old_size: nat, off: nat, total: nat): (size: nat) {
    if U32(old_size) > off then total else total + U32(old_size)
  }

  /** fs_write_file, for a handle that agrees with the inode on the device. */
  function WriteFile(st: Fs, i: nat, buf: Bytes, off: nat, prev: nat, words: Words): (r: (Fs, nat))
    requires i < |st.inodes|
  {
    var (u, total) := WriteLoop(st, i, buf, off, prev, words);
    if i >= |u.inodes| then (u, total)
    else (SaveInode(u, i, SetSize(u.inodes[i], NewSize(st.inodes[i].size, off, total))), total)
  }

  /** Only the size fields of inode `i` change. */
  lemma SetSizeKeeps(st: Fs, i: nat, size: nat)
    requires Inv(st) && Live(st, i) && !IsDir(st.inodes[i]) && size < TWO_64
    ensures var u := SaveInode(st, i, SetSize(st.inodes[i], size));
            && Inv(u) && SameDevice(st, u) && u.dpool == st.dpool && u.ipool == st.ipool
            && u.freeBlocks == st.freeBlocks && u.freeInodes == st.freeInodes && u.blocks == st.blocks
            && (forall j: nat, s: nat :: Ref(u, j, s) == Ref(st, j, s))
            && (forall k: nat :: ByteAt(u, i, k) == ByteAt(st, i, k))
            && (forall j: nat :: Live(st, j) && j != i ==> Same(st, u, j))
  {
    var u := SaveInode(st, i, SetSize(st.inodes[i], size));
    SaveInodeShape(st, i, SetSize(st.inodes[i], size));
    forall j: nat, s: nat
      ensures Ref(u, j, s) == Ref(st, j, s)
    {
    }
    BlockInvStep(st, u, i);
    TreeKept(st, u);
  }

  /**
   * The size a write of `t` bytes leaves: `t` when it starts inside the file, the end of the bytes
   * written when it starts at the end, and the old size plus `t` when it starts behind the end.
   * Of the old size the code keeps 32 bits.
   */
  predicate SizeAfter(old_size: nat, off: nat, t: nat, size: nat) {
    var end := old_size % TWO_32;
    && (off < end ==> size == t)
    && (off == end ==> size == off + t)
    && (off > end ==> size == end + t)
  }

  /** What a whole write achieves: as the loop, plus the stored size. */
  ghost predicate WriteDone(st: Fs, i: nat, buf: Bytes, off: nat, r: (Fs, nat)) {
    match r
    case (u, t) =>
      && t <= |buf| && Inv(u) && HintsLive(u.dpool) && SameDevice(st, u) && u.ipool == st.ipool
          && u.freeInodes == st.freeInodes
      && i < |st.inodes| && SameKind(st.inodes[i], u.inodes[i])
      && SizeAfter(st.inodes[i].size, off, t, u.inodes[i].size)
      && u.inodes[i].blkcnt == u.inodes[i].size / 512 + 1
      && (forall m: nat :: Ref(st, i, m) != 0 ==> Ref(u, i, m) == Ref(st, i, m))
      && (forall k: nat :: off <= k < off + t ==> ByteAt(u, i, k) == Stored(buf[k - off]))
      && (forall k: nat :: !(off <= k < off + t) && ByteAt(st, i, k) != Hole ==> ByteAt(u, i, k) == ByteAt(st, i, k))
      && (forall j: nat :: Live(st, j) && j != i ==> Same(st, u, j))
      && BlockDrift(u) == BlockDrift(st)
      && Clear(u.dpool) == Clear(st.dpool) - Spent(st, i, off, t)
      && (t < |buf| ==> Clear(u.dpool) == 0 && ByteAt(u, i, off + t) == Hole)
  }

  /**
   * fs_write_file: the buffer's prefix is readable at the position, every other stored byte and
   * every other node is unchanged, and free_blocks falls by the holes filled plus a new table.
   */
  lemma WriteFileMeaning(st: Fs, i: nat, buf: Bytes, off: nat, prev: nat, words: Words) returns (r: (Fs, nat))
    requires Writable(st, i, off, |buf|, words) && st.b > 0 && i < |st.inodes|
    ensures r == WriteFile(st, i, buf, off, prev, words) && WriteDone(st, i, buf, off, r)
  {
    var l := WriteLoopMeaning(st, i, buf, off, prev, words);
    var c := WriteLoopCost(st, i, buf, off, prev, words);
    r := WriteFile(st, i, buf, off, prev, words);
    RoundInReach(st, i, off, |buf|, words);
    ReachIsShort(st.b, off, |buf|);
    WriteThenSize(st, i, buf, off, l);
  }

  lemma WriteThenSize(st: Fs, i: nat, buf: Bytes, off: nat, l: (Fs, nat))
    requires Live(st, i) && !IsDir(st.inodes[i])
    requires |buf| < TWO_32
    requires LoopDone(st, i, buf, off, l)
    requires Clear(l.0.dpool) == Clear(st.dpool) - Spent(st, i, off, l.1)
    ensures i < |l.0.inodes|
    ensures WriteDone(st, i, buf, off,
              (SaveInode(l.0, i, SetSize(l.0.inodes[i], NewSize(st.inodes[i].size, off, l.1))), l.1))
  {
    hide Inv, Shape, ByteAt, Ref, HintsLive, Clear, InUse, Holes;
    var (u, t) := l;
    var size := NewSize(st.inodes[i].size, off, t);
    U32IsMod(st.inodes[i].size);
    SetSizeKeeps(u, i, size);
    var v := SaveInode(u, i, SetSize(u.inodes[i], size));
    DriftSame(u, v);
    forall j: nat | Live(st, j) && j != i
      ensures Same(st, v, j)
    {
      assert Live(u, j);
      SameTransitive(st, u, v, j);
    }
  }

  // ---------- fs_read_file ----------

  /** The read loop: an error, or the bytes read. */
  datatype ReadResult = Failed(e: Error) | Read(data: Bytes)

  function ReadLoop(st: Fs, i: nat, size: nat, off: nat, words: Words): (r: ReadResult)
    decreases size
  {
    if size == 0 || st.b == 0 then Read([])
    else
      var (e, d) := FindBlk(st, i, off, words(off));
      if e != OK then Failed(e)
      else
        var o, w := OffsetIn(st.b, off), Chunk(st.b, off, size);
        var blk := BlockAt(st, d);
        var head := if o + w <= |blk| then blk[o..o + w] else [];
        match ReadLoop(st, i, size - w, off + w, words)
        case Failed(e) => Failed(e)
        case Read(tail) => Read(head + tail)
  }

  /** fs_read_file: the request is cut to the file size, whatever the position. */
  function ReadFile(st: Fs, i: nat, size: nat, off: nat, words: Words): (r: ReadResult)
    requires i < |st.inodes|
  {
    ReadLoop(st, i, Min(size, st.inodes[i].size), off, words)
  }

  /** All positions in the range hold stored bytes. */
  ghost predicate AllStored(st: Fs, i: nat, off: nat, size: nat) {
    forall k: nat :: off <= k < off + size ==> ByteAt(st, i, k) != Hole
  }

  /** No more is reported than was passed in. */
  lemma {:induction false} ReportsNoMore(st: Fs, i: nat, buf: Bytes, off: nat, prev: nat, words: Words)
    ensures WriteLoop(st, i, buf, off, prev, words).1 <= |buf|
    decreases |buf|
  {
    hide Prepare, PutBlock;
    if buf != [] && st.b > 0 {
      var (st1, e, d) := Prepare(st, i, off, prev, words(off));
      var w := Chunk(st.b, off, |buf|);
      ReportsNoMore(PutBlock(st1, d, OffsetIn(st.b, off), buf[..w]), i, buf[w..], off + w, d, words);
    }
  }

  /** `data` is what the file holds at `off`. */
  ghost predicate Holds(st: Fs, i: nat, off: nat, data: Bytes) {
    forall k: nat :: off <= k < off + |data| ==> ByteAt(st, i, k) == Stored(data[k - off])
  }

  /** The bytes one round reads from block `d`. */
  function Head(st: Fs, d: nat, off: nat, size: nat): (h: Bytes)
    requires st.b > 0
  {
    var o, w := OffsetIn(st.b, off), Chunk(st.b, off, size);
    if o + w <= |BlockAt(st, d)| then BlockAt(st, d)[o..o + w] else []
  }

  lemma ReadRound(st: Fs, i: nat, size: nat, off: nat, words: Words)
    requires Inv(st) && Live(st, i) && st.b > 0 && i < |st.inodes| && size > 0
    requires InReach(st.b, off, size) && ProbeSafe(st, i, off, size, words)
    ensures var (e, d) := FindBlk(st, i, off, words(off));
            && (e == OK || e == ENOENT)
            && (e == OK <==> ByteAt(st, i, off) != Hole)
            && (e == OK ==>
                  |Head(st, d, off, size)| == Chunk(st.b, off, size) && Holds(st, i, off, Head(st, d, off, size)))
    ensures var (w, d) := (Chunk(st.b, off, size), FindBlk(st, i, off, words(off)).1);
            FindBlk(st, i, off, words(off)).0 == OK ==>
              InReach(st.b, off + w, size - w) && ProbeSafe(st, i, off + w, size - w, words)
  {
    hide Inv, Live, ByteAt, Head, Holds, FindBlk, OffsetIn, Ref;
    var n := BlockOf(st.b, off);
    BlockMonotone(st.b, off, off + size - 1);
    BlockAtLeast(st.b, DIRECT_BLKS, off);
    FoundMeansRef(st, i, off, words(off));
    HeadMeaning(st, i, off, size);
    if n >= DIRECT_BLKS && st.inodes[i].indirect == 0 { NoTableNoRef(st, i, n); }
    var w := Chunk(st.b, off, size);
    if size - w > 0 {
      assert off + w + (size - w) - 1 == off + size - 1;
      if n < DIRECT_BLKS { SameProbe(st.b, off, w); }
    }
  }

  /** What one round reads is what the file holds there. */
  lemma HeadMeaning(st: Fs, i: nat, off: nat, size: nat)
    requires Inv(st) && Live(st, i) && st.b > 0 && size > 0 && BlockOf(st.b, off) < TableSlot(st.b)
    ensures var d := Ref(st, i, BlockOf(st.b, off));
            && (d == 0 <==> ByteAt(st, i, off) == Hole)
            && (d != 0 ==>
                  |Head(st, d, off, size)| == Chunk(st.b, off, size) && Holds(st, i, off, Head(st, d, off, size)))
  {
    var d := Ref(st, i, BlockOf(st.b, off));
    if d != 0 {
      InUseInRange(st.dpool, d);
      var h := Head(st, d, off, size);
      OffsetBelow(st.b, off);
      forall k: nat | off <= k < off + Chunk(st.b, off, size)
        ensures ByteAt(st, i, k) == Stored(h[k - off])
      {
        SameBlock(st.b, off, k);
      }
    }
  }

  lemma ReadJoin(st: Fs, i: nat, off: nat, head: Bytes, tail: Bytes)
    requires Holds(st, i, off, head) && Holds(st, i, off + |head|, tail)
    ensures Holds(st, i, off, head + tail)
  {
  }

  /**
   * The read loop succeeds exactly when no position of the range is a hole, and then returns the
   * stored bytes.
   */
  lemma {:induction false} ReadLoopMeaning(st: Fs, i: nat, size: nat, off: nat, words: Words) returns (r: ReadResult)
    requires Inv(st) && Live(st, i) && st.b > 0 && i < |st.inodes|
    requires InReach(st.b, off, size) && ProbeSafe(st, i, off, size, words)
    ensures r == ReadLoop(st, i, size, off, words)
    ensures r.Read? <==> AllStored(st, i, off, size)
    ensures r.Read? ==> |r.data| == size && Holds(st, i, off, r.data)
    ensures r.Failed? ==> r.e == ENOENT
    decreases size
  {
    hide Inv, ProbeSafe, InReach, ByteAt, FindBlk, BlockOf, OffsetIn, Live, AllStored, Holds;
    r := ReadLoop(st, i, size, off, words);
    if size == 0 {
      ReadNothing(st, i, off);
    } else {
      ReadRound(st, i, size, off, words);
      var w := Chunk(st.b, off, size);
      var (e, d) := FindBlk(st, i, off, words(off));
      if e != OK {
        HoleStops(st, i, off, size);
      } else {
        var head := Head(st, d, off, size);
        var rest := ReadLoopMeaning(st, i, size - w, off + w, words);
        ReadMore(st, i, off, size, w, head);
        if rest.Read? {
          assert r == Read(head + rest.data);
          ReadJoin(st, i, off, head, rest.data);
        }
      }
    }
  }

  lemma ReadNothing(st: Fs, i: nat, off: nat)
    ensures AllStored(st, i, off, 0) && Holds(st, i, off, [])
  {
  }

  lemma HoleStops(st: Fs, i: nat, off: nat, size: nat)
    requires size > 0 && ByteAt(st, i, off) == Hole
    ensures !AllStored(st, i, off, size)
  {
  }

  lemma ReadMore(st: Fs, i: nat, off: nat, size: nat, w: nat, head: Bytes)
    requires w <= size && |head| == w && Holds(st, i, off, head)
    ensures AllStored(st, i, off, size) <==> AllStored(st, i, off + w, size - w)
  {
    if AllStored(st, i, off + w, size - w) {
      forall k: nat | off <= k < off + size
        ensures ByteAt(st, i, k) != Hole
      {
        if k < off + w { assert ByteAt(st, i, k) == Stored(head[k - off]); }
      }
    }
  }

  lemma ReadBack(st: Fs, i: nat, buf: Bytes, off: nat, u: Fs, t: nat, words: Words, words': Words)
    requires Writable(st, i, off, |buf|, words) && st.b > 0 && i < |st.inodes|
    requires WriteDone(st, i, buf, off, (u, t))
    ensures i < |u.inodes| && t <= |buf| && ReadFile(u, i, t, off, words') == Read(buf[..t])
  {
    hide Writable, WriteDone, ByteAt, InReach, ProbeSafe, Inv, Holds, SizeAfter;
    WrittenHolds(st, i, buf, off, words, u, t);
    ReachStays(st, i, off, |buf|, t, words);
    WrittenIsProbed(u, i, off, t, words');
    var r := ReadLoopMeaning(u, i, t, off, words');
    SameHolds(u, i, off, r.data, buf[..t]);
  }

  lemma WrittenIsProbed(u: Fs, i: nat, off: nat, t: nat, words: Words)
    requires AllStored(u, i, off, t) && i < |u.inodes|
    ensures ProbeSafe(u, i, off, t, words)
  {
    if t > 0 { StoredMeansProbed(u, i, off + t - 1); }
  }

  lemma WrittenHolds(st: Fs, i: nat, buf: Bytes, off: nat, words: Words, u: Fs, t: nat)
    requires Writable(st, i, off, |buf|, words) && WriteDone(st, i, buf, off, (u, t))
    ensures t <= |buf| && Holds(u, i, off, buf[..t]) && AllStored(u, i, off, t)
    ensures Inv(u) && Live(u, i) && u.b == st.b && i < |u.inodes| && u.inodes[i].size >= t
  {
  }

  /** The bytes a file holds in a range are determined. */
  lemma SameHolds(st: Fs, i: nat, off: nat, x: Bytes, y: Bytes)
    requires |x| == |y| && Holds(st, i, off, x) && Holds(st, i, off, y)
    ensures x == y
  {
    forall k | 0 <= k < |x|
      ensures x[k] == y[k]
    {
      assert ByteAt(st, i, off + k) == Stored(x[off + k - off]);
      assert ByteAt(st, i, off + k) == Stored(y[off + k - off]);
    }
  }

  lemma ReachStays(st: Fs, i: nat, off: nat, size: nat, t: nat, words: Words)
    requires Writable(st, i, off, size, words) && t <= size
    ensures InReach(st.b, off, t)
  {
    if t > 0 { BlockMonotone(st.b, off + t - 1, off + size - 1); }
  }

  /** A stored byte of the indirect area can only be there if the table is. */
  lemma StoredMeansProbed(u: Fs, i: nat, k: nat)
    requires ByteAt(u, i, k) != Hole && i < |u.inodes|
    ensures u.inodes[i].indirect != 0 || BlockOf(u.b, k) < DIRECT_BLKS
  {
  }

  /** What has just been written reads back, whatever the position and however much was written. */
  lemma WriteThenRead(st: Fs, i: nat, buf: Bytes, off: nat, prev: nat, words: Words, words': Words)
    requires Writable(st, i, off, |buf|, words) && st.b > 0 && i < |st.inodes|
    ensures var (u, t) := WriteFile(st, i, buf, off, prev, words);
            t <= |buf| && i < |u.inodes| && ReadFile(u, i, t, off, words') == Read(buf[..t])
  {
    var r := WriteFileMeaning(st, i, buf, off, prev, words);
    var (u, t) := r;
    ReadBack(st, i, buf, off, u, t, words, words');
  }
}

// Writes that do not store what they report: into the indirect part of a file whose indirect table
// is missing, and past the last block number (src/chisai-core/fs.c, fs_find_blk and fs_write_file).
module Crossing {
  import opened Codec
  import opened FileIO
  import opened FileMap
  import opened Invariant
  import opened Pools
  import opened Progress
  import opened State

  // ---------- splitting a write at a block boundary ----------

  lemma HeadRound(b: nat, off: nat, head: nat, size: nat)
    requires b > 0 && 0 < head <= size && OffsetIn(b, off + head) == 0
    ensures Chunk(b, off, head) == Chunk(b, off, size) == b - OffsetIn(b, off) <= head
  {
    OffsetBelow(b, off);
    SameBlock(b, off, off + head);
  }

  /**
   * A write behaves like one of its head up to a block boundary alone if that stops early, and
   * otherwise goes on from there, with the head's last block in its variable.
   */
  lemma {:induction false} LoopSplits(st: Fs, i: nat, buf: Bytes, off: nat, prev: nat, words: Words, head: nat)
    returns (p: (Fs, nat), d: nat)
    requires st.b > 0 && 0 < head <= |buf| && OffsetIn(st.b, off + head) == 0
    requires Writable(st, i, off, head, words)
    ensures p == WriteLoop(st, i, buf[..head], off, prev, words) && p.1 <= head && d != 0
    ensures p.1 < head ==> WriteLoop(st, i, buf, off, prev, words) == p
    ensures p.1 == head ==>
              var q := WriteLoop(p.0, i, buf[head..], off + head, d, words);
              WriteLoop(st, i, buf, off, prev, words) == (q.0, head + q.1)
    decreases |buf|
  {
    hide Writable, Round, RoundDone, RoundMaps, Prepare, WriteLoop, BlockOf, OffsetIn;
    var front := buf[..head];
    p, d := WriteLoop(st, i, front, off, prev, words), 1;
    if Prepare(st, i, off, prev, words(off)).1 == ENOMEM {
      StopsAtOnce(st, i, front, off, prev, words, head);
      StopsAtOnce(st, i, buf, off, prev, words, head);
    } else {
      HeadRound(st.b, off, head, |buf|);
      var w, m, e := FirstRound(st, i, front, off, prev, words);
      SameRound(st, i, buf, head, off, prev, words);
      PreparedNotZero(st, i, off, head, prev, words);
      WriteLoopUnfold(st, i, front, off, m, w, e, prev, words);
      WriteLoopUnfold(st, i, buf, off, m, w, e, prev, words);
      if w == head {
        NothingLeft(m, i, front[w..], off + w, e, words);
        d := e;
      } else {
        assert buf[w..][..head - w] == front[w..] && buf[w..][head - w..] == buf[head..];
        assert off + w + (head - w) == off + head;
        var p', d' := LoopSplits(m, i, buf[w..], off + w, e, words, head - w);
        d := d';
      }
    }
  }

  lemma StopsAtOnce(st: Fs, i: nat, buf: Bytes, off: nat, prev: nat, words: Words, head: nat)
    requires st.b > 0 && buf != [] && Prepare(st, i, off, prev, words(off)).1 == ENOMEM
    requires head > 0 && Writable(st, i, off, head, words)
    ensures WriteLoop(st, i, buf, off, prev, words) == (st, 0)
  {
    RoundIsSafe(st, i, off, head, words);
    PrepareMeaning(st, i, off, prev, words(off));
  }

  lemma PreparedNotZero(st: Fs, i: nat, off: nat, head: nat, prev: nat, words: Words)
    requires st.b > 0 && head > 0 && Writable(st, i, off, head, words)
    requires Prepare(st, i, off, prev, words(off)).1 != ENOMEM
    ensures Prepare(st, i, off, prev, words(off)).2 != 0
  {
    RoundIsSafe(st, i, off, head, words);
    PrepareMeaning(st, i, off, prev, words(off));
  }

  lemma SameRound(st: Fs, i: nat, buf: Bytes, head: nat, off: nat, prev: nat, words: Words)
    requires st.b > 0 && head <= |buf| && Chunk(st.b, off, head) == Chunk(st.b, off, |buf|)
    ensures Round(st, i, buf[..head], off, prev, words) == Round(st, i, buf, off, prev, words)
  {
    var w := Chunk(st.b, off, head);
    assert buf[..head][..w] == buf[..w];
  }

  // ---------- block numbers that are skipped ----------

  /** No entry of the table in block `t` names the table itself. */
  predicate TableSafe(b: nat, blocks: seq<Bytes>, t: nat) {
    t < |blocks| && |blocks[t]| == b && forall k: nat :: k < b / 4 ==> Entry(blocks[t], k) != t
  }

  /**
   * Block number `n` of the indirect part is a hole, and writing behind it will leave it one. (This
   * does not ask for the invariant, which a write through a word from behind the device can break.)
   */
  ghost predicate Skipped(st: Fs, i: nat, n: nat) {
    match st
    case Fs(b, _, _, _, _, _, _) =>
      && b > 0 && Shape(st) && HintsLive(st.dpool) && i < |st.inodes| && Ref(st, i, n) == 0
      && var t := st.inodes[i].indirect;
         t != 0 ==> InUse(st.dpool, t) && TableSafe(b, st.blocks, t)
  }

  lemma PutElsewhere(st: Fs, i: nat, n: nat, d: nat, o: nat, data: Bytes)
    requires Skipped(st, i, n) && DIRECT_BLKS <= n < TableSlot(st.b)
    requires st.inodes[i].indirect == 0 || d != st.inodes[i].indirect
    ensures Skipped(PutBlock(st, d, o, data), i, n)
  {
    PutBlockShape(st, d, o, data);
  }

  lemma AllocSkips(st: Fs, i: nat, n: nat)
    requires Skipped(st, i, n)
    ensures var (u, d) := DataAlloc(st);
            && Skipped(u, i, n) && u.inodes == st.inodes && u.blocks == st.blocks && u.b == st.b
            && d < |st.blocks| && (d == 0 ==> u == st)
            && (d != 0 ==> InUse(u.dpool, d) && (st.inodes[i].indirect != 0 ==> d != st.inodes[i].indirect))
  {
    DataAllocMeaning(st);
  }

  lemma EnterElsewhere(st: Fs, i: nat, n: nat, m: nat, d: nat)
    requires Skipped(st, i, n) && DIRECT_BLKS <= n < TableSlot(st.b) && DIRECT_BLKS <= m < TableSlot(st.b) && m != n
    requires st.inodes[i].indirect != 0 && d != st.inodes[i].indirect && d < |st.blocks|
    ensures Skipped(PutEntry(st, st.inodes[i].indirect, m - DIRECT_BLKS, d), i, n)
  {
    var t := st.inodes[i].indirect;
    BoundsAre();
    PutBlockShape(st, t, 4 * (m - DIRECT_BLKS), ToLE(4, d));
    var u := PutEntry(st, t, m - DIRECT_BLKS, d);
    forall k: nat | k < st.b / 4
      ensures Entry(u.blocks[t], k) != t
      ensures k == n - DIRECT_BLKS ==> Entry(u.blocks[t], k) == 0
    {
      EntryAfterSet(st.blocks[t], m - DIRECT_BLKS, d, k);
      assert u.blocks[t] == SetEntry(st.blocks[t], m - DIRECT_BLKS, d);
      assert Entry(st.blocks[t], k) != t;
    }
  }

  /** A new table has no entries, so all of the indirect part is skipped at first. */
  lemma NewTableSkips(st: Fs, i: nat, t: nat, n: nat)
    requires Shape(st) && HintsLive(st.dpool) && i < |st.inodes| && 0 < t < |st.blocks| && InUse(st.dpool, t)
    requires DIRECT_BLKS <= n < TableSlot(st.b)
    ensures Skipped(NewTable(st, i, t), i, n)
    ensures NewTable(st, i, t).b == st.b && |NewTable(st, i, t).blocks| == |st.blocks|
    ensures i < |NewTable(st, i, t).inodes| && NewTable(st, i, t).inodes[i].indirect == t
  {
    NewTableShape(st, i, t);
    forall k: nat | k < st.b / 4
      ensures Entry(ZeroFill(st.blocks[t], st.b / 4), k) == 0
    {
      ZeroFillClears(st.blocks[t], st.b / 4, k);
    }
  }

  /** Allocating for another block number of the indirect part keeps the skipped one a hole. */
  lemma AllocElsewhere(st: Fs, i: nat, n: nat, off: nat)
    requires Skipped(st, i, n) && DIRECT_BLKS <= n < TableSlot(st.b)
    requires DIRECT_BLKS <= BlockOf(st.b, off) < TableSlot(st.b) && BlockOf(st.b, off) != n
    ensures var (u, e, d) := AllocBlk(st, i, off);
            && Skipped(u, i, n) && u.b == st.b && (e == OK || e == ENOMEM)
            && (e == OK ==> u.inodes[i].indirect != 0 && d != u.inodes[i].indirect)
  {
    hide Skipped, Shape, HintsLive, AllocBlk, Ref, InUse;
    var m := BlockOf(st.b, off);
    SkippedIsInode(st, i, n);
    AllocSkips(st, i, n);
    var (st1, d) := DataAlloc(st);
    if d == 0 {
      AllocNothing(st, i, off);
    } else {
      AllocUnfold(st, i, off);
      var base := if st.inodes[i].indirect == 0 then NewTable(st1, i, d) else st;
      if st.inodes[i].indirect == 0 {
        SkippedIsInode(st1, i, n);
        NewTableSkips(st1, i, d, n);
      }
      AllocSkips(base, i, n);
      var (st2, e) := DataAlloc(base);
      EnterElsewhere(st2, i, n, m, e);
      PutKeepsInodes(st2, st2.inodes[i].indirect, m - DIRECT_BLKS, e);
    }
  }

  lemma PutKeepsInodes(st: Fs, d: nat, k: nat, v: nat)
    ensures PutEntry(st, d, k, v).inodes == st.inodes && PutEntry(st, d, k, v).b == st.b
  {
  }

  lemma SkippedIsInode(st: Fs, i: nat, n: nat)
    requires Skipped(st, i, n)
    ensures i < |st.inodes| && st.b > 0 && Shape(st) && HintsLive(st.dpool) && Ref(st, i, n) == 0
  {
  }

  lemma AllocNothing(st: Fs, i: nat, off: nat)
    requires DataAlloc(st) == (st, 0)
    ensures AllocBlk(st, i, off) == (st, ENOMEM, 0)
  {
  }

  /** A round at a later block number. */
  lemma SkippedRound(st: Fs, i: nat, n: nat, off: nat, o: nat, data: Bytes, prev: nat, word: nat)
    requires Skipped(st, i, n) && DIRECT_BLKS <= n < TableSlot(st.b)
    requires DIRECT_BLKS <= BlockOf(st.b, off) < TableSlot(st.b) && BlockOf(st.b, off) != n
    ensures var (m, e, d) := Prepare(st, i, off, prev, word);
            Skipped(m, i, n) && Skipped(PutBlock(m, d, o, data), i, n) && m.b == st.b
  {
    var (m, e, d) := Prepare(st, i, off, prev, word);
    FoundElsewhere(st, i, n, off, word);
    hide Skipped, FindBlk, AllocBlk, PutBlock, BlockOf;
    if FindBlk(st, i, off, word).0 == ENOENT {
      AllocElsewhere(st, i, n, off);
      if e == OK { PutElsewhere(m, i, n, d, o, data); } else { FailedAlloc(st, i, n, off, o, data); }
    } else {
      PutElsewhere(st, i, n, d, o, data);
    }
  }

  lemma FailedAlloc(st: Fs, i: nat, n: nat, off: nat, o: nat, data: Bytes)
    requires Skipped(st, i, n) && DIRECT_BLKS <= n < TableSlot(st.b) && BlockOf(st.b, off) < TableSlot(st.b)
    requires AllocBlk(st, i, off).1 == ENOMEM
    ensures Skipped(PutBlock(AllocBlk(st, i, off).0, AllocBlk(st, i, off).2, o, data), i, n)
  {
    AllocSkips(st, i, n);
    ZeroFree(st.dpool);
    PutElsewhere(st, i, n, 0, o, data);
  }

  lemma FoundElsewhere(st: Fs, i: nat, n: nat, off: nat, word: nat)
    requires Skipped(st, i, n) && DIRECT_BLKS <= BlockOf(st.b, off) < TableSlot(st.b)
    ensures var (e, d) := FindBlk(st, i, off, word);
            && (e == OK || e == ENOENT) && i < |st.inodes|
            && (e == OK ==> st.inodes[i].indirect == 0 || d != st.inodes[i].indirect)
  {
  }

  /** Whatever else a write does behind a skipped block number, it leaves it a hole. */
  lemma {:induction false} SkippedStays(st: Fs, i: nat, n: nat, buf: Bytes, off: nat, prev: nat, words: Words)
    requires Skipped(st, i, n) && DIRECT_BLKS <= n < TableSlot(st.b) && st.b > 0
    requires InReach(st.b, off, |buf|) && n < BlockOf(st.b, off)
    ensures Ref(WriteLoop(st, i, buf, off, prev, words).0, i, n) == 0
    ensures WriteLoop(st, i, buf, off, prev, words).0.b == st.b
    decreases |buf|
  {
    hide Skipped, Ref, Prepare, PutBlock, OffsetIn, BlockOf, TableSlot;
    SkippedIsInode(st, i, n);
    if buf != [] {
      var w := Chunk(st.b, off, |buf|);
      BlockMonotone(st.b, off, off + |buf| - 1);
      var (m, e, d) := Prepare(st, i, off, prev, words(off));
      var data := buf[..w];
      SkippedRound(st, i, n, off, OffsetIn(st.b, off), data, prev, words(off));
      SkippedIsInode(m, i, n);
      if e != ENOMEM {
        BlockMonotone(st.b, off, off + w);
        var u := PutBlock(m, d, OffsetIn(st.b, off), data);
        PutKeepsSize(m, d, OffsetIn(st.b, off), data);
        assert w < |buf| ==> off + w + (|buf| - w) - 1 == off + |buf| - 1;
        SkippedStays(u, i, n, buf[w..], off + w, d, words);
      }
    }
  }

  lemma PutKeepsSize(st: Fs, d: nat, o: nat, data: Bytes)
    ensures PutBlock(st, d, o, data).b == st.b && PutBlock(st, d, o, data).inodes == st.inodes
  {
  }

  // ---------- into the indirect part without a table ----------

  /**
   * The round that reaches the indirect part without its table skips its block number, when the
   * load made for the table answers a word other than 0, or the table takes the last free block.
   */
  lemma FirstIsSkipped(m: Fs, i: nat, off: nat, o: nat, data: Bytes, prev: nat, word: nat)
    requires Inv(m) && HintsLive(m.dpool) && Live(m, i) && !IsDir(m.inodes[i]) && m.inodes[i].indirect == 0
    requires DIRECT_BLKS <= BlockOf(m.b, off) < TableSlot(m.b)
    requires word != 0 || Clear(m.dpool) == 1
    ensures var (v, e, d) := Prepare(m, i, off, prev, word);
            e != ENOMEM && Skipped(PutBlock(v, d, o, data), i, BlockOf(m.b, off)) && v.b == m.b
  {
    var n := BlockOf(m.b, off);
    if word != 0 {
      assert Skipped(m, i, n);
      PutElsewhere(m, i, n, word, o, data);
    } else {
      hide Trapped, Tabled, Skipped, AllocBlk, PutBlock, BlockOf;
      NoTableNoRef(m, i, n);
      var r := AllocBlkAddsBinding(m, i, off);
      TrapSkips(m, r.0, i, n);
      PutElsewhere(r.0, i, n, 0, o, data);
    }
  }

  lemma TrapSkips(st: Fs, u: Fs, i: nat, n: nat)
    requires Trapped(st, u, i) && Live(st, i) && st.inodes[i].indirect == 0 && DIRECT_BLKS <= n < TableSlot(st.b)
    ensures Skipped(u, i, n) && u.b == st.b && u.inodes[i].indirect != 0
  {
    var t := u.inodes[i].indirect;
    forall k: nat | k < st.b / 4
      ensures Entry(u.blocks[t], k) == 0
    {
      assert Ref(u, i, k + DIRECT_BLKS) == Ref(st, i, k + DIRECT_BLKS) == 0;
    }
  }

  /** From such a round on, the position it was made for is a hole, although it is reported. */
  lemma SkippedFromHere(m: Fs, i: nat, buf: Bytes, off: nat, prev: nat, words: Words)
    requires Inv(m) && HintsLive(m.dpool) && Live(m, i) && !IsDir(m.inodes[i]) && m.inodes[i].indirect == 0
    requires m.b > 0 && buf != [] && DIRECT_BLKS <= BlockOf(m.b, off) && InReach(m.b, off, |buf|)
    requires words(off) != 0 || Clear(m.dpool) == 1
    ensures var (u, t) := WriteLoop(m, i, buf, off, prev, words);
            t > 0 && ByteAt(u, i, off) == Hole && u.b == m.b
  {
    hide Inv, Skipped, Prepare, PutBlock, OffsetIn, BlockOf, TableSlot, ByteAt, Ref, HintsLive, Live, WriteLoop, Clear;
    var w, n := Chunk(m.b, off, |buf|), BlockOf(m.b, off);
    BlockMonotone(m.b, off, off + |buf| - 1);
    var (v, e, d) := Prepare(m, i, off, prev, words(off));
    var data := buf[..w];
    FirstIsSkipped(m, i, off, OffsetIn(m.b, off), data, prev, words(off));
    var u := PutBlock(v, d, OffsetIn(m.b, off), data);
    PutKeepsSize(v, d, OffsetIn(m.b, off), data);
    WriteLoopUnfold(m, i, buf, off, u, w, d, prev, words);
    RestSkipped(u, i, n, buf[w..], off, w, |buf|, d, words);
    NoBlockNoByte(WriteLoop(m, i, buf, off, prev, words).0, i, off);
  }

  lemma RestSkipped(u: Fs, i: nat, n: nat, rest: Bytes, off: nat, w: nat, size: nat, d: nat, words: Words)
    requires u.b > 0 && Skipped(u, i, n) && DIRECT_BLKS <= n == BlockOf(u.b, off) && size > 0
    requires w == Chunk(u.b, off, size) && |rest| == size - w && InReach(u.b, off, size)
    ensures Ref(WriteLoop(u, i, rest, off + w, d, words).0, i, n) == 0
    ensures WriteLoop(u, i, rest, off + w, d, words).0.b == u.b
  {
    hide Skipped, Ref, WriteLoop, BlockOf, OffsetIn;
    BlockMonotone(u.b, off, off + size - 1);
    if w < size {
      NextRound(u.b, off);
      assert off + w + (size - w) - 1 == off + size - 1;
      SkippedStays(u, i, n, rest, off + w, d, words);
    } else {
      NothingLeft(u, i, rest, off + w, d, words);
      SkippedIsInode(u, i, n);
    }
  }

  lemma NoBlockNoByte(u: Fs, i: nat, k: nat)
    requires Ref(u, i, BlockOf(u.b, k)) == 0
    ensures ByteAt(u, i, k) == Hole
  {
  }

  /** The free blocks suffice for the holes of the direct part, so the write comes to the indirect part. */
  predicate PassesDirect(st: Fs, i: nat, off: nat) {
    Holes(st, i, BlockOf(st.b, off), DIRECT_BLKS) <= Clear(st.dpool)
  }

  /** The range reaches into the indirect part of a file without an indirect table. */
  predicate Crosses(st: Fs, i: nat, off: nat, size: nat)
    requires i < |st.inodes|
  {
    size > 0 && st.inodes[i].indirect == 0 && off + size > DIRECT_BLKS * st.b
  }

  /**
   * A write within the size limit stores everything it reports exactly when it needs no new
   * indirect table, stops before it because the direct part used up the free blocks, or finds the
   * place of the table to read as 0 and more or fewer than one free block left for it. With exactly
   * one left, the table takes it, the unchecked second allocation answers 0, and the bytes that
   * follow are reported without a block to hold them.
   */
  lemma StoresReportedIff(st: Fs, i: nat, buf: Bytes, off: nat, prev: nat, words: Words)
    requires Inv(st) && HintsLive(st.dpool) && Live(st, i) && !IsDir(st.inodes[i]) && st.b > 0
    requires i < |st.inodes| && InReach(st.b, off, |buf|)
    ensures var (u, t) := WriteLoop(st, i, buf, off, prev, words);
            t <= |buf| && (Holds(u, i, off, buf[..t]) <==>
              (|| !Crosses(st, i, off, |buf|) || !PassesDirect(st, i, off)
               || (words(FirstProbe(st.b, off)) == 0
                   && Clear(st.dpool) != Holes(st, i, BlockOf(st.b, off), DIRECT_BLKS) + 1)))
  {
    hide Inv, WriteLoop, Holds, HintsLive, Holes, BlockOf, Live;
    CrossesMeaning(st, i, off, |buf|);
    ReportsNoMore(st, i, buf, off, prev, words);
    if Permitted(st, i, off, |buf|, words) {
      PermittedIsWritable(st, i, off, |buf|, words);
      var r := WrittenAtLeast(st, i, buf, off, prev, words, 0);
    } else if BlockOf(st.b, off) >= DIRECT_BLKS {
      BeyondDirect(st, i, off);
      SkippedFromHere(st, i, buf, off, prev, words);
      HoleInRange(WriteLoop(st, i, buf, off, prev, words).0, i, off,
        buf[..WriteLoop(st, i, buf, off, prev, words).1], off);
    } else {
      PastTheHead(st, i, buf, off, prev, words, DIRECT_BLKS * st.b - off);
    }
  }

  lemma PermittedIsWritable(st: Fs, i: nat, off: nat, size: nat, words: Words)
    requires Inv(st) && HintsLive(st.dpool) && Live(st, i) && !IsDir(st.inodes[i]) && st.b > 0
    requires Permitted(st, i, off, size, words)
    ensures Writable(st, i, off, size, words)
  {
  }

  /** In terms of block numbers. */
  lemma CrossesMeaning(st: Fs, i: nat, off: nat, size: nat)
    requires st.b > 0 && i < |st.inodes|
    ensures size > 0 ==> (off + size > DIRECT_BLKS * st.b <==> BlockOf(st.b, off + size - 1) >= DIRECT_BLKS)
    ensures off < DIRECT_BLKS * st.b <==> BlockOf(st.b, off) < DIRECT_BLKS
  {
    if size > 0 { BlockAtLeast(st.b, DIRECT_BLKS, off + size - 1); }
    BlockAtLeast(st.b, DIRECT_BLKS, off);
  }

  lemma BeyondDirect(st: Fs, i: nat, off: nat)
    requires BlockOf(st.b, off) >= DIRECT_BLKS
    ensures Holes(st, i, BlockOf(st.b, off), DIRECT_BLKS) == 0
  {
  }

  lemma HoleInRange(u: Fs, i: nat, off: nat, data: Bytes, k: nat)
    requires off <= k < off + |data| && ByteAt(u, i, k) == Hole
    ensures !Holds(u, i, off, data)
  {
  }

  /** A write that crosses, and either reads a word other than 0 for the table or leaves one block for it. */
  lemma PastTheHead(st: Fs, i: nat, buf: Bytes, off: nat, prev: nat, words: Words, head: nat)
    requires Inv(st) && HintsLive(st.dpool) && Live(st, i) && !IsDir(st.inodes[i]) && st.b > 0
    requires i < |st.inodes| && st.inodes[i].indirect == 0 && InReach(st.b, off, |buf|)
    requires 0 < head < |buf| && off + head == DIRECT_BLKS * st.b
    requires words(off + head) != 0 || Clear(st.dpool) == Holes(st, i, BlockOf(st.b, off), DIRECT_BLKS) + 1
    ensures var (u, t) := WriteLoop(st, i, buf, off, prev, words);
            t <= |buf| && (Holds(u, i, off, buf[..t]) <==> !PassesDirect(st, i, off))
  {
    hide Inv, WriteLoop, Holds, Holes, BlockOf, Writable, HintsLive, Live, Spent;
    HeadWritable(st, i, off, head, words);
    ReportsNoMore(st, i, buf, off, prev, words);
    var p := WrittenAtLeast(st, i, buf[..head], off, prev, words, head);
    SpentInHead(st, i, off, head);
    BlockStart(st.b, DIRECT_BLKS);
    var q, d := LoopSplits(st, i, buf, off, prev, words, head);
    assert p.1 < head ==> buf[..head][..p.1] == buf[..p.1];
    if p.1 == head {
      AfterHead(st, i, buf[..head], off, prev, words, p);
      assert p.0.inodes[i].indirect == 0;
      RestInReach(st.b, off, |buf|, head);
      SkippedFromHere(p.0, i, buf[head..], off + head, d, words);
      HoleInRange(WriteLoop(st, i, buf, off, prev, words).0, i, off,
        buf[..WriteLoop(st, i, buf, off, prev, words).1], off + head);
    }
  }

  lemma HeadWritable(st: Fs, i: nat, off: nat, head: nat, words: Words)
    requires Inv(st) && HintsLive(st.dpool) && Live(st, i) && !IsDir(st.inodes[i]) && st.b > 0
    requires head > 0 && off + head == DIRECT_BLKS * st.b
    ensures Writable(st, i, off, head, words)
  {
    BlockAtLeast(st.b, DIRECT_BLKS, off + head - 1);
  }

  /** The direct part costs its holes. */
  lemma SpentInHead(st: Fs, i: nat, off: nat, head: nat)
    requires st.b > 0 && head > 0 && off + head == DIRECT_BLKS * st.b && i < |st.inodes|
    ensures Spent(st, i, off, head) == Holes(st, i, BlockOf(st.b, off), DIRECT_BLKS)
  {
    BlockAtLeast(st.b, DIRECT_BLKS, off + head - 1);
    BlockAtLeast(st.b, DIRECT_BLKS - 1, off + head - 1);
  }

  lemma RestInReach(b: nat, off: nat, size: nat, head: nat)
    requires InReach(b, off, size) && head < size
    ensures InReach(b, off + head, size - head)
  {
    assert off + head + (size - head) - 1 == off + size - 1;
  }

  /** What holds when the direct part of the write is done. */
  lemma AfterHead(st: Fs, i: nat, data: Bytes, off: nat, prev: nat, words: Words, p: (Fs, nat))
    requires st.b > 0 && Writable(st, i, off, |data|, words) && off + |data| == DIRECT_BLKS * st.b && data != []
    requires i < |st.inodes| && st.inodes[i].indirect == 0
    requires p == WriteLoop(st, i, data, off, prev, words) && p.1 == |data|
    ensures var m := p.0;
            && Inv(m) && HintsLive(m.dpool) && Live(m, i) && !IsDir(m.inodes[i]) && m.b == st.b
            && i < |m.inodes| && m.inodes[i].indirect == 0
            && Clear(m.dpool) == Clear(st.dpool) - Holes(st, i, BlockOf(st.b, off), DIRECT_BLKS)
  {
    hide Writable, WriteLoop, LoopDone, Inv, Spent, Holes, BlockOf, HintsLive, Live, IsDir, Clear;
    var l := WriteLoopMeaning(st, i, data, off, prev, words);
    var c := WriteLoopCost(st, i, data, off, prev, words);
    SpentInHead(st, i, off, |data|);
    StillLive(st, i, data, off, words, l);
    BlockAtLeast(st.b, DIRECT_BLKS, off + |data| - 1);
    MakesNoTable(st, i, data, off, prev, words);
  }

  lemma StillLive(st: Fs, i: nat, data: Bytes, off: nat, words: Words, p: (Fs, nat))
    requires Writable(st, i, off, |data|, words) && LoopDone(st, i, data, off, p)
    ensures var m := p.0;
            Inv(m) && HintsLive(m.dpool) && Live(m, i) && i < |m.inodes| && !IsDir(m.inodes[i]) && m.b == st.b
  {
  }

  /** Writing in the direct part makes no indirect table. */
  lemma {:induction false} MakesNoTable(st: Fs, i: nat, buf: Bytes, off: nat, prev: nat, words: Words)
    requires Writable(st, i, off, |buf|, words) && st.b > 0 && i < |st.inodes| && st.inodes[i].indirect == 0
    requires buf != [] ==> BlockOf(st.b, off + |buf| - 1) < DIRECT_BLKS
    ensures var u := WriteLoop(st, i, buf, off, prev, words).0; i < |u.inodes| && u.inodes[i].indirect == 0
    decreases |buf|
  {
    hide Prepare, Round, LoopDone, RoundDone, Writable, WriteLoop, BlockOf, OffsetIn;
    if buf == [] || Prepare(st, i, off, prev, words(off)).1 == ENOMEM {
      DoneWithoutRound(st, i, buf, off, prev, words);
    } else {
      var w, m, d := FirstRound(st, i, buf, off, prev, words);
      RoundMeaning(st, i, buf, off, prev, words);
      WriteLoopUnfold(st, i, buf, off, m, w, d, prev, words);
      BlockMonotone(st.b, off, off + |buf| - 1);
      assert w < |buf| ==> off + w + (|buf| - w) - 1 == off + |buf| - 1;
      MakesNoTable(m, i, buf[w..], off + w, d, words);
    }
  }

  // ---------- past the last block number ----------

  /** The two states differ at most in the contents of block `d`. */
  ghost predicate OnlyBlock(st: Fs, u: Fs, d: nat) {
    && u == st.(blocks := u.blocks) && |u.blocks| == |st.blocks|
    && forall e: nat :: e != d ==> BlockAt(u, e) == BlockAt(st, e)
  }

  /**
   * The loop does not stop when the search answers that a position is out of reach: every further
   * round stores into the last block it had, and all bytes are reported as written.
   */
  lemma {:induction false} StuckLoop(st: Fs, i: nat, buf: Bytes, off: nat, d: nat, words: Words)
    requires st.b > 0 && BlockOf(st.b, off) >= TableSlot(st.b)
    ensures var (u, t) := WriteLoop(st, i, buf, off, d, words);
            t == |buf| && OnlyBlock(st, u, d)
    decreases |buf|
  {
    hide Prepare, PutBlock, BlockOf, OffsetIn, TableSlot, BlockAt, WriteLoop, OnlyBlock;
    if buf == [] {
      NothingLeft(st, i, buf, off, d, words);
      SameOutside(st, d, 0, []);
    } else {
      var w := Chunk(st.b, off, |buf|);
      var m := PutBlock(st, d, OffsetIn(st.b, off), buf[..w]);
      OutOfReach(st, i, off, d, words(off));
      BlockMonotone(st.b, off, off + w);
      SameOutside(st, d, OffsetIn(st.b, off), buf[..w]);
      StuckLoop(m, i, buf[w..], off + w, d, words);
      WriteLoopUnfold(st, i, buf, off, m, w, d, d, words);
      OutsideTwice(st, m, WriteLoop(st, i, buf, off, d, words).0, d);
    }
  }

  lemma OutOfReach(st: Fs, i: nat, off: nat, d: nat, word: nat)
    requires BlockOf(st.b, off) >= TableSlot(st.b)
    ensures Prepare(st, i, off, d, word) == (st, CORRUPT, d)
  {
  }

  lemma SameOutside(st: Fs, d: nat, o: nat, data: Bytes)
    ensures OnlyBlock(st, PutBlock(st, d, o, data), d) && OnlyBlock(st, st, d) && PutBlock(st, d, o, data).b == st.b
  {
  }

  lemma OutsideTwice(st: Fs, m: Fs, u: Fs, d: nat)
    requires OnlyBlock(st, m, d) && OnlyBlock(m, u, d)
    ensures OnlyBlock(st, u, d)
  {
  }

  /**
   * A write that starts within the size limit and goes past it stores everything it reports exactly
   * when the free blocks run out before the limit; otherwise the bytes past the limit are reported
   * although they have only overwritten the last block. (Up to the limit it must be a write that
   * stores what it reports.)
   */
  lemma OverLimitIff(st: Fs, i: nat, buf: Bytes, off: nat, prev: nat, words: Words, head: nat)
    requires st.b > 0 && i < |st.inodes|
    requires 0 < head < |buf| && off + head == TableSlot(st.b) * st.b
    requires Writable(st, i, off, head, words)
    ensures var (u, t) := WriteLoop(st, i, buf, off, prev, words);
            t <= |buf| && (Holds(u, i, off, buf[..t]) <==> Clear(st.dpool) < Spent(st, i, off, head))
  {
    hide Writable, WriteLoop, Holds, Spent, OnlyBlock, TableSlot, BlockOf;
    ReportsNoMore(st, i, buf, off, prev, words);
    var p := WrittenAtLeast(st, i, buf[..head], off, prev, words, head);
    BlockStart(st.b, TableSlot(st.b));
    var q, d := LoopSplits(st, i, buf, off, prev, words, head);
    assert p.1 < head ==> buf[..head][..p.1] == buf[..p.1];
    if p.1 == head {
      StuckLoop(p.0, i, buf[head..], off + head, d, words);
      OnlyBlockSize(p.0, WriteLoop(p.0, i, buf[head..], off + head, d, words).0, d);
      BeyondIsHole(WriteLoop(st, i, buf, off, prev, words).0, i, off + head);
      HoleInRange(WriteLoop(st, i, buf, off, prev, words).0, i, off,
        buf[..WriteLoop(st, i, buf, off, prev, words).1], off + head);
    }
  }

  lemma OnlyBlockSize(st: Fs, u: Fs, d: nat)
    requires OnlyBlock(st, u, d)
    ensures u.b == st.b
  {
  }

  lemma BeyondIsHole(u: Fs, i: nat, k: nat)
    requires BlockOf(u.b, k) >= TableSlot(u.b)
    ensures ByteAt(u, i, k) == Hole
  {
  }

  /**
   * Reading past the last block number never succeeds: the loop answers CORRUPT when it gets there,
   * and ENOENT when it meets a hole before.
   */
  lemma {:induction false} ReadPastLimit(st: Fs, i: nat, size: nat, off: nat, words: Words, head: nat)
    requires Inv(st) && Live(st, i) && st.b > 0 && i < |st.inodes|
    requires head < size && off + head == TableSlot(st.b) * st.b && ProbeSafe(st, i, off, head, words)
    ensures ReadLoop(st, i, size, off, words) == Failed(if AllStored(st, i, off, head) then CORRUPT else ENOENT)
    decreases size
  {
    hide Inv, Live, ProbeSafe, InReach, ByteAt, FindBlk, Head, Holds, BlockOf, OffsetIn, TableSlot;
    BlockStart(st.b, TableSlot(st.b));
    if head == 0 {
      SearchPastLimit(st, i, off, words(off));
    } else {
      LastBelow(st.b, off, head);
      HeadRound(st.b, off, head, size);
      ReadRound(st, i, head, off, words);
      var w := Chunk(st.b, off, head);
      var (e, d) := FindBlk(st, i, off, words(off));
      if e == OK {
        ReadMore(st, i, off, head, w, Head(st, d, off, head));
        assert off + w + (head - w) == off + head;
        ReadPastLimit(st, i, size - w, off + w, words, head - w);
      }
    }
  }

  lemma SearchPastLimit(st: Fs, i: nat, off: nat, word: nat)
    requires BlockOf(st.b, off) >= TableSlot(st.b)
    ensures FindBlk(st, i, off, word) == (CORRUPT, 0)
  {
  }

  lemma LastBelow(b: nat, off: nat, head: nat)
    requires b > 0 && head > 0 && off + head == TableSlot(b) * b
    ensures InReach(b, off, head)
  {
    BlockAtLeast(b, TableSlot(b), off + head - 1);
  }
}

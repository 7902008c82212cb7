// Files that are open: the code works on a copy of the inode held in memory and stores it at the
// end, while the specification works on the inode of the device.
module Handles {
  import opened Codec
  import opened FileIO
  import opened FileMap
  import opened Invariant
  import opened Layout
  import opened Pools
  import opened State
  import opened Truncate

  // ---------- the copy held in memory ----------

  /** Only the last copy held counts. */
  lemma HeldTwice(st: Fs, i: nat, x: Inode, y: Inode)
    ensures SaveInode(SaveInode(st, i, x), i, y) == SaveInode(st, i, y)
    ensures i < |st.inodes| ==> st.inodes[i := x][i := y] == st.inodes[i := y]
  {
    if i < |st.inodes| {
      assert st.inodes[i := x][i := y] == st.inodes[i := y];
    }
  }

  lemma HeldNow(st: Fs, i: nat)
    requires i < |st.inodes|
    ensures SaveInode(st, i, st.inodes[i]) == st
  {
    assert st.inodes[i := st.inodes[i]] == st.inodes;
  }

  lemma HeldAgain(st: Fs, i: nat, x: Inode)
    requires i < |st.inodes|
    ensures |SaveInode(st, i, x).inodes| == |st.inodes| && SaveInode(st, i, x).inodes[i] == x
    ensures forall y: Inode :: SaveInode(SaveInode(st, i, x), i, y) == SaveInode(st, i, y)
  {
    forall y: Inode
      ensures SaveInode(SaveInode(st, i, x), i, y) == SaveInode(st, i, y)
    {
      HeldTwice(st, i, x, y);
    }
  }

  lemma HeldPut(st: Fs, i: nat, x: Inode, d: nat, o: nat, data: Bytes)
    ensures SaveInode(PutBlock(st, d, o, data), i, x) == PutBlock(SaveInode(st, i, x), d, o, data)
    ensures |SaveInode(st, i, x).blocks| == |st.blocks| && SaveInode(st, i, x).b == st.b
  {
    hide Splice;
  }

  function Zeroed(st: Fs, d: nat): (u: Fs) {
    if d < |st.blocks| then st.(blocks := st.blocks[d := ZeroFill(st.blocks[d], st.b / 4)]) else st
  }

  /** fs_alloc_blk changes the held inode in memory and the rest on the device. */
  function AllocHeld(st: Fs, i: nat, x: Inode, n: nat): (r: (Fs, Error, nat, Inode)) {
    var (st1, d) := DataAlloc(st);
    if d == 0 then (st1, ENOMEM, 0, x)
    else if n < DIRECT_BLKS then (st1, OK, d, x.(direct := x.direct[n := d]))
    else if n >= TableSlot(st.b) then (st1, CORRUPT, d, x)
    else if x.indirect == 0 then
      var (st2, e) := DataAlloc(Zeroed(st1, d));
      (PutEntry(st2, d, n - DIRECT_BLKS, e), OK, e, x.(indirect := d))
    else (PutEntry(st1, x.indirect, n - DIRECT_BLKS, d), OK, d, x)
  }

  lemma HeldAlloc(st: Fs, i: nat, x: Inode, off: nat)
    requires i < |st.inodes| && DataAlloc(st).1 < |st.blocks|
    ensures var (u, e, d, y) := AllocHeld(st, i, x, BlockOf(st.b, off));
            FileMap.AllocBlk(SaveInode(st, i, x), i, off) == (SaveInode(u, i, y), e, d)
  {
    hide Alloc, ZeroFill, BlockOf, Splice, U32, ToLE;
    var (u, e, d, y) := AllocHeld(st, i, x, BlockOf(st.b, off));
    HeldTwice(st, i, x, y);
    assert SaveInode(st, i, x).inodes[i] == x;
    assert FileMap.AllocBlk(SaveInode(st, i, x), i, off).0.inodes == SaveInode(u, i, y).inodes;
  }

  // ---------- writing ----------

  lemma HeldIsReady(st: Fs, i: nat, x: Inode, off: nat, size: nat, words: Words)
    requires i < |st.inodes| && |st.inodes| == |st.blocks| && Writable(SaveInode(st, i, x), i, off, size, words)
    ensures x.indirect < |st.blocks| && HintsLive(st.dpool)
  {
    assert Ref(SaveInode(st, i, x), i, TableSlot(st.b)) == x.indirect;
    if x.indirect != 0 { InUseInRange(st.dpool, x.indirect); }
  }

  /** The block a permitted round writes to exists; without one nothing changes. */
  lemma PreparedSlot(st: Fs, i: nat, off: nat, size: nat, prev: nat, words: Words)
    requires Writable(st, i, off, size, words) && size > 0
    ensures var (u, e, d) := Prepare(st, i, off, prev, words(off));
            && |u.blocks| == |st.blocks| && (e == ENOMEM ==> u == st) && (e != ENOMEM ==> 0 < d < |st.blocks|)
  {
    RoundIsSafe(st, i, off, size, words);
    PrepareMeaning(st, i, off, prev, words(off));
  }

  /** One unfolding of the specified loop, in terms of what a round leaves. */
  lemma RoundOfLoop(st: Fs, m: Fs, i: nat, buf: Bytes, off: nat, prev: nat, words: Words,
      w: nat, d: nat)
    requires Writable(st, i, off, |buf|, words) && st.b > 0 && buf != []
    ensures Prepare(st, i, off, prev, words(off)).1 == ENOMEM ==> WriteLoop(st, i, buf, off, prev, words) == (st, 0)
    ensures Prepare(st, i, off, prev, words(off)).1 != ENOMEM && m == Round(st, i, buf, off, prev, words)
            && w == Chunk(st.b, off, |buf|) && d == Prepare(st, i, off, prev, words(off)).2 ==>
              && Writable(m, i, off + w, |buf[w..]|, words)
              && var (u, t) := WriteLoop(m, i, buf[w..], off + w, d, words);
                 WriteLoop(st, i, buf, off, prev, words) == (u, w + t)
  {
    hide Writable, Prepare, Round, WriteLoop, BlockOf, RoundDone;
    if Prepare(st, i, off, prev, words(off)).1 == ENOMEM {
      DoneWithoutRound(st, i, buf, off, prev, words);
    } else {
      var w', m', d' := FirstRound(st, i, buf, off, prev, words);
      WriteLoopUnfold(st, i, buf, off, m', w', d', prev, words);
    }
  }

  /** The inode a write stores has fields of the right width. */
  lemma WrittenInode(st: Fs, i: nat, buf: Bytes, off: nat, prev: nat, words: Words)
    requires Writable(st, i, off, |buf|, words) && i < |st.inodes|
    ensures i != 0
    ensures var (u, total) := WriteLoop(st, i, buf, off, prev, words);
            i < |u.inodes| && SetSize(u.inodes[i], NewSize(st.inodes[i].size, off, total)).Valid()
  {
    var r := WriteLoopMeaning(st, i, buf, off, prev, words);
    RoundInReach(st, i, off, |buf|, words);
    ReachIsShort(st.b, off, |buf|);
  }

  // ---------- reading ----------

  /** What a read finds is a block of the device. */
  lemma FoundSlot(st: Fs, i: nat, size: nat, off: nat, words: Words)
    requires Inv(st) && Live(st, i) && i < |st.inodes| && st.b > 0 && size > 0
    requires InReach(st.b, off, size) && ProbeSafe(st, i, off, size, words)
    ensures var (e, d) := FileMap.FindBlk(st, i, off, words(off));
            && (e == OK ==> 0 < d < |st.blocks|)
            && st.inodes[i].indirect < |st.blocks|
  {
    var n := BlockOf(st.b, off);
    BlockMonotone(st.b, off, off + size - 1);
    BlockAtLeast(st.b, DIRECT_BLKS, off);
    assert Ref(st, i, TableSlot(st.b)) == st.inodes[i].indirect;
    if st.inodes[i].indirect != 0 { InUseInRange(st.dpool, st.inodes[i].indirect); }
    FoundMeansRef(st, i, off, words(off));
    if Ref(st, i, n) != 0 { InUseInRange(st.dpool, Ref(st, i, n)); }
  }

  /** Bytes read so far, followed by what the rest of the loop reads. */
  function Prepend(head: Bytes, r: ReadResult): (q: ReadResult) {
    match r
    case Failed(e) => Failed(e)
    case Read(tail) => Read(head + tail)
  }

  lemma PrependNothing(r: ReadResult)
    ensures Prepend([], r) == r
  {
    if r.Read? { assert [] + r.data == r.data; }
  }

  lemma PrependJoin(a: Bytes, b: Bytes, r: ReadResult)
    ensures Prepend(a, Prepend(b, r)) == Prepend(a + b, r)
  {
    if r.Read? { assert a + (b + r.data) == a + b + r.data; }
  }

  /** One unfolding of the read loop. */
  lemma ReadUnfold(st: Fs, i: nat, size: nat, off: nat, words: Words, data: Bytes)
    requires Inv(st) && Live(st, i) && i < |st.inodes| && st.b > 0
    requires size > 0 ==> InReach(st.b, off, size) && ProbeSafe(st, i, off, size, words)
    ensures var (e, d) := FileMap.FindBlk(st, i, off, words(off));
            var r := Prepend(data, ReadLoop(st, i, size, off, words));
            && (size == 0 ==> r == Read(data))
            && (size > 0 && e != OK ==> r == Failed(e))
            && (size > 0 && e == OK ==>
                  var w := Chunk(st.b, off, size);
                  && InReach(st.b, off + w, size - w) && ProbeSafe(st, i, off + w, size - w, words)
                  && r == Prepend(data + Head(st, d, off, size), ReadLoop(st, i, size - w, off + w, words)))
  {
    hide Inv, InReach, ProbeSafe, FileMap.FindBlk, ByteAt, BlockOf;
    if size > 0 {
      ReadRound(st, i, size, off, words);
      var (e, d) := FileMap.FindBlk(st, i, off, words(off));
      if e == OK {
        var w := Chunk(st.b, off, size);
        PrependJoin(data, Head(st, d, off, size), ReadLoop(st, i, size - w, off + w, words));
      }
    }
  }

  // ---------- truncating ----------

  /** One round of the truncation loop on the copy held in memory. */
  lemma HeldDrop(st: Fs, i: nat, x: Inode, n: nat, keep: nat)
    requires i < |st.inodes| && keep <= n < DIRECT_BLKS
    ensures TruncateLoop(SaveInode(st, i, x), i, n + 1, keep) ==
            if x.direct[n] == 0 then (SaveInode(st, i, x), ABORT)
            else
              var y := x.(direct := x.direct[n := 0]);
              TruncateLoop(SaveInode(State.DataRelease(st, x.direct[n]), i, y), i, n, keep)
  {
    hide Release, U32;
    HeldTwice(st, i, x, x.(direct := x.direct[n := 0]));
    assert DropBlock(SaveInode(st, i, x), i, n) ==
        SaveInode(State.DataRelease(st, x.direct[n]), i, x.(direct := x.direct[n := 0]));
  }

  lemma TruncatedInode(st: Fs, i: nat, size: nat)
    requires Inv(st) && Live(st, i) && !IsDir(st.inodes[i]) && st.inodes[i].blkcnt <= DIRECT_BLKS
    requires size <= st.inodes[i].size
    ensures i != 0 && Live(st, i)
    ensures var (u, e) := TruncateLoop(st, i, st.inodes[i].blkcnt, BlockOf(st.b, size));
            (e == OK || e == ABORT) && (e == OK ==> i < |u.inodes| && SetSize(u.inodes[i], size).Valid())
  {
    var l := TruncateLoopMeaning(st, i, st.inodes[i].blkcnt, BlockOf(st.b, size));
  }
}

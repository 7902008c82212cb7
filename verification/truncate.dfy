// Cutting a file short (fs_truncate_file in src/chisai-core/fs.c).
module Truncate {
  import opened Align
  import opened Arith
  import opened Codec
  import opened FileIO
  import opened Invariant
  import opened Pools
  import opened State

  /** Release the block in direct slot `n` and clear the slot. */
  function DropBlock(st: Fs, i: nat, n: nat): (u: Fs)
    requires i < |st.inodes| && n < DIRECT_BLKS
  {
    var x := st.inodes[i];
    SaveInode(DataRelease(st, x.direct[n]), i, x.(direct := x.direct[n := 0]))
  }

  /** The loop from slot `n - 1` down to slot `keep`; it aborts on an empty slot. */
  function TruncateLoop(st: Fs, i: nat, n: nat, keep: nat): (r: (Fs, Error))
    decreases n
  {
    if n <= keep then (st, OK)
    else if i >= |st.inodes| || n > DIRECT_BLKS || st.inodes[i].direct[n - 1] == 0 then (st, ABORT)
    else TruncateLoop(DropBlock(st, i, n - 1), i, n - 1, keep)
  }

  /** fs_truncate_file, for a handle that agrees with the inode on the device. */
  function TruncateFile(st: Fs, i: nat, size: nat): (r: (Fs, Error))
    requires i < |st.inodes|
  {
    if st.inodes[i].size < size then (st, ABORT)
    else
      var (u, e) := TruncateLoop(st, i, st.inodes[i].blkcnt, BlockOf(st.b, size));
      if e != OK || i >= |u.inodes| then (u, ABORT) else (SaveInode(u, i, SetSize(u.inodes[i], size)), OK)
  }

  // ---------- one round ----------

  /** Slots in [keep, n) of file `i` are now holes whose blocks are free; nothing else changed. */
  ghost predicate Dropped(st: Fs, u: Fs, i: nat, n: nat, keep: nat) {
    && SameDevice(st, u) && u.ipool == st.ipool && u.freeInodes == st.freeInodes && u.blocks == st.blocks
        && i < |st.inodes|
    && SameKind(st.inodes[i], u.inodes[i]) && u.inodes[i].size == st.inodes[i].size
    && (forall s: nat :: Ref(u, i, s) == if keep <= s < n then 0 else Ref(st, i, s))
    && (forall j: nat :: Live(st, j) && j != i ==> Same(st, u, j))
    && (forall d: nat :: InUse(u.dpool, d) <==> InUse(st.dpool, d) && !Among(st, i, n, keep, d))
  }

  /** Block `d` is in one of the slots [keep, n). */
  ghost predicate Among(st: Fs, i: nat, n: nat, keep: nat, d: nat) {
    exists s: nat :: keep <= s < n && Ref(st, i, s) == d
  }

  lemma DropOne(st: Fs, i: nat, n: nat)
    requires Inv(st) && Live(st, i) && !IsDir(st.inodes[i]) && n < DIRECT_BLKS
    requires st.inodes[i].direct[n] != 0
    ensures Inv(DropBlock(st, i, n)) && Dropped(st, DropBlock(st, i, n), i, n + 1, n)
  {
    DropEffect(st, i, n);
    var u := DropBlock(st, i, n);
    BlockInvStep(st, u, i);
    TreeKept(st, u);
  }

  lemma DropEffect(st: Fs, i: nat, n: nat)
    requires Inv(st) && Live(st, i) && n < DIRECT_BLKS && st.inodes[i].direct[n] != 0
    ensures Shape(DropBlock(st, i, n)) && Dropped(st, DropBlock(st, i, n), i, n + 1, n)
    ensures forall j: nat, s: nat :: j != i ==> Ref(DropBlock(st, i, n), j, s) == Ref(st, j, s)
  {
    var d, u := st.inodes[i].direct[n], DropBlock(st, i, n);
    assert Ref(st, i, n) == d;
    ReleaseRemovesOne(st.dpool, 8 * st.b, d);
    DropShape(st, i, n);
    DropRefs(st, i, n);
    forall e: nat
      ensures InUse(u.dpool, e) <==> InUse(st.dpool, e) && !Among(st, i, n + 1, n, e)
    {
      AmongOne(st, i, n, e);
    }
  }

  lemma DropCounts(st: Fs, i: nat, n: nat)
    requires Inv(st) && Live(st, i) && n < DIRECT_BLKS && st.inodes[i].direct[n] != 0
    ensures var u := DropBlock(st, i, n);
            BlockDrift(u) == BlockDrift(st) && Clear(u.dpool) == Clear(st.dpool) + 1
  {
    assert Ref(st, i, n) == st.inodes[i].direct[n];
    ReleaseRemovesOne(st.dpool, 8 * st.b, st.inodes[i].direct[n]);
  }

  lemma DropShape(st: Fs, i: nat, n: nat)
    requires Shape(st) && i < |st.inodes| && n < DIRECT_BLKS && InUse(st.dpool, st.inodes[i].direct[n])
    ensures Shape(DropBlock(st, i, n)) && SameDevice(st, DropBlock(st, i, n))
  {
    var x, d := st.inodes[i], st.inodes[i].direct[n];
    ReleaseRemovesOne(st.dpool, 8 * st.b, d);
    SaveInodeShape(DataRelease(st, d), i, x.(direct := x.direct[n := 0]));
  }

  lemma DropRefs(st: Fs, i: nat, n: nat)
    requires i < |st.inodes| && n < DIRECT_BLKS
    ensures forall s: nat :: Ref(DropBlock(st, i, n), i, s) == if s == n then 0 else Ref(st, i, s)
    ensures forall j: nat, s: nat :: j != i ==> Ref(DropBlock(st, i, n), j, s) == Ref(st, j, s)
  {
  }

  lemma AmongOne(st: Fs, i: nat, n: nat, e: nat)
    ensures Among(st, i, n + 1, n, e) <==> Ref(st, i, n) == e
  {
    if Ref(st, i, n) == e { assert n <= n < n + 1; }
  }

  lemma DroppedNothing(st: Fs, i: nat, n: nat, keep: nat)
    requires n <= keep && i < |st.inodes|
    ensures Dropped(st, st, i, n, keep) && Mapped(st.inodes[i], keep, n)
  {
  }

  lemma DroppedThen(st: Fs, m: Fs, u: Fs, i: nat, n: nat, keep: nat)
    requires keep < n && Dropped(st, m, i, n, n - 1) && Dropped(m, u, i, n - 1, keep)
    ensures Dropped(st, u, i, n, keep)
  {
    forall j: nat | Live(st, j) && j != i
      ensures Same(st, u, j)
    {
      assert Live(m, j);
      SameTransitive(st, m, u, j);
    }
    forall d: nat
      ensures Among(st, i, n, keep, d) <==> Among(st, i, n, n - 1, d) || Among(m, i, n - 1, keep, d)
    {
      if Among(st, i, n, keep, d) {
        var s: nat :| keep <= s < n && Ref(st, i, s) == d;
        if s < n - 1 { assert Ref(m, i, s) == d; }
      }
      if Among(m, i, n - 1, keep, d) {
        var s: nat :| keep <= s < n - 1 && Ref(m, i, s) == d;
        assert Ref(st, i, s) == d;
      }
    }
  }

  /** Direct slots [keep, n) are all in use. */
  predicate Mapped(x: Inode, keep: nat, n: nat) {
    forall s :: keep <= s < n && s < DIRECT_BLKS ==> x.direct[s] != 0
  }

  lemma MappedStep(x: Inode, keep: nat, n: nat)
    requires keep < n <= DIRECT_BLKS
    ensures Mapped(x, keep, n) <==> x.direct[n - 1] != 0 && Mapped(x.(direct := x.direct[n - 1 := 0]), keep, n - 1)
  {
    var y := x.(direct := x.direct[n - 1 := 0]);
    assert forall s :: keep <= s < n - 1 ==> y.direct[s] == x.direct[s];
  }

  /**
   * The loop runs to its end exactly when every slot it visits is mapped, and then it releases
   * exactly the blocks of those slots.
   */
  lemma {:induction false} TruncateLoopMeaning(st: Fs, i: nat, n: nat, keep: nat) returns (r: (Fs, Error))
    requires Inv(st) && Live(st, i) && !IsDir(st.inodes[i]) && n <= DIRECT_BLKS
    ensures r == TruncateLoop(st, i, n, keep) && (r.1 == OK || r.1 == ABORT)
    ensures r.1 == OK <==> Mapped(st.inodes[i], keep, n)
    ensures r.1 == OK ==> Inv(r.0) && Dropped(st, r.0, i, n, keep) && BlockDrift(r.0) == BlockDrift(st)
    ensures r.1 == OK ==> Clear(r.0.dpool) == Clear(st.dpool) + Difference(n, keep)
    decreases n
  {
    hide Inv, Dropped, BlockDrift, Mapped;
    r := TruncateLoop(st, i, n, keep);
    if n <= keep {
      DroppedNothing(st, i, n, keep);
    } else {
      MappedStep(st.inodes[i], keep, n);
      if st.inodes[i].direct[n - 1] != 0 {
        DropOne(st, i, n - 1);
        DropCounts(st, i, n - 1);
        var m := DropBlock(st, i, n - 1);
        assert m.inodes[i] == st.inodes[i].(direct := st.inodes[i].direct[n - 1 := 0]);
        var rest := TruncateLoopMeaning(m, i, n - 1, keep);
        assert rest == r;
        if r.1 == OK {
          DroppedThen(st, m, r.0, i, n, keep);
        }
      }
    }
  }

  // ---------- the whole operation ----------

  /** The file is cut to `size`: slots from block `size / b` up to the old block count are released. */
  ghost predicate Cut(st: Fs, i: nat, size: nat, u: Fs) {
    match u
    case Fs(b, _, _, _, _, _, _) =>
      && b == st.b && Inv(u) && SameDevice(st, u) && u.ipool == st.ipool && u.freeInodes == st.freeInodes
          && i < |st.inodes|
      && SameKind(st.inodes[i], u.inodes[i]) && u.inodes[i].size == size && u.inodes[i].blkcnt == size / 512 + 1
      && (forall s: nat :: Ref(u, i, s) == if BlockOf(b, size) <= s < st.inodes[i].blkcnt then 0 else Ref(st, i, s))
      && (forall j: nat :: Live(st, j) && j != i ==> Same(st, u, j))
      && (forall d: nat :: InUse(u.dpool, d) <==>
            InUse(st.dpool, d) && !Among(st, i, st.inodes[i].blkcnt, BlockOf(b, size), d))
      && u.blocks == st.blocks && BlockDrift(u) == BlockDrift(st)
      && Clear(u.dpool) == Clear(st.dpool) + Difference(st.inodes[i].blkcnt, BlockOf(b, size))
  }

  function Difference(x: nat, y: nat): nat { if x > y then x - y else 0 }

  /**
   * Truncation trips one of its assertions exactly when it would grow the file or meets an empty
   * direct slot between the new block count and the stored count of 512-byte units; otherwise it
   * releases exactly the blocks in those slots and touches no other file.
   */
  lemma TruncateFileMeaning(st: Fs, i: nat, size: nat) returns (r: (Fs, Error))
    requires Inv(st) && Live(st, i) && !IsDir(st.inodes[i]) && i < |st.inodes|
    requires st.inodes[i].blkcnt <= DIRECT_BLKS
    ensures r == TruncateFile(st, i, size) && (r.1 == OK || r.1 == ABORT)
    ensures r.1 == OK <==>
            (size <= st.inodes[i].size
             && Mapped(st.inodes[i], BlockOf(st.b, size), st.inodes[i].blkcnt))
    ensures r.1 == OK ==> Cut(st, i, size, r.0)
  {
    r := TruncateFile(st, i, size);
    if size <= st.inodes[i].size {
      var n, keep := st.inodes[i].blkcnt, BlockOf(st.b, size);
      var l := TruncateLoopMeaning(st, i, n, keep);
      if l.1 == OK {
        CutAfterLoop(st, i, size, l.0, n, keep);
      }
    }
  }

  lemma CutAfterLoop(st: Fs, i: nat, size: nat, m: Fs, n: nat, keep: nat)
    requires Live(st, i) && !IsDir(st.inodes[i]) && size < TWO_64
    requires n == st.inodes[i].blkcnt && keep == BlockOf(st.b, size)
    requires Inv(m) && Dropped(st, m, i, n, keep) && BlockDrift(m) == BlockDrift(st)
    requires Clear(m.dpool) == Clear(st.dpool) + Difference(n, keep)
    ensures i < |m.inodes| && Cut(st, i, size, SaveInode(m, i, SetSize(m.inodes[i], size)))
  {
    SetSizeKeeps(m, i, size);
    var u := SaveInode(m, i, SetSize(m.inodes[i], size));
    DriftSame(m, u);
    forall j: nat | Live(st, j) && j != i
      ensures Same(st, u, j)
    {
      assert Live(m, j);
      SameTransitive(st, m, u, j);
    }
  }

  /** Bytes in kept blocks stay, bytes in released blocks become holes. */
  lemma CutBytes(st: Fs, i: nat, size: nat, u: Fs, k: nat)
    requires Cut(st, i, size, u)
    ensures ByteAt(u, i, k) ==
            if BlockOf(st.b, size) <= BlockOf(st.b, k) < st.inodes[i].blkcnt then Hole else ByteAt(st, i, k)
  {
  }

  /**
   * A truncation that succeeds keeps every byte below the new size exactly when the new size is a
   * multiple of the block size, or lies behind the blocks the loop visits: otherwise the block
   * that holds the new end is released with the rest.
   */
  lemma TruncateKeepsContentsIff(st: Fs, i: nat, size: nat)
    requires Inv(st) && Live(st, i) && !IsDir(st.inodes[i]) && i < |st.inodes|
    requires st.inodes[i].blkcnt <= DIRECT_BLKS
    requires TruncateFile(st, i, size).1 == OK
    ensures var u := TruncateFile(st, i, size).0;
            (forall k: nat :: k < size ==> ByteAt(u, i, k) == ByteAt(st, i, k))
            <==> OffsetIn(st.b, size) == 0 || st.inodes[i].blkcnt <= BlockOf(st.b, size)
  {
    hide Inv, Cut, ByteAt, OffsetIn, BlockOf, TruncateFile, IsDir;
    var r := TruncateFileMeaning(st, i, size);
    var u, b, n := r.0, st.b, BlockOf(st.b, size);
    BlocksAreLarge(st);
    if OffsetIn(b, size) == 0 || st.inodes[i].blkcnt <= n {
      forall k: nat | k < size
        ensures ByteAt(u, i, k) == ByteAt(st, i, k)
      {
        CutBytes(st, i, size, u, k);
        BlockMonotone(b, k, size);
        if OffsetIn(b, size) == 0 { EarlierBlock(b, k, size); }
      }
    } else {
      OffsetBelow(b, size);
      LastByteBlock(b, size);
      CutBytes(st, i, size, u, size - 1);
      StoredInMapped(st, i, size - 1, n);
      assert ByteAt(u, i, size - 1) != ByteAt(st, i, size - 1);
    }
  }

  lemma EarlierBlock(b: nat, k: nat, size: nat)
    requires b > 0 && k < size && OffsetIn(b, size) == 0
    ensures BlockOf(b, k) < BlockOf(b, size)
  {
    OffsetBelow(b, size);
    BlockMonotone(b, k, size);
    SameBlock(b, size, k);
  }

  lemma LastByteBlock(b: nat, size: nat)
    requires b > 0 && OffsetIn(b, size) != 0 && OffsetIn(b, size) <= size
    ensures size > 0 && BlockOf(b, size - 1) == BlockOf(b, size)
    decreases size
  {
    if size >= b {
      OffsetBelow(b, size - b);
      LastByteBlock(b, size - b);
    }
  }

  lemma StoredInMapped(st: Fs, i: nat, k: nat, n: nat)
    requires Inv(st) && Live(st, i) && BlockOf(st.b, k) == n < DIRECT_BLKS && st.inodes[i].direct[n] != 0
    ensures ByteAt(st, i, k) != Hole
  {
    assert Ref(st, i, n) == st.inodes[i].direct[n];
    InUseInRange(st.dpool, Ref(st, i, n));
  }

  // ---------- when truncation works at all ----------

  /** The file's direct slots are filled exactly up to its size, and its size fields are as stored. */
  predicate Filled(b: nat, x: Inode) {
    && x.blkcnt == x.size / 512 + 1 && x.blkcnt <= DIRECT_BLKS
    && forall s :: 0 <= s < DIRECT_BLKS ==> (x.direct[s] != 0 <==> s * b < x.size)
  }

  /**
   * Cutting a file whose blocks are filled up to its size succeeds exactly when the old size is
   * not a multiple of 512, and blocks are 512 bytes or the file is shorter than that. The count of
   * 512-byte units the loop starts from is one too large for a full last unit, and too large for
   * larger blocks; the loop then meets an empty slot and trips its assertion.
   */
  lemma TruncateWorksIff(st: Fs, i: nat, size: nat)
    requires Inv(st) && Live(st, i) && !IsDir(st.inodes[i]) && Filled(st.b, st.inodes[i])
    requires size <= st.inodes[i].size
    ensures TruncateFile(st, i, size).1 == OK <==>
            st.inodes[i].size % 512 != 0 && (st.b == 512 || st.inodes[i].size < 512)
  {
    var r := TruncateFileMeaning(st, i, size);
    var b, x := st.b, st.inodes[i];
    var n := x.blkcnt;
    SplitByDivision(b, size);
    KeepIsBelow(b, size, x.size);
    LastUnit(b, x.size);
    if x.size / 512 * b < x.size {
      forall s | 0 <= s < n
        ensures s * b < x.size
      {
        MulMono(s, n - 1, b);
      }
    } else {
      assert x.direct[n - 1] == 0;
    }
  }

  /**
   * Of such a file at most one truncation succeeds: it releases the slot in which the next one, to
   * whatever size, would start, because the count it stores is one more than the slots it keeps.
   */
  lemma TruncateOnlyOnce(st: Fs, i: nat, size: nat, again: nat)
    requires Inv(st) && Live(st, i) && !IsDir(st.inodes[i]) && Filled(st.b, st.inodes[i])
    requires TruncateFile(st, i, size).1 == OK
    ensures var u := TruncateFile(st, i, size).0;
            i < |u.inodes| && TruncateFile(u, i, again).1 == ABORT
  {
    hide Inv, TruncateFile, Mapped, BlockOf, Cut, IsDir;
    var r := TruncateFileMeaning(st, i, size);
    var u, n := r.0, size / 512;
    BlocksAreLarge(st);
    KeepInUnits(st.b, size, st.inodes[i].size);
    KeepInUnits(st.b, size, size);
    CutSlot(st, i, size, u, n);
    var v := TruncateFileMeaning(u, i, again);
    if again <= size {
      KeepInUnits(st.b, again, size);
      NotMapped(u.inodes[i], BlockOf(st.b, again), n + 1, n);
    }
  }

  lemma BlocksAreLarge(st: Fs)
    requires Inv(st)
    ensures st.b >= 512
  {
  }

  lemma KeepInUnits(b: nat, size: nat, old_size: nat)
    requires b >= 512 && size <= old_size
    ensures BlockOf(b, size) <= size / 512 <= old_size / 512
  {
    KeepIsBelow(b, size, size);
    SplitByDivision(b, size);
    DivModJoin(size, 512);
    DivModJoin(old_size, 512);
  }

  lemma NotMapped(x: Inode, keep: nat, n: nat, s: nat)
    requires keep <= s < n && s < DIRECT_BLKS && x.direct[s] == 0
    ensures !Mapped(x, keep, n)
  {
  }

  /** Slot `n` is among those the cut has emptied, and the count now ends right behind it. */
  lemma CutSlot(st: Fs, i: nat, size: nat, u: Fs, n: nat)
    requires Live(st, i) && !IsDir(st.inodes[i]) && Cut(st, i, size, u) && n == size / 512
    requires BlockOf(st.b, size) <= n < st.inodes[i].blkcnt <= DIRECT_BLKS
    ensures Inv(u) && Live(u, i) && i < |u.inodes| && !IsDir(u.inodes[i]) && u.b == st.b
    ensures u.inodes[i].size == size && u.inodes[i].blkcnt == n + 1 <= DIRECT_BLKS && u.inodes[i].direct[n] == 0
  {
    assert Ref(u, i, n) == 0;
  }

  lemma KeepIsBelow(b: nat, size: nat, old_size: nat)
    requires b >= 512 && size <= old_size
    ensures size / b < old_size / 512 + 1
  {
    DivModJoin(size, b);
    DivModJoin(old_size, 512);
    MulMono(512, b, size / b);
    assert 512 * (size / b) <= b * (size / b) == size / b * b;
  }

  /** When the block that the count's last unit is taken for starts inside the file. */
  lemma LastUnit(b: nat, size: nat)
    requires b >= 512 && PowerOfTwo(b)
    ensures size / 512 * b < size <==> size % 512 != 0 && (b == 512 || size < 512)
  {
    var q := size / 512;
    DivModJoin(size, 512);
    if b != 512 {
      assert PowerOfTwo(512);
      NextPower(512, b);
      MulMono(1024, b, q);
      assert q * b == b * q;
    }
  }

  /** A new file that has been written once from its start is filled up to its size. */
  lemma WrittenOnceIsFilled(st: Fs, i: nat, buf: Bytes, prev: nat, words: Words)
    requires Writable(st, i, 0, |buf|, words) && st.b > 0 && i < |st.inodes|
    requires st.inodes[i].size == 0 && forall s :: 0 <= s < DIRECT_BLKS ==> st.inodes[i].direct[s] == 0
    ensures var (u, t) := WriteFile(st, i, buf, 0, prev, words);
            && Inv(u) && Live(u, i) && !IsDir(u.inodes[i]) && u.b == st.b && u.inodes[i].size == t
            && (t < 512 * DIRECT_BLKS ==> Filled(u.b, u.inodes[i]))
  {
    hide Writable, WriteDone, WriteFile, WriteLoop, Live;
    var r := WriteFileMeaning(st, i, buf, 0, prev, words);
    WrittenSize(st, i, buf, r.0, r.1, words);
    forall s: nat | s < DIRECT_BLKS
      ensures r.0.inodes[i].direct[s] != 0 <==> s * st.b < r.1
    {
      SlotAfterWrite(st, i, buf, prev, words, s, r);
    }
  }

  lemma SlotAfterWrite(st: Fs, i: nat, buf: Bytes, prev: nat, words: Words, s: nat, r: (Fs, nat))
    requires Writable(st, i, 0, |buf|, words) && st.b > 0 && i < |st.inodes| && s < DIRECT_BLKS
    requires st.inodes[i].direct[s] == 0 && st.inodes[i].size == 0
    requires r == WriteFile(st, i, buf, 0, prev, words) && WriteDone(st, i, buf, 0, r)
    ensures i < |r.0.inodes| && (r.0.inodes[i].direct[s] != 0 <==> s * st.b < r.1)
  {
    hide Writable, WriteDone, BlockOf, WriteLoop;
    WrittenSize(st, i, buf, r.0, r.1, words);
    if s * st.b < r.1 {
      DivModUnique(s * st.b, st.b, s, 0);
      SplitByDivision(st.b, s * st.b);
      BytesNeedBlock(st, i, buf, r.0, r.1, s);
    } else {
      var l := WriteLoopLater(st, i, buf, 0, prev, words, s);
      if r.1 > 0 {
        SplitByDivision(st.b, r.1 - 1);
        DivBelow(r.1 - 1, st.b, s);
      }
    }
  }

  lemma WrittenSize(st: Fs, i: nat, buf: Bytes, u: Fs, t: nat, words: Words)
    requires Writable(st, i, 0, |buf|, words) && i < |st.inodes| && st.inodes[i].size == 0
    requires WriteDone(st, i, buf, 0, (u, t))
    ensures Inv(u) && Live(u, i) && !IsDir(u.inodes[i]) && u.b == st.b && u.inodes[i].size == t && i < |u.inodes|
    ensures u.inodes[i].blkcnt == t / 512 + 1
  {
  }

  lemma BytesNeedBlock(st: Fs, i: nat, buf: Bytes, u: Fs, t: nat, s: nat)
    requires WriteDone(st, i, buf, 0, (u, t)) && s < DIRECT_BLKS && s * st.b < t && BlockOf(st.b, s * st.b) == s
    ensures i < |u.inodes| && u.inodes[i].direct[s] != 0
  {
    assert ByteAt(u, i, s * st.b) == Stored(buf[s * st.b - 0]);
  }

  /** When a file that has been written once can be cut. */
  lemma TruncateAfterWriteIff(st: Fs, i: nat, buf: Bytes, prev: nat, words: Words, size: nat)
    requires Writable(st, i, 0, |buf|, words) && st.b > 0 && i < |st.inodes|
    requires st.inodes[i].size == 0 && forall s :: 0 <= s < DIRECT_BLKS ==> st.inodes[i].direct[s] == 0
    ensures var (u, t) := WriteFile(st, i, buf, 0, prev, words);
            i < |u.inodes| && (size <= t < 512 * DIRECT_BLKS ==>
              (TruncateFile(u, i, size).1 == OK <==> t % 512 != 0 && (st.b == 512 || t < 512)))
  {
    hide Writable, WriteFile, TruncateFile, Filled;
    WrittenOnceIsFilled(st, i, buf, prev, words);
    var (u, t) := WriteFile(st, i, buf, 0, prev, words);
    if size <= t < 512 * DIRECT_BLKS {
      TruncateWorksIff(u, i, size);
    }
  }

  /** For instance, cutting such a file inside a block loses the bytes of that block. */
  lemma TruncateLosesTail(st: Fs, i: nat, buf: Bytes, prev: nat, words: Words, size: nat)
    returns (r: (Fs, nat), v: (Fs, Error))
    requires Writable(st, i, 0, |buf|, words) && st.b == 512 && i < |st.inodes|
    requires st.inodes[i].size == 0 && forall s :: 0 <= s < DIRECT_BLKS ==> st.inodes[i].direct[s] == 0
    ensures r == WriteFile(st, i, buf, 0, prev, words)
    ensures i < |r.0.inodes| ==> v == TruncateFile(r.0, i, size)
    ensures size <= r.1 < 512 * DIRECT_BLKS && r.1 % 512 != 0 && size % 512 != 0 ==>
              i < |r.0.inodes| && v.1 == OK && LostByte(r.0, v.0, i, size)
  {
    hide Writable, Inv, WriteFile, Filled, TruncateFile, WriteDone, Live, ByteAt, LostByte;
    r := WriteFileMeaning(st, i, buf, 0, prev, words);
    WrittenOnceIsFilled(st, i, buf, prev, words);
    TruncateAfterWriteIff(st, i, buf, prev, words, size);
    v := TruncateFile(r.0, i, size);
    if size <= r.1 < 512 * DIRECT_BLKS && r.1 % 512 != 0 && size % 512 != 0 {
      StoredBelow(st, i, buf, r, size);
      LosesLastByte(r.0, i, r.1, size);
    }
  }

  /** The last byte below the new size was stored in `u` and is a hole in `v`. */
  predicate LostByte(u: Fs, v: Fs, i: nat, size: nat) {
    size > 0 && ByteAt(u, i, size - 1) != Hole && ByteAt(v, i, size - 1) == Hole
  }

  lemma StoredBelow(st: Fs, i: nat, buf: Bytes, r: (Fs, nat), size: nat)
    requires WriteDone(st, i, buf, 0, r) && 0 < size <= r.1
    ensures ByteAt(r.0, i, size - 1) != Hole
  {
    assert ByteAt(r.0, i, size - 1) == Stored(buf[size - 1 - 0]);
  }

  lemma LosesLastByte(u: Fs, i: nat, t: nat, size: nat)
    requires u.b == 512 && 0 < size <= t && size % 512 != 0 && ByteAt(u, i, size - 1) != Hole
    requires Inv(u) && Live(u, i) && i < |u.inodes| && !IsDir(u.inodes[i]) && Filled(u.b, u.inodes[i])
    requires u.inodes[i].size == t && TruncateFile(u, i, size).1 == OK
    ensures LostByte(u, TruncateFile(u, i, size).0, i, size)
  {
    hide Inv, TruncateFile, Cut, ByteAt, BlockOf;
    var v := TruncateFileMeaning(u, i, size);
    SplitByDivision(512, size);
    OffsetBelow(512, size);
    LastByteBlock(512, size);
    DivModJoin(size, 512);
    DivModJoin(t, 512);
    assert size / 512 <= t / 512;
    CutBytes(u, i, size, v.0, size - 1);
  }
}

// How far a write gets, from what is known before it starts (fs_write_file in
// src/chisai-core/fs.c).
module Progress {
  import opened Codec
  import opened FileIO
  import opened Invariant
  import opened Pools
  import opened State

  lemma {:induction false} HolesGrow(st: Fs, i: nat, n: nat, k: nat, m: nat)
    requires n <= k < m && Ref(st, i, k) == 0
    ensures Holes(st, i, n, k) < Holes(st, i, n, m)
    decreases k - n
  {
    if n < k { HolesGrow(st, i, n + 1, k, m); }
  }

  lemma {:induction false} HolesMonotone(st: Fs, i: nat, n: nat, k: nat, m: nat)
    requires k <= m
    ensures Holes(st, i, n, k) <= Holes(st, i, n, m)
    decreases m - n
  {
    if n < m { HolesMonotone(st, i, n + 1, k, m); }
  }

  /** More bytes never cost fewer blocks. */
  lemma SpentMonotone(st: Fs, i: nat, off: nat, k: nat, t: nat)
    requires st.b > 0 && i < |st.inodes| && k <= t
    ensures Spent(st, i, off, k) <= Spent(st, i, off, t)
  {
    if k > 0 {
      BlockMonotone(st.b, off + k - 1, off + t - 1);
      HolesMonotone(st, i, BlockOf(st.b, off), BlockOf(st.b, off + k - 1) + 1, BlockOf(st.b, off + t - 1) + 1);
    }
  }

  /** The first byte in a hole that has not been reached costs a block. */
  lemma SpentGrows(st: Fs, i: nat, off: nat, t: nat)
    requires st.b > 0 && i < |st.inodes| && Ref(st, i, BlockOf(st.b, off + t)) == 0
    requires t > 0 ==> BlockOf(st.b, off + t) == BlockOf(st.b, off + t - 1) + 1
    ensures Spent(st, i, off, t) < Spent(st, i, off, t + 1)
  {
    assert off + (t + 1) - 1 == off + t;
    var n, m := BlockOf(st.b, off), BlockOf(st.b, off + t);
    BlockMonotone(st.b, off, off + t);
    HolesGrow(st, i, n, m, m + 1);
  }

  /** A write that stops early stops at a block that was a hole from the start and not yet reached. */
  lemma StoppedAtHole(st: Fs, i: nat, data: Bytes, off: nat, p: (Fs, nat))
    requires st.b > 0 && Inv(st) && Live(st, i) && LoopDone(st, i, data, off, p) && p.1 < |data|
    requires BlockOf(st.b, off + p.1) < TableSlot(st.b)
    ensures Ref(st, i, BlockOf(st.b, off + p.1)) == 0
    ensures p.1 > 0 ==> BlockOf(st.b, off + p.1) == BlockOf(st.b, off + p.1 - 1) + 1
  {
    hide Inv, Live, LoopDone, BlockOf, TableSlot, ByteAt, Ref;
    StopFacts(st, i, data, off, p);
    HoleHasNoBlock(st, i, off + p.1);
    if p.1 > 0 { HoleStartsBlock(p.0, i, off + p.1); }
  }

  lemma StopFacts(st: Fs, i: nat, data: Bytes, off: nat, p: (Fs, nat))
    requires LoopDone(st, i, data, off, p) && p.1 < |data|
    ensures ByteAt(st, i, off + p.1) == Hole && ByteAt(p.0, i, off + p.1) == Hole && p.0.b == st.b && Inv(p.0)
    ensures p.1 > 0 ==> ByteAt(p.0, i, off + p.1 - 1) != Hole
  {
    assert p.1 > 0 ==> ByteAt(p.0, i, off + p.1 - 1) == Stored(data[off + p.1 - 1 - off]);
  }

  lemma HoleHasNoBlock(st: Fs, i: nat, k: nat)
    requires Inv(st) && Live(st, i) && ByteAt(st, i, k) == Hole && BlockOf(st.b, k) < TableSlot(st.b)
    ensures Ref(st, i, BlockOf(st.b, k)) == 0
  {
    if Ref(st, i, BlockOf(st.b, k)) != 0 { InUseInRange(st.dpool, Ref(st, i, BlockOf(st.b, k))); }
  }

  /** A hole right behind a stored byte starts a new block. */
  lemma HoleStartsBlock(u: Fs, i: nat, k: nat)
    requires Inv(u) && k > 0 && ByteAt(u, i, k - 1) != Hole && ByteAt(u, i, k) == Hole
    requires BlockOf(u.b, k) < TableSlot(u.b)
    ensures BlockOf(u.b, k) == BlockOf(u.b, k - 1) + 1
  {
    NextRound(u.b, k - 1);
    OffsetBelow(u.b, k - 1);
    SameBlock(u.b, k - 1, k);
  }

  /** What the loop's result says about its first `t` bytes. */
  lemma PrefixStored(st: Fs, i: nat, data: Bytes, off: nat, p: (Fs, nat))
    requires LoopDone(st, i, data, off, p)
    ensures p.1 <= |data| && Holds(p.0, i, off, data[..p.1]) && p.0.b == st.b
    ensures p.1 < |data| ==> Clear(p.0.dpool) == 0
  {
  }

  lemma WritableIsLive(st: Fs, i: nat, off: nat, size: nat, words: Words)
    requires Writable(st, i, off, size, words)
    ensures Inv(st) && Live(st, i) && InReach(st.b, off, size)
  {
  }

  /**
   * A write gets at least `k` bytes done exactly when the blocks those bytes cost are free; in
   * particular it completes exactly when the blocks of the whole buffer are.
   */
  lemma WrittenAtLeast(st: Fs, i: nat, buf: Bytes, off: nat, prev: nat, words: Words, k: nat) returns (r: (Fs, nat))
    requires Writable(st, i, off, |buf|, words) && st.b > 0 && i < |st.inodes| && k <= |buf|
    ensures r == WriteLoop(st, i, buf, off, prev, words) && r.1 <= |buf|
    ensures Holds(r.0, i, off, buf[..r.1]) && r.0.b == st.b
    ensures r.1 >= k <==> Spent(st, i, off, k) <= Clear(st.dpool)
  {
    hide Writable, WriteLoop, LoopDone, Inv, Live, BlockOf, Holes, Holds, Spent, InReach, Ref;
    r := WriteLoopMeaning(st, i, buf, off, prev, words);
    var c := WriteLoopCost(st, i, buf, off, prev, words);
    WritableIsLive(st, i, off, |buf|, words);
    PrefixStored(st, i, buf, off, r);
    if r.1 >= k {
      SpentMonotone(st, i, off, k, r.1);
    } else {
      NextInReach(st.b, off, |buf|, r.1);
      StoppedAtHole(st, i, buf, off, r);
      SpentGrows(st, i, off, r.1);
      SpentMonotone(st, i, off, r.1 + 1, k);
    }
  }

  lemma NextInReach(b: nat, off: nat, size: nat, t: nat)
    requires b > 0 && InReach(b, off, size) && t < size
    ensures BlockOf(b, off + t) < TableSlot(b)
  {
    BlockMonotone(b, off + t, off + size - 1);
  }
}

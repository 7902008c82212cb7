// Where a file ends: the size a write stores, and how far a read goes (fs_write_file and
// fs_read_file in src/chisai-core/fs.c).
module FileEnds {
  import opened Codec
  import opened FileIO
  import opened Invariant
  import opened Pools
  import opened Progress
  import opened State

  // ---------- writing ----------

  /** Where the file ends after `t` bytes have been written at `off`. */
  function TrueEnd(old_size: nat, off: nat, t: nat): nat {
    if t == 0 || off + t < old_size then old_size else off + t
  }

  /** The buffer has `k` bytes, and the free blocks suffice to write them. */
  predicate Reaches(st: Fs, i: nat, off: nat, size: nat, k: nat)
    requires i < |st.inodes|
  {
    k <= size && Spent(st, i, off, k) <= Clear(st.dpool)
  }

  /** The arithmetic of the stored size, for `total` bytes written. */
  lemma StoredSize(old_size: nat, off: nat, total: nat, size: nat)
    requires SizeAfter(old_size, off, total, size) && (total > 0 ==> off + total < TWO_32)
    ensures size == TrueEnd(old_size, off, total) <==>
            old_size < TWO_32
            && (off == old_size || (off == 0 && total >= old_size) || (off > old_size && total == 0))
  {
  }

  /**
   * After a write the stored size is the end of the file exactly when the write starts at the old
   * end, or starts at 0 and gets as far as the old end, or starts behind the old end and cannot
   * store a single byte. (The code also keeps only 32 bits of the old size.)
   */
  lemma SizeIsTrueEndIff(st: Fs, i: nat, buf: Bytes, off: nat, prev: nat, words: Words)
    requires Writable(st, i, off, |buf|, words) && st.b > 0 && i < |st.inodes|
    ensures var (u, t) := WriteFile(st, i, buf, off, prev, words);
            var old_size := st.inodes[i].size;
            i < |u.inodes| &&
            (u.inodes[i].size == TrueEnd(old_size, off, t) <==>
             old_size < TWO_32
             && (|| off == old_size
                 || (off == 0 && Reaches(st, i, off, |buf|, old_size))
                 || (off > old_size && !Reaches(st, i, off, |buf|, 1))))
  {
    hide Writable, WriteLoop, Spent, SizeAfter, TrueEnd, InReach;
    var old_size := st.inodes[i].size;
    var k := if old_size <= |buf| then old_size else |buf|;
    var r := WrittenAtLeast(st, i, buf, off, prev, words, k);
    if |buf| > 0 { var q := WrittenAtLeast(st, i, buf, off, prev, words, 1); }
    WrittenSize(st, i, buf, off, prev, words);
    RoundInReach(st, i, off, |buf|, words);
    ReachIsShort(st.b, off, |buf|);
    StoredSize(old_size, off, r.1, WriteFile(st, i, buf, off, prev, words).0.inodes[i].size);
  }

  lemma WrittenSize(st: Fs, i: nat, buf: Bytes, off: nat, prev: nat, words: Words)
    requires Writable(st, i, off, |buf|, words) && st.b > 0 && i < |st.inodes|
    ensures var (u, t) := WriteFile(st, i, buf, off, prev, words);
            && t == WriteLoop(st, i, buf, off, prev, words).1 && i < |u.inodes|
            && SizeAfter(st.inodes[i].size, off, t, u.inodes[i].size)
  {
    hide Writable, Inv;
    var r := WriteFileMeaning(st, i, buf, off, prev, words);
  }

  /**
   * A write inside a file makes it as short as what was written: reading from the start afterwards
   * gives only as many bytes as the write stored, wherever it stored them.
   */
  lemma OverwriteCutsFile(st: Fs, i: nat, buf: Bytes, off: nat, prev: nat, words: Words, n: nat, words': Words)
    requires Writable(st, i, off, |buf|, words) && st.b > 0 && i < |st.inodes|
    requires 0 < off < st.inodes[i].size < TWO_32
    requires var (u, t) := WriteFile(st, i, buf, off, prev, words);
             i < |u.inodes| && ProbeSafe(u, i, 0, Min(n, t), words')
    ensures var (u, t) := WriteFile(st, i, buf, off, prev, words);
            i < |u.inodes| &&
            var r := ReadFile(u, i, n, 0, words');
            && (r.Read? <==> AllStored(u, i, 0, Min(n, t)))
            && (r.Read? ==> |r.data| == Min(n, t) && Holds(u, i, 0, r.data))
  {
    hide WriteFile, ReadLoop, ProbeSafe, AllStored, Holds, Inv, WriteDone, Writable;
    var w := WriteFileMeaning(st, i, buf, off, prev, words);
    var (u, t) := w;
    AfterWrite(st, i, buf, off, words, u, t);
    StartInReach(st.b, off, |buf|, Min(n, t));
    var r := ReadLoopMeaning(u, i, Min(n, t), 0, words');
  }

  lemma AfterWrite(st: Fs, i: nat, buf: Bytes, off: nat, words: Words, u: Fs, t: nat)
    requires Writable(st, i, off, |buf|, words) && WriteDone(st, i, buf, off, (u, t)) && i < |st.inodes|
    ensures Inv(u) && Live(u, i) && u.b == st.b && i < |u.inodes| && t <= |buf| && InReach(st.b, off, |buf|)
    ensures SizeAfter(st.inodes[i].size, off, t, u.inodes[i].size)
  {
  }

  lemma StartInReach(b: nat, off: nat, size: nat, n: nat)
    requires b > 0 && InReach(b, off, size) && n <= size
    ensures InReach(b, 0, n)
  {
    if n > 0 { BlockMonotone(b, n - 1, off + size - 1); }
  }

  // ---------- reading ----------

  /** How many of `size` bytes at `off` lie before the end of the file. */
  function UpToEnd(file: nat, off: nat, size: nat): nat {
    if off >= file then 0 else Min(size, file - off)
  }

  /** Cutting the request to the file size, as the code does, cuts it at the end of the file. */
  lemma CutIsEnd(file: nat, off: nat, size: nat)
    ensures Min(size, file) == UpToEnd(file, off, size) <==>
            off == 0 || off + size <= file || size == 0 || file == 0
  {
  }

  /**
   * A read returns the contents from its position up to the end of the file exactly when it starts
   * at 0, does not go past the end, or has nothing to read, and none of those bytes is a hole.
   */
  lemma ReadsToTheEndIff(st: Fs, i: nat, size: nat, off: nat, words: Words)
    requires Inv(st) && Live(st, i) && st.b > 0 && i < |st.inodes|
    requires var n := Min(size, st.inodes[i].size);
             InReach(st.b, off, n) && ProbeSafe(st, i, off, n, words)
    ensures var r := ReadFile(st, i, size, off, words);
            var file := st.inodes[i].size;
            var n := UpToEnd(file, off, size);
            (r.Read? && |r.data| == n && Holds(st, i, off, r.data)) <==>
              (off == 0 || off + size <= file || size == 0 || file == 0) && AllStored(st, i, off, n)
  {
    hide Inv, Live, InReach, ProbeSafe, Holds, AllStored, ReadLoop;
    var file := st.inodes[i].size;
    var r := ReadLoopMeaning(st, i, Min(size, file), off, words);
    CutIsEnd(file, off, size);
  }
}

// The device as one flat stretch of bytes, and the inode slots and data blocks it holds.
module Disk {
  import opened BlockGroupTable
  import opened Codec
  import opened Layout
  import opened Pools
  import opened State

  /** `n` bytes at an offset; zeros where the device ends before them. */
  function Slice(disk: Bytes, off: nat, n: nat): (s: Bytes)
    ensures |s| == n
  {
    if off + n <= |disk| then disk[off..off + n] else seq(n, _ => 0)
  }

  /** The inode stored in slot `i`; there is no slot 0. */
  function InodeAt(b: nat, disk: Bytes, i: nat): (x: Inode)
    requires b > 0
  {
    DecodeInode(if i == 0 then seq(INODE_BYTES, _ => 0) else Slice(disk, Start(b, InodeSlot(i)), INODE_BYTES))
  }

  /** The contents of data block `d`; there is no block 0. */
  function BlockIn(b: nat, disk: Bytes, d: nat): (s: Bytes)
    requires b > 0
    ensures |s| == b
  {
    if d == 0 then seq(b, _ => 0) else Slice(disk, Start(b, DataBlock(d)), b)
  }

  /** All inode slots and all data blocks, with placeholders at index 0. */
  function Inodes(b: nat, n: nat, disk: Bytes): (s: seq<Inode>)
    requires b > 0
    ensures |s| == n + 1
  {
    seq(n + 1, i requires 0 <= i => InodeAt(b, disk, i))
  }

  function Blocks(b: nat, n: nat, disk: Bytes): (s: seq<Bytes>)
    requires b > 0
    ensures |s| == n + 1
  {
    seq(n + 1, d requires 0 <= d => BlockIn(b, disk, d))
  }

  /** The file system a device with `n` inodes and `n` data blocks holds. */
  function View(b: nat, n: nat, disk: Bytes, ipool: Pool, dpool: Pool, freeInodes: nat, freeBlocks: nat): (st: Fs)
    requires b > 0
  {
    Fs(b, Inodes(b, n, disk), Blocks(b, n, disk), ipool, dpool, freeInodes, freeBlocks)
  }

  /** Bytes outside the stretch that is stored keep their value. */
  lemma SliceApart(disk: Bytes, p: nat, data: Bytes, q: nat, n: nat)
    requires p + |data| <= |disk|
    requires p + |data| <= q || q + n <= p
    ensures Slice(Splice(disk, p, data), q, n) == Slice(disk, q, n)
  {
  }

  /** Storing inside a stretch is storing in what it holds. */
  lemma SliceInside(disk: Bytes, p: nat, n: nat, o: nat, data: Bytes)
    requires p + n <= |disk| && o + |data| <= n
    ensures Slice(Splice(disk, p + o, data), p, n) == Splice(Slice(disk, p, n), o, data)
  {
  }

  lemma PartOfSlice(disk: Bytes, p: nat, n: nat, o: nat, k: nat)
    requires p + n <= |disk| && o + k <= n
    ensures Slice(disk, p, n)[o..o + k] == disk[o + p..o + p + k]
  {
  }

  /** Storing in one region leaves every slot and block in another region alone. */
  lemma OtherRegion(b: nat, disk: Bytes, r: Region, o: nat, data: Bytes, s: Region, n: nat)
    requires b > 0 && r.Proper() && s.Proper() && r != s && n <= s.Size(b)
    requires o + |data| <= r.Size(b) && Start(b, r) + r.Size(b) <= |disk|
    ensures Slice(Splice(disk, Start(b, r) + o, data), Start(b, s), n) == Slice(disk, Start(b, s), n)
  {
    RegionsApart(b, r, s);
    SliceApart(disk, Start(b, r) + o, data, Start(b, s), n);
  }

  /** Storing in a data block leaves all inodes alone, and storing in an inode slot all blocks. */
  lemma OtherKind(b: nat, n: nat, disk: Bytes, r: Region, o: nat, data: Bytes)
    requires b > 0 && r.Proper() && o + |data| <= r.Size(b) && Start(b, r) + r.Size(b) <= |disk|
    ensures r.DataBlock? ==> Inodes(b, n, Splice(disk, Start(b, r) + o, data)) == Inodes(b, n, disk)
    ensures r.InodeSlot? ==> Blocks(b, n, Splice(disk, Start(b, r) + o, data)) == Blocks(b, n, disk)
  {
    hide Start, DecodeInode, Splice, Slice;
    forall j: nat | 0 < j <= n
      ensures r.DataBlock? ==> InodeAt(b, Splice(disk, Start(b, r) + o, data), j) == InodeAt(b, disk, j)
      ensures r.InodeSlot? ==> BlockIn(b, Splice(disk, Start(b, r) + o, data), j) == BlockIn(b, disk, j)
    {
      if r.DataBlock? { OtherRegion(b, disk, r, o, data, InodeSlot(j), INODE_BYTES); }
      if r.InodeSlot? { OtherRegion(b, disk, r, o, data, DataBlock(j), b); }
    }
  }

  /** Storing an encoded inode in its slot changes that inode and nothing else. */
  lemma StoreInode(b: nat, groups: nat, disk: Bytes, i: nat, x: Inode, ip: Pool, dp: Pool, fi: nat, fb: nat)
    requires b > 0 && Exists(b, groups, InodeSlot(i)) && Extent(b, groups) <= |disk| && x.Valid()
    ensures var n := groups * (8 * b);
            View(b, n, Splice(disk, Start(b, InodeSlot(i)), EncodeInode(x)), ip, dp, fi, fb)
            == SaveInode(View(b, n, disk, ip, dp, fi, fb), i, x)
  {
    hide Extent, Start, EncodeInode, DecodeInode, Splice, Slice;
    var r, n, data := InodeSlot(i), groups * (8 * b), EncodeInode(x);
    RegionInBounds(b, groups, r);
    OtherKind(b, n, disk, r, 0, data);
    var disk' := Splice(disk, Start(b, r) + 0, data);
    forall j: nat | 0 < j <= n
      ensures InodeAt(b, disk', j) == if j == i then x else InodeAt(b, disk, j)
    {
      if j == i {
        WholeSlice(disk, Start(b, r), data);
        InodeRoundTrip(x);
      } else {
        OtherRegion(b, disk, r, 0, data, InodeSlot(j), INODE_BYTES);
      }
    }
    assert Inodes(b, n, disk') == Inodes(b, n, disk)[i := x];
  }

  lemma WholeSlice(disk: Bytes, p: nat, data: Bytes)
    requires p + |data| <= |disk|
    ensures Slice(Splice(disk, p + 0, data), p, |data|) == data
  {
  }

  /** Storing bytes inside a data block changes those bytes of that block and nothing else. */
  lemma StoreBlock(b: nat, groups: nat, disk: Bytes, d: nat, o: nat, data: Bytes, ip: Pool, dp: Pool, fi: nat, fb: nat)
    requires b > 0 && Exists(b, groups, DataBlock(d)) && Extent(b, groups) <= |disk| && o + |data| <= b
    ensures var n := groups * (8 * b);
            View(b, n, Splice(disk, Start(b, DataBlock(d)) + o, data), ip, dp, fi, fb)
            == PutBlock(View(b, n, disk, ip, dp, fi, fb), d, o, data)
  {
    hide Extent, Start, DecodeInode, Splice, Slice;
    var r, n := DataBlock(d), groups * (8 * b);
    RegionInBounds(b, groups, r);
    OtherKind(b, n, disk, r, o, data);
    var disk' := Splice(disk, Start(b, r) + o, data);
    forall j: nat | 0 < j <= n
      ensures BlockIn(b, disk', j) == if j == d then Splice(BlockIn(b, disk, d), o, data) else BlockIn(b, disk, j)
    {
      if j == d {
        SliceInside(disk, Start(b, r), b, o, data);
      } else {
        OtherRegion(b, disk, r, o, data, DataBlock(j), b);
      }
    }
    assert Blocks(b, n, disk') == Blocks(b, n, disk)[d := Splice(BlockIn(b, disk, d), o, data)];
  }

  /** Whatever bytes a device holds, its inodes have fields of the right width. */
  lemma DecodedIsValid(s: Bytes)
    requires |s| == INODE_BYTES
    ensures DecodeInode(s).Valid()
  {
    InodeWidth();
    DecodeFits(INODE_WIDTHS, s);
    BoundsAre();
    var f := DecodeFields(INODE_WIDTHS, s);
    forall k | 5 <= k < 19
      ensures f[k] < TWO_32
    {
      WordsAre(14, k - 5);
      assert f[k] < Bound(INODE_WIDTHS[k]);
    }
  }

  /** A bitmap block, byte by byte. */
  function AsBits(s: Bytes): (bits: seq<bv8>)
    ensures |bits| == |s|
  {
    seq(|s|, k requires 0 <= k < |s| => (s[k] as int) as bv8)
  }

  /** The bitmaps of all groups as they are on the device. */
  function DataBitmaps(b: nat, groups: nat, disk: Bytes): (images: seq<seq<bv8>>)
    requires b > 0
    ensures |images| == groups
  {
    seq(groups, g requires 0 <= g => AsBits(Slice(disk, Start(b, DataBitmap(g)), b)))
  }

  function InodeBitmaps(b: nat, groups: nat, disk: Bytes): (images: seq<seq<bv8>>)
    requires b > 0
    ensures |images| == groups
  {
    seq(groups, g requires 0 <= g => AsBits(Slice(disk, Start(b, InodeBitmap(g)), b)))
  }

  /** A pool as it is right after loading: bitmaps from the device, hints from a scan. */
  predicate LoadedFrom(p: Pool, images: seq<seq<bv8>>) {
    |p| == |images| && forall g :: 0 <= g < |images| ==> p[g] == Scanned(images[g])
  }
}

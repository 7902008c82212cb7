// Where everything sits on the device: the offset arithmetic of fs_inode_to_offset and
// fs_data_to_offset (src/chisai-core/fs.c), with its 32-bit and 64-bit wrap-around, against a
// reference layout of disjoint regions.
module Layout {
  import opened Align
  import opened Arith
  import opened Codec

  const INODE_SIZE: nat := 128

  /** Wrap-around of 32-bit unsigned arithmetic. */
  function U32(x: int): (r: nat)
    ensures r < TWO_32
    decreases if x < 0 then TWO_32 - x else x
  {
    if x < 0 then U32(x + TWO_32) else if x >= TWO_32 then U32(x - TWO_32) else x
  }

  lemma {:induction false} U32IsMod(x: int)
    ensures U32(x) == x % TWO_32
    decreases if x < 0 then TWO_32 - x else x
  {
    if x < 0 { U32IsMod(x + TWO_32); } else if x >= TWO_32 { U32IsMod(x - TWO_32); }
  }

  function U64(x: int): (r: nat) { x % TWO_64 }

  /** Bytes in one block group: two bitmaps, then one inode slot and one data block per bit. */
  function GroupSize(b: nat): nat { 2 * b + 8 * b * (INODE_SIZE + b) }

  const MAX_BLOCK: nat := 23106

  /** Block sizes for which no 32-bit intermediate wraps and a directory fits in a block. */
  predicate GoodBlockSize(b: nat) {
    512 <= b <= MAX_BLOCK
  }

  // ---------- the reference layout ----------

  datatype Region =
    | Superblock
    | DataBitmap(g: nat)
    | InodeBitmap(g: nat)
    | InodeSlot(i: nat)
    | DataBlock(d: nat)
  {
    /** One-based indices start at 1. */
    predicate Proper() {
      (InodeSlot? ==> i != 0) && (DataBlock? ==> d != 0)
    }

    /** The region is the superblock or lies in the first block group. */
    predicate First(b: nat) {
      match this
      case Superblock => true
      case DataBitmap(g) => g == 0
      case InodeBitmap(g) => g == 0
      case InodeSlot(i) => i <= 8 * b
      case DataBlock(d) => d <= 8 * b
    }

    /** The corresponding region one group earlier. */
    function Earlier(b: nat): (r: Region)
      requires Proper() && !First(b)
      ensures r.Proper() && !r.Superblock? && r.Rank() + (if DataBitmap? || InodeBitmap? then 1 else 8 * b) == Rank()
    {
      match this
      case DataBitmap(g) => DataBitmap(g - 1)
      case InodeBitmap(g) => InodeBitmap(g - 1)
      case InodeSlot(i) => InodeSlot(i - 8 * b)
      case DataBlock(d) => DataBlock(d - 8 * b)
    }

    function Rank(): nat {
      match this
      case Superblock => 0
      case DataBitmap(g) => g
      case InodeBitmap(g) => g
      case InodeSlot(i) => i
      case DataBlock(d) => d
    }

    function Size(b: nat): nat {
      if InodeSlot? then INODE_SIZE else b
    }
  }

  /** Offset of a region of the first group: superblock, bitmaps, inode slots, data blocks. */
  function FirstStart(b: nat, r: Region): nat
    requires r.Proper() && r.First(b)
  {
    match r
    case Superblock => 0
    case DataBitmap(_) => b
    case InodeBitmap(_) => 2 * b
    case InodeSlot(i) => 3 * b + INODE_SIZE * (i - 1)
    case DataBlock(d) => 3 * b + INODE_SIZE * (8 * b) + b * (d - 1)
  }

  /** Offset of a region: groups follow one another, each laid out like the first. */
  function Start(b: nat, r: Region): (s: nat)
    requires b > 0 && r.Proper()
    decreases r.Rank()
  {
    if r.First(b) then FirstStart(b, r) else GroupSize(b) + Start(b, r.Earlier(b))
  }

  /** The regions a device with `groups` block groups has. */
  predicate Exists(b: nat, groups: nat, r: Region) {
    match r
    case Superblock => true
    case DataBitmap(g) => g < groups
    case InodeBitmap(g) => g < groups
    case InodeSlot(i) => 1 <= i <= groups * (8 * b)
    case DataBlock(d) => 1 <= d <= groups * (8 * b)
  }

  /** Bytes the superblock and all block groups take. */
  function Extent(b: nat, groups: nat): nat { b + groups * GroupSize(b) }

  /** `b * (d - 1)` for the `d`-th block stays inside the block area of its group. */
  lemma BlockArea(b: nat, d: nat)
    requires 1 <= d <= 8 * b
    ensures b * (d - 1) + b <= 8 * b * b
  {
    MulMono(d, 8 * b, b);
    assert d * b == b * (d - 1) + b;
  }

  lemma GroupSizeIs(b: nat)
    ensures GroupSize(b) == 1026 * b + 8 * b * b
  {
    assert 8 * b * (INODE_SIZE + b) == 8 * b * INODE_SIZE + 8 * b * b;
  }

  /** Every region but the superblock starts behind it. */
  lemma {:induction false} BehindSuperblock(b: nat, r: Region)
    requires b > 0 && r.Proper() && !r.Superblock?
    ensures b <= Start(b, r)
    decreases r.Rank()
  {
    if !r.First(b) {
      BehindSuperblock(b, r.Earlier(b));
    }
  }

  lemma FirstInGroup(b: nat, r: Region)
    requires b > 0 && r.Proper() && r.First(b) && !r.Superblock?
    ensures b <= Start(b, r) && Start(b, r) + r.Size(b) <= b + GroupSize(b)
  {
    InsideArea(b, r);
    AreasOrdered(b, 1, Area(r));
    AreasOrdered(b, Area(r) + 1, 5);
  }

  predicate Apart(b: nat, r: Region, s: Region)
    requires b > 0 && r.Proper() && s.Proper()
  {
    Start(b, r) + r.Size(b) <= Start(b, s) || Start(b, s) + s.Size(b) <= Start(b, r)
  }

  /** The order of the five areas of the first group, and where area `k` begins. */
  function Area(r: Region): nat {
    match r
    case Superblock => 0
    case DataBitmap(_) => 1
    case InodeBitmap(_) => 2
    case InodeSlot(_) => 3
    case DataBlock(_) => 4
  }

  function AreaStart(b: nat, k: nat): nat {
    if k <= 3 then k * b else if k == 4 then 3 * b + INODE_SIZE * (8 * b) else b + GroupSize(b)
  }

  lemma InsideArea(b: nat, r: Region)
    requires b > 0 && r.Proper() && r.First(b)
    ensures AreaStart(b, Area(r)) <= Start(b, r)
    ensures Start(b, r) + r.Size(b) <= AreaStart(b, Area(r) + 1)
  {
    if r.DataBlock? {
      GroupSizeIs(b);
      BlockArea(b, r.d);
      ProductBelow(b, r.d - 1);
    }
  }

  lemma AreasOrdered(b: nat, j: nat, k: nat)
    requires j <= k <= 5
    ensures AreaStart(b, j) <= AreaStart(b, k)
  {
    GroupSizeIs(b);
    MulMono(j, k, b);
    assert 8 * b * b >= 0;
  }

  lemma BlocksOrdered(b: nat, d: nat, e: nat)
    requires 1 <= d < e
    ensures b * (d - 1) + b <= b * (e - 1)
  {
    MulStep(d - 1, e - 1, b);
    assert (d - 1) * b == b * (d - 1) && (e - 1) * b == b * (e - 1);
  }

  lemma FirstApart(b: nat, r: Region, s: Region)
    requires b > 0 && r.Proper() && s.Proper() && r.First(b) && s.First(b) && r != s
    ensures Apart(b, r, s)
  {
    if Area(r) != Area(s) {
      InsideArea(b, r);
      InsideArea(b, s);
      if Area(r) < Area(s) {
        AreasOrdered(b, Area(r) + 1, Area(s));
      } else {
        AreasOrdered(b, Area(s) + 1, Area(r));
      }
    } else if r.DataBlock? {
      if r.d < s.d { BlocksOrdered(b, r.d, s.d); } else { BlocksOrdered(b, s.d, r.d); }
    }
  }

  /** Superblock, bitmaps, inode slots and data blocks of all groups are pairwise disjoint. */
  lemma {:induction false} RegionsApart(b: nat, r: Region, s: Region)
    requires b > 0 && r.Proper() && s.Proper() && r != s
    ensures Apart(b, r, s)
    decreases r.Rank() + s.Rank()
  {
    if r.First(b) && s.First(b) {
      FirstApart(b, r, s);
    } else if r.First(b) {
      BehindSuperblock(b, s); BehindSuperblock(b, s.Earlier(b));
      if !r.Superblock? { FirstInGroup(b, r); }
    } else if s.First(b) {
      BehindSuperblock(b, r); BehindSuperblock(b, r.Earlier(b));
      if !s.Superblock? { FirstInGroup(b, s); }
    } else {
      RegionsApart(b, r.Earlier(b), s.Earlier(b));
    }
  }

  /** Every region that exists lies inside the device. */
  lemma {:induction false} RegionInBounds(b: nat, groups: nat, r: Region)
    requires b > 0 && Exists(b, groups, r)
    ensures r.Proper() && Start(b, r) + r.Size(b) <= Extent(b, groups)
    decreases r.Rank()
  {
    if r.Superblock? {
      assert groups * GroupSize(b) >= 0;
    } else {
      assert 0 * (8 * b) == 0;
      assert groups != 0;
      OneGroupLess(groups, GroupSize(b));
      if r.First(b) {
        FirstInGroup(b, r);
      } else {
        EarlierExists(b, groups, r);
        RegionInBounds(b, groups - 1, r.Earlier(b));
      }
    }
  }

  lemma EarlierExists(b: nat, groups: nat, r: Region)
    requires b > 0 && groups > 0 && Exists(b, groups, r) && r.Proper() && !r.First(b)
    ensures Exists(b, groups - 1, r.Earlier(b))
    ensures r.Size(b) == r.Earlier(b).Size(b)
  {
    OneGroupLess(groups, 8 * b);
  }

  // ---------- the code's arithmetic ----------

  /** `BLKGRP_SIZE` as the code computes it, in unsigned int. */
  function CodeGroupSize(b: nat): nat {
    U32(U32(2 * b) + U32(U32(b * 8) * U32(INODE_SIZE + b)))
  }

  /** fs_inode_to_offset. */
  function InodeOffset(b: nat, idx: nat): nat
    requires U32(b * 8) != 0
  {
    var per := U32(b * 8);
    InodeOffsetAt(b, U32(idx - 1) / per, U32(idx - 1) % per)
  }

  function InodeOffsetAt(b: nat, grp: int, bit: int): nat {
    U64(b + grp * CodeGroupSize(b) + U32(2 * b) + U32(INODE_SIZE * bit))
  }

  /** fs_data_to_offset. */
  function DataOffset(b: nat, idx: nat): nat
    requires U32(b * 8) != 0
  {
    var per := U32(b * 8);
    DataOffsetAt(b, U32(idx - 1) / per, U32(idx - 1) % per)
  }

  function DataOffsetAt(b: nat, grp: int, bit: int): nat {
    U64(b + grp * CodeGroupSize(b) + U32(2 * b) + U32(INODE_SIZE * U32(b * 8)) + U32(b * bit))
  }

  /** `MAX_BLOCK` is the largest block size whose group size still fits in 32 bits. */
  lemma LargestBlock(b: nat)
    ensures GroupSize(b) < TWO_32 <==> b <= MAX_BLOCK
  {
    GroupSizeIs(b);
    SquareOrder(b);
  }

  lemma SquareOrder(b: nat)
    ensures b <= MAX_BLOCK ==> 8 * b * b <= 8 * MAX_BLOCK * MAX_BLOCK
    ensures b > MAX_BLOCK ==> 8 * b * b >= 8 * (MAX_BLOCK + 1) * (MAX_BLOCK + 1)
  {
    assert 8 * b * b == 8 * (b * b);
    if b <= MAX_BLOCK {
      MulMono(b, MAX_BLOCK, MAX_BLOCK); MulMono(b, MAX_BLOCK, b);
    } else {
      MulMono(MAX_BLOCK + 1, b, MAX_BLOCK + 1); MulMono(MAX_BLOCK + 1, b, b);
    }
  }

  lemma GoodSizes(b: nat)
    requires GoodBlockSize(b)
    ensures U32(b * 8) == 8 * b && U32(2 * b) == 2 * b && U32(INODE_SIZE * (8 * b)) == INODE_SIZE * (8 * b)
    ensures CodeGroupSize(b) == GroupSize(b) < TWO_32
  {
    LargestBlock(b);
    var p := (b * 8) * (INODE_SIZE + b);
    assert p == 8 * b * (INODE_SIZE + b);
    assert U32(b * 8) == b * 8 && U32(INODE_SIZE + b) == INODE_SIZE + b && U32(p) == p;
  }

  lemma {:induction false} InodeStart(b: nat, g: nat, bit: nat, i: nat)
    requires b > 0 && bit < 8 * b && i == g * (8 * b) + bit + 1
    ensures Start(b, InodeSlot(i)) == 3 * b + g * GroupSize(b) + INODE_SIZE * bit
    decreases g
  {
    if g != 0 {
      OneGroupLess(g, 8 * b); OneGroupLess(g, GroupSize(b));
      InodeStart(b, g - 1, bit, i - 8 * b);
    }
  }

  lemma {:induction false} DataStart(b: nat, g: nat, bit: nat, i: nat)
    requires b > 0 && bit < 8 * b && i == g * (8 * b) + bit + 1
    ensures Start(b, DataBlock(i)) == 3 * b + g * GroupSize(b) + INODE_SIZE * (8 * b) + b * bit
    decreases g
  {
    if g != 0 {
      OneGroupLess(g, 8 * b); OneGroupLess(g, GroupSize(b));
      DataStart(b, g - 1, bit, i - 8 * b);
    }
  }

  /** Bitmaps are loaded from the first two blocks of each group. */
  lemma {:induction false} BitmapStart(b: nat, g: nat)
    requires b > 0
    ensures Start(b, DataBitmap(g)) == b + GroupSize(b) * g
    ensures Start(b, InodeBitmap(g)) == b + GroupSize(b) * g + b
    decreases g
  {
    if g != 0 {
      BitmapStart(b, g - 1);
      assert GroupSize(b) * g == GroupSize(b) * (g - 1) + GroupSize(b);
    }
  }

  lemma OneGroupLess(g: nat, n: nat)
    requires g != 0
    ensures g * n == (g - 1) * n + n && (g - 1) * n >= 0
  {
  }

  /** For good block sizes the offset arithmetic never wraps and computes the reference layout. */
  lemma OffsetsAreExact(b: nat, idx: nat)
    requires GoodBlockSize(b) && 1 <= idx < TWO_32
    ensures U32(b * 8) != 0
    ensures InodeOffset(b, idx) == Start(b, InodeSlot(idx))
    ensures DataOffset(b, idx) == Start(b, DataBlock(idx))
  {
    var g, bit := SplitIndex(idx - 1, 8 * b);
    OffsetsByGroup(b, idx, idx - 1, 8 * b, g, bit);
    InodeOffsetExact(b, g, bit, idx);
    DataOffsetExact(b, g, bit, idx);
  }

  /**
   * In numbers: groups of two bitmaps, `8 * b` inode slots of 128 bytes and `8 * b` blocks follow
   * the superblock, and index `idx` is number `(idx - 1) % (8 * b)` in group `(idx - 1) / (8 * b)`.
   */
  lemma OffsetsInNumbers(b: nat, idx: nat)
    requires GoodBlockSize(b) && 1 <= idx < TWO_32
    ensures var g, n, group := (idx - 1) / (8 * b), (idx - 1) % (8 * b), 2 * b + 8 * b * (128 + b);
            && U32(b * 8) != 0
            && InodeOffset(b, idx) == b + g * group + 2 * b + 128 * n
            && DataOffset(b, idx) == b + g * group + 2 * b + 128 * (8 * b) + b * n
  {
    OffsetsAreExact(b, idx);
    var g, n := SplitIndex(idx - 1, 8 * b);
    InodeStart(b, g, n, idx);
    DataStart(b, g, n, idx);
  }

  lemma OffsetsByGroup(b: nat, idx: nat, x: nat, per: nat, g: nat, bit: nat)
    requires per != 0 && U32(b * 8) == per && U32(idx - 1) == x
    requires g == x / per && bit == x % per
    ensures InodeOffset(b, idx) == InodeOffsetAt(b, g, bit)
    ensures DataOffset(b, idx) == DataOffsetAt(b, g, bit)
  {
  }

  lemma InodeOffsetExact(b: nat, g: nat, bit: nat, i: nat)
    requires GoodBlockSize(b) && g < TWO_32 && bit < 8 * b && i == g * (8 * b) + bit + 1
    ensures InodeOffsetAt(b, g, bit) == Start(b, InodeSlot(i))
  {
    InodeStart(b, g, bit, i);
    NoWrap(b, g, bit);
    GoodSizes(b);
  }

  lemma DataOffsetExact(b: nat, g: nat, bit: nat, i: nat)
    requires GoodBlockSize(b) && g < TWO_32 && bit < 8 * b && i == g * (8 * b) + bit + 1
    ensures DataOffsetAt(b, g, bit) == Start(b, DataBlock(i))
  {
    DataStart(b, g, bit, i);
    NoWrap(b, g, bit);
    GoodSizes(b);
  }

  lemma SplitIndex(x: nat, n: nat) returns (q: nat, r: nat)
    requires n > 0
    ensures q == x / n && r == x % n && x == q * n + r && r < n && q <= x
  {
    q, r := x / n, x % n;
    DivModJoin(x, n);
    MulMono(1, n, q);
    assert 1 * q == q && n * q == q * n;
  }

  lemma NoWrap(b: nat, g: nat, bit: nat)
    requires GoodBlockSize(b) && g < TWO_32 && bit < 8 * b
    ensures U32(INODE_SIZE * bit) == INODE_SIZE * bit
    ensures U32(b * bit) == b * bit
    ensures U64(3 * b + g * GroupSize(b) + INODE_SIZE * (8 * b) + b * bit)
            == 3 * b + g * GroupSize(b) + INODE_SIZE * (8 * b) + b * bit
    ensures U64(3 * b + g * GroupSize(b) + INODE_SIZE * bit)
            == 3 * b + g * GroupSize(b) + INODE_SIZE * bit
  {
    BlockProduct(b, bit);
    LargestBlock(b);
    WideProduct(g, GroupSize(b));
    Fits64(g * GroupSize(b), 3 * b + INODE_SIZE * (8 * b) + b * bit);
    Fits64(g * GroupSize(b), 3 * b + INODE_SIZE * bit);
  }

  lemma Fits64(x: nat, y: nat)
    requires x <= (TWO_32 - 1) * (TWO_32 - 1) && y < TWO_32
    ensures U64(x + y) == x + y
  {
  }

  lemma BlockProduct(b: nat, bit: nat)
    requires GoodBlockSize(b) && bit < 8 * b
    ensures 3 * b + INODE_SIZE * (8 * b) + b * bit < TWO_32
    ensures INODE_SIZE * bit < TWO_32 && 0 <= b * bit
  {
    LargestBlock(b); GroupSizeIs(b);
    BlockArea(b, bit + 1);
    ProductBelow(b, bit);
  }

  lemma ProductBelow(b: nat, bit: nat)
    ensures b * bit == b * (bit + 1 - 1) && b * bit >= 0
  {
  }

  lemma WideProduct(g: nat, n: nat)
    requires g < TWO_32 && n < TWO_32
    ensures 0 <= g * n <= (TWO_32 - 1) * (TWO_32 - 1)
  {
    MulMono(g, TWO_32 - 1, n);
    MulMono(n, TWO_32 - 1, TWO_32 - 1);
    assert (TWO_32 - 1) * n == n * (TWO_32 - 1);
  }

  // ---------- formatting ----------

  /** `groups` as computed when formatting a device of `disk` bytes, in 32 bits. */
  function FormatGroups(b: nat, disk: nat): nat
    requires CodeGroupSize(b) != 0 && disk >= b
  {
    U32((disk - b) / CodeGroupSize(b))
  }

  /**
   * All groups counted fit on the device. No further one would exactly when the device is smaller
   * than 2^32 groups, and then there is at least one; beyond that the count wraps around.
   */
  lemma FormatFits(b: nat, disk: nat)
    requires GoodBlockSize(b) && disk >= b + CodeGroupSize(b)
    ensures CodeGroupSize(b) != 0
    ensures Extent(b, FormatGroups(b, disk)) <= disk
    ensures disk < Extent(b, FormatGroups(b, disk) + 1) <==> disk < Extent(b, TWO_32)
    ensures disk < Extent(b, TWO_32) ==> FormatGroups(b, disk) >= 1
  {
    GoodSizes(b);
    GroupSizeIs(b);
    WholeGroups(b, disk, GroupSize(b), (disk - b) / GroupSize(b));
  }

  lemma WholeGroups(b: nat, disk: nat, size: nat, q: nat)
    requires size == GroupSize(b) > 0 && disk >= b + size && q == (disk - b) / size
    ensures var groups := U32(q);
            && Extent(b, groups) <= disk
            && (disk < Extent(b, groups + 1) <==> disk < Extent(b, TWO_32))
            && (disk < Extent(b, TWO_32) ==> groups >= 1)
  {
    hide GroupSize;
    U32IsMod(q);
    var groups := U32(q);
    DivModJoin(disk - b, size);
    DivBelow(disk - b, size, 1);
    DivBelow(disk - b, size, TWO_32);
    DivBelow(disk - b, size, groups + 1);
    if q < TWO_32 {
      assert groups == q;
    } else {
      MulMono(groups, q, size);
    }
  }

  /**
   * The device size is computed as the block size times a count that the system gives in units of
   * 512 bytes. So the groups counted fit on the device exactly for blocks of 512 bytes.
   */
  lemma FormatFitsDeviceIff(b: nat, count: nat)
    requires GoodBlockSize(b) && PowerOfTwo(b)
    requires b + CodeGroupSize(b) <= count * b < Extent(b, TWO_32)
    ensures CodeGroupSize(b) != 0
    ensures Extent(b, FormatGroups(b, count * b)) <= count * 512 <==> b == 512
  {
    FormatFits(b, count * b);
    if b != 512 {
      assert PowerOfTwo(512);
      NextPower(512, b);
      MulMono(1024, b, count);
      GoodSizes(b);
      TwiceAsFar(b, FormatGroups(b, count * b), count);
    }
  }

  lemma TwiceAsFar(b: nat, groups: nat, count: nat)
    requires groups >= 1 && 1024 * count < Extent(b, groups + 1) && b > 0
    ensures 512 * count < Extent(b, groups)
  {
    MulMono(1, groups, GroupSize(b));
    assert (groups + 1) * GroupSize(b) == groups * GroupSize(b) + GroupSize(b);
  }

  // ---------- index 0 ----------

  /**
   * Index 0 wraps to 2^32 - 1, so a block number that is still 0 addresses bytes behind every
   * block group; on any device whose next group could not be indexed, behind the device.
   */
  lemma IndexZeroIsOffDevice(b: nat, groups: nat, disk: nat)
    requires GoodBlockSize(b) && (groups + 1) * (8 * b) < TWO_32
    requires disk < Extent(b, groups + 1)
    ensures U32(b * 8) != 0 && DataOffset(b, 0) >= disk
  {
    GoodSizes(b);
    var g, bit := SplitIndex(TWO_32 - 1, 8 * b);
    OffsetsByGroup(b, 0, TWO_32 - 1, 8 * b, g, bit);
    NoWrap(b, g, bit);
    if g < groups + 1 {
      MulMono(g + 1, groups + 1, 8 * b);
      OneGroupLess(g + 1, 8 * b);
      assert false;
    }
    MulMono(groups + 1, g, GroupSize(b));
    ProductBelow(b, bit);
  }
}

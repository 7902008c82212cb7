// The mounted file system, updated in place on a flat device (src/chisai-core/fs.c). Every method
// is tied to the function that specifies it by what the device holds before and after.
module FileSystems {
  import opened Align
  import opened Bits
  import opened BlockGroupTable
  import opened Codec
  import opened DirTables
  import opened Disk
  import opened FileIO
  import opened FileMap
  import opened Following
  import opened Handles
  import opened Invariant
  import opened Layout
  import opened Moves
  import opened Namespace
  import opened Nodes
  import opened Operations
  import opened Paths
  import opened Pools
  import opened Resolution
  import opened Runs
  import opened State
  import opened Tables
  import opened Truncate

  /** The device holds `groups` whole block groups, no further one fits, and indices have 32 bits. */
  predicate OnDevice(b: nat, groups: nat, length: nat) {
    && GoodBlockSize(b) && PowerOfTwo(b)
    && Extent(b, groups) <= length < Extent(b, groups + 1)
    && (groups + 1) * (8 * b) < TWO_32
  }

  /** Read both bitmaps of every group. */
  method LoadBitmaps(image: Bytes, b: nat, groups: nat) returns (data: seq<seq<bv8>>, inodes: seq<seq<bv8>>)
    requires GoodBlockSize(b)
    ensures data == DataBitmaps(b, groups, image) && inodes == InodeBitmaps(b, groups, image)
  {
    hide GroupSize, Slice, AsBits, Start;
    GoodSizes(b);
    var size := CodeGroupSize(b);
    data, inodes := [], [];
    for i := 0 to groups
      invariant data == DataBitmaps(b, groups, image)[..i]
      invariant inodes == InodeBitmaps(b, groups, image)[..i]
    {
      var off := b + size * i;
      BitmapStart(b, i);
      data := data + [AsBits(Slice(image, off, b))];
      inodes := inodes + [AsBits(Slice(image, off + b, b))];
    }
  }

  lemma PoolAlloc(p: Pool, per: nat)
    requires WellFormed(p, per) && AllocReady(p)
    ensures |Alloc(p).0| == |p| && (Alloc(p).1 == 0 ==> Alloc(p).0 == p)
  {
    AllocAddsOne(p, per);
    AllocZeroSame(p, per);
  }

  function BlankInode(): (x: Inode) { NewInode(0, 1, 0, 0, 0) }

  class FileSystem {
    const device: array<byte>
    const b: nat
    const groups: nat
    const inodeGroups: BlockGroups
    const dataGroups: BlockGroups
    var freeInodes: nat
    var freeBlocks: nat
    ghost const Repr: set<object>

    /** The allocators and the device share no storage, and their sizes agree. (A match keeps it one unit in proofs.) */
    ghost predicate Valid()
      reads this, Repr
      ensures Valid() ==> b > 0 && {this, device, inodeGroups, dataGroups} <= Repr
    {
      match (b, groups) case (size, count) =>
      && this in Repr && device in Repr
      && inodeGroups in Repr && inodeGroups.Repr <= Repr && this !in inodeGroups.Repr && device !in inodeGroups.Repr
      && dataGroups in Repr && dataGroups.Repr <= Repr && this !in dataGroups.Repr && device !in dataGroups.Repr
      && inodeGroups.Repr !! dataGroups.Repr
      && inodeGroups.Valid() && dataGroups.Valid()
      && inodeGroups.per == 8 * size && dataGroups.per == 8 * size
      && |inodeGroups.pool| == count && |dataGroups.pool| == count
      && OnDevice(size, count, device.Length)
      && freeInodes < TWO_32 && freeBlocks < TWO_32
    }

    /** The file system as a value: what the device holds, with the allocators and counters. */
    ghost function Model(): (st: Fs)
      reads this, device, inodeGroups, dataGroups
      requires b > 0
    {
      View(b, groups * (8 * b), device[..], inodeGroups.pool, dataGroups.pool, freeInodes, freeBlocks)
    }

    ghost predicate Slot(i: nat) {
      1 <= i <= groups * (8 * b)
    }

    /** The slots of the device are the indices of either pool. */
    lemma SlotIsIndex(p: Pool, i: nat)
      requires WellFormed(p, 8 * b) && |p| == groups
      ensures Slot(i) <==> InRange(p, i)
      ensures |Pools.Release(p, i)| == |p|
    {
      CapacityIsProduct(p, 8 * b);
      ReleaseKeepsGroups(p, i);
    }

    lemma ModelShape()
      requires Valid()
      ensures b > 0 && Shape(Model())
    {
      CapacityIsProduct(inodeGroups.pool, 8 * b);
      CapacityIsProduct(dataGroups.pool, 8 * b);
      var st := Model();
      forall i | 0 <= i < |st.inodes|
        ensures st.inodes[i].Valid()
      {
        DecodedIsValid(if i == 0 then seq(INODE_BYTES, _ => 0)
            else Slice(device[..], Start(b, InodeSlot(i)), INODE_BYTES));
      }
    }

    /** blkgrps_load: the bitmaps of every group, read from the device. */
    constructor (image: Bytes, blockSize: nat, count: nat, inodes: nat, blocks: nat)
      requires OnDevice(blockSize, count, |image|) && inodes < TWO_32 && blocks < TWO_32
      ensures Valid() && fresh(Repr) && b == blockSize && groups == count
      ensures device[..] == image && freeInodes == inodes && freeBlocks == blocks
      ensures LoadedFrom(dataGroups.pool, DataBitmaps(b, groups, image))
      ensures LoadedFrom(inodeGroups.pool, InodeBitmaps(b, groups, image))
    {
      var dataImages, inodeImages := LoadBitmaps(image, blockSize, count);
      var inner := new byte[|image|](k requires 0 <= k < |image| => image[k]);
      device, b, groups := inner, blockSize, count;
      var data := new BlockGroups(dataImages, blockSize);
      var nodes := new BlockGroups(inodeImages, blockSize);
      dataGroups, inodeGroups := data, nodes;
      freeInodes, freeBlocks := inodes, blocks;
      Repr := {this, inner} + data.Repr + nodes.Repr;
    }

    // ---------- device ----------

    method Save(off: nat, data: Bytes)
      requires off + |data| <= device.Length
      modifies device
      ensures device[..] == Splice(old(device[..]), off, data)
    {
      ghost var was := device[..];
      for k := 0 to |data|
        invariant device[..off] == was[..off]
        invariant device[off..off + k] == data[..k]
        invariant device[off + k..] == was[off + k..]
      {
        device[off + k] := data[k];
        assert device[off..off + k + 1] == data[..k] + [data[k]];
      }
      assert device[..] == device[..off] + device[off..off + |data|] + device[off + |data|..];
    }

    // ---------- inodes and blocks ----------

    method SaveInode(x: Inode, i: nat)
      requires Valid() && x.Valid() && Slot(i)
      modifies device
      ensures Valid() && Model() == State.SaveInode(old(Model()), i, x)
    {
      OffsetsAreExact(b, i);
      RegionInBounds(b, groups, InodeSlot(i));
      StoreInode(b, groups, device[..], i, x, inodeGroups.pool, dataGroups.pool, freeInodes, freeBlocks);
      Save(InodeOffset(b, i), EncodeInode(x));
    }

    method LoadInode(i: nat) returns (x: Inode)
      requires Valid() && Slot(i)
      ensures i < |Model().inodes| && x == Model().inodes[i]
    {
      hide Start, Extent, GroupSize, DecodeInode, Blocks, InodeOffset;
      OffsetsAreExact(b, i);
      RegionInBounds(b, groups, InodeSlot(i));
      var off := InodeOffset(b, i);
      x := DecodeInode(device[off..off + INODE_BYTES]);
    }

    method SaveBlock(d: nat, o: nat, data: Bytes)
      requires Valid() && Slot(d) && o + |data| <= b
      modifies device
      ensures Valid() && Model() == PutBlock(old(Model()), d, o, data)
    {
      OffsetsAreExact(b, d);
      RegionInBounds(b, groups, DataBlock(d));
      StoreBlock(b, groups, device[..], d, o, data, inodeGroups.pool, dataGroups.pool, freeInodes, freeBlocks);
      Save(o + DataOffset(b, d), data);
    }

    method LoadBlock(d: nat, o: nat, n: nat) returns (data: Bytes)
      requires Valid() && Slot(d) && o + n <= b
      ensures d < |Model().blocks| && |Model().blocks[d]| == b && data == Model().blocks[d][o..o + n]
    {
      hide Start, Extent, DataOffset, GroupSize, InodeOffset;
      OffsetsAreExact(b, d);
      RegionInBounds(b, groups, DataBlock(d));
      PartOfSlice(device[..], Start(b, DataBlock(d)), b, o, n);
      var off := o + DataOffset(b, d);
      data := device[off..off + n];
    }

    method SaveDir(dir: DirTable, d: nat)
      requires Valid() && Slot(d) && dir.node.Length == SLOTS
      modifies device
      ensures Valid() && Model() == State.SaveDir(old(Model()), d, old(dir.Model()))
    {
      SaveBlock(d, 0, Tables.Encode(Table(dir.node[..], dir.size, dir.checksum)));
    }

    method LoadDir(d: nat) returns (dir: DirTable)
      requires Valid() && Slot(d)
      ensures fresh(dir) && fresh(dir.node) && dir.node.Length == SLOTS && dir.Model() == DirAt(Model(), d)
    {
      var data := LoadBlock(d, 0, TABLE_BYTES);
      dir := new DirTable.Load(Tables.Decode(data));
    }

    // ---------- allocation ----------

    method DataAlloc() returns (d: nat)
      requires Valid() && AllocReady(Model().dpool)
      modifies Repr
      ensures Valid() && (Model(), d) == State.DataAlloc(old(Model()))
    {
      hide Inodes, Blocks, OnDevice, AllocReady, Alloc;
      PoolAlloc(dataGroups.pool, 8 * b);
      d := dataGroups.Alloc();
      if d == 0 {
        return;
      }
      freeBlocks := U32(freeBlocks - 1);
    }

    method InodeAlloc() returns (i: nat)
      requires Valid() && AllocReady(Model().ipool)
      modifies Repr
      ensures Valid() && (Model(), i) == State.InodeAlloc(old(Model()))
    {
      hide Inodes, Blocks, OnDevice, AllocReady, Alloc;
      PoolAlloc(inodeGroups.pool, 8 * b);
      i := inodeGroups.Alloc();
      if i == 0 {
        return;
      }
      freeInodes := U32(freeInodes - 1);
    }

    method DataRelease(d: nat)
      requires Valid() && (d == 0 || Slot(d))
      modifies Repr
      ensures Valid() && Model() == State.DataRelease(old(Model()), d)
    {
      hide Inodes, Blocks, OnDevice, Release;
      SlotIsIndex(dataGroups.pool, d);
      dataGroups.Release(d);
      freeBlocks := U32(freeBlocks + 1);
    }

    method InodeRelease(i: nat)
      requires Valid() && (i == 0 || Slot(i))
      modifies Repr
      ensures Valid() && Model() == State.InodeRelease(old(Model()), i)
    {
      hide Inodes, Blocks, OnDevice, Release;
      SlotIsIndex(inodeGroups.pool, i);
      inodeGroups.Release(i);
      freeInodes := U32(freeInodes + 1);
    }

    method FindInode(i: nat) returns (found: bool, x: Inode)
      requires Valid() && (i == 0 || Slot(i))
      ensures found == InUse(Model().ipool, i)
      ensures found ==> i < |Model().inodes| && x == Model().inodes[i]
    {
      hide Inodes, Blocks, OnDevice;
      SlotIsIndex(inodeGroups.pool, i);
      found := inodeGroups.Exist(i);
      if !found {
        return false, *;
      }
      x := LoadInode(i);
    }

    method FindDir(d: nat) returns (found: bool, dir: DirTable?)
      requires Valid() && (d == 0 || Slot(d))
      ensures found == InUse(Model().dpool, d)
      ensures found ==>
                && dir != null && fresh(dir) && fresh(dir.node) && dir.node.Length == SLOTS
                && dir.Model() == DirAt(Model(), d)
    {
      hide Inodes, Blocks, OnDevice;
      SlotIsIndex(dataGroups.pool, d);
      found := dataGroups.Exist(d);
      if !found {
        return false, null;
      }
      dir := LoadDir(d);
    }

    // ---------- paths ----------

    /** One component of a path: load the table behind inode `d`, look up, load the inode found. */
    method WalkInto(ghost d: nat, dirInode: Inode, name: Name) returns (idx: nat, inode: Inode)
      requires Valid() && Inv(Model()) && Live(Model(), d) && TableOrNothing(Model(), d)
      requires dirInode == Model().inodes[d] && 0 !in name
      ensures idx == Enter(Model(), d, name)
      ensures idx != 0 ==> idx < |Model().inodes| && inode == Model().inodes[idx]
    {
      hide Inodes, Blocks, Inv, HintsLive, WellFormed, OnDevice, TableOrNothing, SearchStays, Tables.Lookup;
      ghost var st := Model();
      inode := dirInode;
      FirstSlotInRange(st, d);
      var found, dir := FindDir(dirInode.direct[0]);
      if !found {
        return 0, inode;
      }
      TableIsGood(st, d, name);
      idx := dir.FileInodeIdx(name);
      found, inode := FindInode(idx);
      if idx == 0 || !found {
        ZeroFree(st.ipool);
        return 0, inode;
      }
    }

    method PathToInode(path: Bytes) returns (idx: nat, inode: Inode)
      requires Valid() && Inv(Model()) && 0 !in path && ThroughDirs(Model(), Tokens(path))
      ensures idx == Resolve(Model(), Tokens(path))
      ensures idx != 0 ==> idx < |Model().inodes| && inode == Model().inodes[idx]
    {
      hide Inodes, Blocks, Inv, ThroughDirs, Enter, TableOrNothing, OnDevice;
      ghost var st := Model();
      var tokens := Tokens(path);
      TokensArePlain(path);
      var found;
      idx := ROOT;
      RootSlot(st);
      found, inode := FindInode(ROOT);
      if !found {
        FailedWalk(st, tokens, 0);
        return 0, inode;
      }
      var k := 0;
      while k < |tokens|
        invariant 0 <= k <= |tokens| && Valid() && Model() == st
        invariant idx != 0 && idx == Resolve(st, tokens[..k])
        invariant idx < |st.inodes| && inode == st.inodes[idx]
      {
        WalkedTo(st, tokens, k, idx);
        NextStep(st, tokens, k, idx);
        idx, inode := WalkInto(idx, inode, tokens[k]);
        if idx == 0 {
          FailedWalk(st, tokens, k + 1);
          return;
        }
        k := k + 1;
      }
      assert tokens[..k] == tokens;
    }

    /** fs_path_to_parent: the parent directory's inode and table. */
    method PathToParent(path: Bytes) returns (e: Error, ghost d: nat, inode: Inode, dir: DirTable?)
      requires Valid() && Inv(Model()) && PathOk(Model(), path)
      ensures (e, d) == Resolution.PathToParent(Model(), path)
      ensures e == OK ==>
                && d < |Model().inodes| && LiveDir(Model(), d) && inode == Model().inodes[d]
                && dir != null && fresh(dir) && fresh(dir.node) && dir.node.Length == SLOTS
                && dir.Model() == DirOf(Model(), d) && dir.size <= SLOTS && Slot(inode.direct[0])
                && SearchStays(dir.Model(), Last(path))
    {
      hide Inodes, Blocks, Inv, ThroughDirs, Enter, OnDevice, SearchStays;
      LastIsString(path);
      ghost var st := Model();
      if |Last(path)| > NAME_LEN {
        inode := BlankInode();
        return ENAMETOOLONG, 0, inode, null;
      }
      var idx;
      idx, inode := PathToInode(Parent(path));
      d := idx;
      if idx == 0 {
        return ENOENT, 0, inode, null;
      }
      ParentReached(st, path);
      FirstSlotInRange(st, d);
      var found;
      found, dir := FindDir(inode.direct[0]);
      if !found {
        return CORRUPT, d, inode, null;
      }
      TableIsGood(st, d, Last(path));
      ZeroFree(st.dpool);
      e := OK;
    }

    // ---------- namespace operations ----------

    /** Enter an inode in the table of directory `d` and store the table; a full table is stored as it was. */
    method EnterName(ghost d: nat, dirInode: Inode, dir: DirTable, name: Name, i: nat) returns (ok: bool)
      requires Valid() && d < |Model().inodes| && dirInode == Model().inodes[d] && Slot(dirInode.direct[0])
      requires dir.node.Length == SLOTS && dir !in Repr && dir.node !in Repr && dir.Model() == DirOf(Model(), d)
      modifies device, dir, dir.node
      ensures Valid() && Model() == EnterIn(old(Model()), d, name, i)
      ensures ok == Tables.Insert(old(dir.Model()), name, i).1
    {
      hide Inodes, Blocks, OnDevice, Tables.Insert, DirOf;
      ok := dir.Insert(name, i);
      SaveDir(dir, dirInode.direct[0]);
    }

    /** Store the inode and the empty table of a new directory. */
    method FillDir(idx: nat, mode: nat, blk: nat)
      requires Valid() && Slot(idx) && Slot(blk) && DirModeOk(mode) && blk < TWO_32
      modifies device
      ensures Valid() && Model() == State.SaveDir(State.SaveInode(old(Model()), idx, NewDir(mode, blk)), blk, Empty())
    {
      hide Inodes, Blocks, OnDevice, DirModeOk, NewDir;
      var table := new DirTable.Load(Empty());
      NewDirValid(mode, blk);
      SaveInode(NewDir(mode, blk), idx);
      SaveDir(table, blk);
    }

    /** The part of mkdir that follows the checks. */
    method AddDir(ghost d: nat, dirInode: Inode, dir: DirTable, name: Name, mode: nat) returns (e: Error, ghost i: nat)
      requires Valid() && Inv(Model()) && HintsLive(Model().ipool) && HintsLive(Model().dpool) && DirModeOk(mode)
      requires d < |Model().inodes| && dirInode == Model().inodes[d] && Slot(dirInode.direct[0])
      requires dir.node.Length == SLOTS && dir !in Repr && dir.node !in Repr && dir.Model() == DirOf(Model(), d)
      modifies Repr, dir, dir.node
      ensures Valid() && (Model(), e, i) == MkdirIn(old(Model()), d, name, mode)
    {
      hide Inodes, Blocks, Inv, HintsLive, AllocReady, OnDevice, Alloc, DirAt, EnterIn, DirModeOk, Valid, NewDir;
      AllocsInRange(Model());
      var blk := DataAlloc();
      if blk == 0 {
        return ENOMEM, 0;
      }
      var idx := InodeAlloc();
      if idx == 0 {
        return ENOMEM, 0;
      }
      DirOfKept(old(Model()), Model(), d);
      var ok := EnterName(d, dirInode, dir, name, idx);
      FillDir(idx, mode, blk);
      return OK, idx;
    }

    method Mkdir(path: Bytes, mode: nat) returns (e: Error, ghost i: nat)
      requires Valid() && Inv(Model()) && HintsLive(Model().ipool) && HintsLive(Model().dpool)
      requires PathOk(Model(), path) && DirModeOk(mode)
      modifies Repr
      ensures Valid() && (Model(), e, i) == Operations.Mkdir(old(Model()), path, mode)
    {
      hide Inodes, Blocks, Inv, HintsLive, OnDevice, MkdirIn, Tables.Lookup, DirModeOk, DirAt, SearchStays,
          Resolution.PathToParent, Walkable;
      ghost var d: nat;
      var inode, dir;
      e, d, inode, dir := PathToParent(path);
      if e != OK {
        return e, 0;
      }
      var known := dir.FileInodeIdx(Last(path));
      if known != 0 {
        return EEXIST, 0;
      }
      e, i := AddDir(d, inode, dir, Last(path), mode);
    }

    /** The part of file creation that follows the checks. */
    method AddFile(ghost d: nat, dirInode: Inode, dir: DirTable, name: Name, mode: nat) returns (e: Error, i: nat)
      requires Valid() && Inv(Model()) && HintsLive(Model().ipool) && FileModeOk(mode)
      requires d < |Model().inodes| && dirInode == Model().inodes[d] && Slot(dirInode.direct[0])
      requires dir.node.Length == SLOTS && dir !in Repr && dir.node !in Repr && dir.Model() == DirOf(Model(), d)
      modifies Repr, dir, dir.node
      ensures Valid() && (Model(), e, i) == CreateIn(old(Model()), d, name, mode)
    {
      hide Inodes, Blocks, Inv, HintsLive, AllocReady, OnDevice, Alloc, DirAt, EnterIn, FileModeOk, Valid, NewFile;
      InodeInRange(Model());
      var idx := InodeAlloc();
      if idx == 0 {
        return ENOMEM, 0;
      }
      DirOfKept(old(Model()), Model(), d);
      var ok := EnterName(d, dirInode, dir, name, idx);
      NewFileValid(mode);
      SaveInode(NewFile(mode), idx);
      return OK, idx;
    }

    method CreateFile(path: Bytes, mode: nat) returns (e: Error, i: nat)
      requires Valid() && Inv(Model()) && HintsLive(Model().ipool) && PathOk(Model(), path) && FileModeOk(mode)
      modifies Repr
      ensures Valid() && (Model(), e, i) == Operations.CreateFile(old(Model()), path, mode)
    {
      hide Inodes, Blocks, Inv, HintsLive, OnDevice, CreateIn, Tables.Lookup, FileModeOk, DirAt, SearchStays,
          Resolution.PathToParent, Walkable;
      ghost var d: nat;
      var inode, dir;
      e, d, inode, dir := PathToParent(path);
      if e != OK {
        return e, 0;
      }
      var known := dir.FileInodeIdx(Last(path));
      if known != 0 {
        return EEXIST, 0;
      }
      e, i := AddFile(d, inode, dir, Last(path), mode);
    }

    /** Second half of a rename: enter inode `c` at `to`. */
    method MoveTo(c: nat, to: Bytes) returns (e: Error)
      requires Valid() && Inv(Model()) && PathOk(Model(), to)
      modifies device
      ensures Valid() && (Model(), e) == Moves.MoveTo(old(Model()), c, to)
    {
      hide Inodes, Blocks, Inv, OnDevice, DirAt, Resolution.PathToParent, Walkable, SearchStays;
      ghost var q: nat;
      var inode, dir;
      e, q, inode, dir := PathToParent(to);
      if e != OK {
        return;
      }
      var ok := dir.Insert(Last(to), c);
      if !ok {
        return CORRUPT;
      }
      SaveDir(dir, inode.direct[0]);
    }

    /** The source's entry is taken out and stored before the target is looked at. */
    method RenameFile(src: Bytes, dst: Bytes) returns (e: Error)
      requires Valid() && Inv(Model()) && PathOk(Model(), src) && PathOk(Model(), dst)
      modifies device
      ensures Valid() && (Model(), e) == Moves.RenameFile(old(Model()), src, dst)
    {
      hide Inodes, Blocks, Inv, OnDevice, DirAt, Resolution.PathToParent, Walkable, Moves.MoveTo, Tables.Lookup,
          Tables.Remove, SearchStays;
      ghost var st := Model();
      ghost var d: nat;
      var inode, dir;
      e, d, inode, dir := PathToParent(src);
      if e != OK {
        return;
      }
      var c := dir.FileInodeIdx(Last(src));
      if c == 0 {
        return ENOENT;
      }
      RemoveFindsLookup(dir.Model(), Last(src));
      var removed := dir.Remove(Last(src));
      assert removed == c; // so the code's return for a name that is not found is never taken
      SaveDir(dir, inode.direct[0]);
      CutKeepsTarget(st, src, dst, d);
      e := MoveTo(c, dst);
    }

    method RemoveFile(path: Bytes) returns (e: Error)
      requires Valid() && Inv(Model()) && PathOk(Model(), path)
      modifies Repr
      ensures Valid() && (Model(), e) == Moves.RemoveFile(old(Model()), path)
    {
      hide Inodes, Blocks, Inv, OnDevice, DirAt, Resolution.PathToParent, Walkable, Tables.Remove, Tables.Lookup,
          Release, SearchStays;
      ghost var st := Model();
      ghost var d: nat;
      var dirInode, dir;
      e, d, dirInode, dir := PathToParent(path);
      if e != OK {
        return;
      }
      RemovedIsLive(st, d, Last(path));
      var c := dir.Remove(Last(path));
      var found, inode := FindInode(c);
      if !found {
        return ABORT;
      }
      DataRelease(inode.direct[0]);
      InodeRelease(c);
      SaveDir(dir, dirInode.direct[0]);
    }

    // ---------- block map ----------

    /**
     * Entry `k` of an indirect table. Through index 0 the load is addressed behind the device, and
     * `word` is what it leaves.
     */
    method LoadWord(d: nat, k: nat, word: nat) returns (v: nat)
      requires Valid() && (d == 0 || Slot(d)) && 4 * k + 4 <= b
      ensures v == if d == 0 then word else Entry(BlockAt(Model(), d), k)
    {
      hide Start, Extent, DataOffset, GroupSize, InodeOffset;
      if d == 0 {
        IndexZeroIsOffDevice(b, groups, device.Length);
      } else {
        OffsetsAreExact(b, d);
        RegionInBounds(b, groups, DataBlock(d));
        PartOfSlice(device[..], Start(b, DataBlock(d)), b, 4 * k, 4);
      }
      var off := 4 * k + DataOffset(b, d);
      if off + 4 <= device.Length {
        v := FromLE(device[off..off + 4]);
      } else {
        v := word;
      }
    }

    method SaveWord(d: nat, k: nat, v: nat)
      requires Valid() && Slot(d) && 4 * k + 4 <= b
      modifies device
      ensures Valid() && Model() == PutEntry(old(Model()), d, k, v)
    {
      SaveBlock(d, 4 * k, ToLE(4, v));
    }

    /** fs_find_blk, for an inode held in memory. */
    method FindBlk(ghost i: nat, inode: Inode, off: nat, word: nat) returns (e: Error, idx: nat)
      requires Valid() && i < |Model().inodes| && (inode.indirect == 0 || Slot(inode.indirect))
      ensures (e, idx) == FileMap.FindBlk(State.SaveInode(Model(), i, inode), i, off, word)
    {
      hide Inodes, Blocks, OnDevice, Entry, BlockOf;
      SplitByDivision(b, off);
      var n := off / b;
      if n < DIRECT_BLKS {
        idx := inode.direct[n];
      } else if n < DIRECT_BLKS + b / 4 {
        idx := LoadWord(inode.indirect, n - DIRECT_BLKS, word);
      } else {
        return CORRUPT, 0;
      }
      e := if idx == 0 then ENOENT else OK;
    }

    /** Clear every entry of a new indirect table, one device access each. */
    method ZeroTable(d: nat)
      requires Valid() && Slot(d)
      modifies device
      ensures Valid() && d < |old(Model()).blocks|
      ensures Model() == old(Model()).(blocks := old(Model()).blocks[d := ZeroFill(old(Model()).blocks[d], b / 4)])
    {
      hide Inodes, Blocks, OnDevice, ToLE;
      ghost var st := Model();
      ModelSlot(d);
      for k := 0 to b / 4
        invariant Valid()
        invariant Model() == st.(blocks := st.blocks[d := ZeroFill(st.blocks[d], k)])
      {
        SaveWord(d, k, 0);
      }
    }

    lemma ModelSlot(d: nat)
      requires b > 0 && Slot(d)
      ensures d < |Model().blocks| && d < |Model().inodes|
    {
    }

    /** fs_alloc_blk, for an inode held in memory. */
    method AllocBlk(ghost i: nat, inode: Inode, off: nat) returns (e: Error, idx: nat, held: Inode)
      requires Valid() && i < |Model().inodes| && (inode.indirect == 0 || Slot(inode.indirect))
      requires TakesReady(Model(), inode, BlockOf(b, off))
      modifies Repr
      ensures Valid() && i < |Model().inodes|
      ensures (State.SaveInode(Model(), i, held), e, idx) ==
              FileMap.AllocBlk(State.SaveInode(old(Model()), i, inode), i, off)
    {
      hide Inodes, Blocks, OnDevice, Alloc, BlockOf, AllocReady, ZeroFill, PutBlock, Valid, State.SaveInode,
          FileMap.AllocBlk, Shape, U32;
      ghost var st := Model();
      held := inode;
      SplitByDivision(b, off);
      ModelShape();
      NextAlloc(st);
      HeldAlloc(st, i, inode, off);
      idx := DataAlloc();
      if idx == 0 {
        return ENOMEM, 0, held;
      }
      var n := off / b;
      if n < DIRECT_BLKS {
        held := held.(direct := held.direct[n := idx]);
      } else if n < DIRECT_BLKS + b / 4 {
        if held.indirect == 0 {
          held := held.(indirect := idx);
          ZeroTable(held.indirect);
          idx := DataAlloc();
        }
        SaveWord(held.indirect, n - DIRECT_BLKS, idx);
      } else {
        return CORRUPT, idx, held;
      }
      e := OK;
    }

    // ---------- file contents ----------

    /** Find the block behind `off`, allocating it when it is a hole. */
    method PrepareBlk(ghost i: nat, inode: Inode, off: nat, prev: nat, word: nat)
      returns (e: Error, idx: nat, held: Inode)
      requires Valid() && i < |Model().inodes| && (inode.indirect == 0 || Slot(inode.indirect))
      requires HintsLive(Model().dpool)
      modifies Repr
      ensures Valid() && i < |Model().inodes|
      ensures (State.SaveInode(Model(), i, held), e, idx) ==
              Prepare(State.SaveInode(old(Model()), i, inode), i, off, prev, word)
    {
      hide Inodes, Blocks, OnDevice, HintsLive, FileMap.AllocBlk, FileMap.FindBlk, Valid, Shape, TakesReady, BlockOf;
      held := inode;
      e, idx := FindBlk(i, inode, off, word);
      if e == ENOENT {
        ModelShape();
        LiveTakes(Model(), inode, BlockOf(b, off));
        e, idx, held := AllocBlk(i, inode, off);
      } else if e == CORRUPT {
        idx := prev;
      }
    }

    /** One round of the write loop: the chunk written has length `w`, 0 when no block is free. */
    method WriteRound(ghost i: nat, inode: Inode, buf: Bytes, off: nat, prev: nat, words: Words)
      returns (e: Error, idx: nat, held: Inode, w: nat)
      requires Valid() && i < |Model().inodes| && buf != []
      requires Writable(State.SaveInode(Model(), i, inode), i, off, |buf|, words)
      modifies Repr
      ensures Valid() && i < |Model().inodes|
      ensures var st := State.SaveInode(old(Model()), i, inode);
              && (e == ENOMEM <==> Prepare(st, i, off, prev, words(off)).1 == ENOMEM)
              && (e == ENOMEM ==> State.SaveInode(Model(), i, held) == st)
              && (e != ENOMEM ==>
                    idx == Prepare(st, i, off, prev, words(off)).2 && w == Chunk(b, off, |buf|)
                    && State.SaveInode(Model(), i, held) == Round(st, i, buf, off, prev, words))
    {
      hide Inodes, Blocks, OnDevice, Writable, Prepare, BlockOf, OffsetIn, PutBlock, Valid, State.SaveInode, HintsLive;
      ghost var st := State.SaveInode(Model(), i, inode);
      HeldIsReady(Model(), i, inode, off, |buf|, words);
      HeldPut(Model(), i, inode, 0, 0, []);
      PreparedSlot(st, i, off, |buf|, prev, words);
      SlotBelow(inode.indirect);
      e, idx, held := PrepareBlk(i, inode, off, prev, words(off));
      w := 0;
      if e != ENOMEM {
        ghost var mid := Model();
        HeldPut(mid, i, held, idx, 0, []);
        SlotBelow(idx);
        w := StoreChunk(idx, off, buf);
        HeldPut(mid, i, held, idx, OffsetIn(b, off), buf[..w]);
      }
    }

    /** Store as many bytes as fit between the offset and the end of its block. */
    method StoreChunk(d: nat, off: nat, buf: Bytes) returns (w: nat)
      requires Valid() && Slot(d)
      modifies device
      ensures Valid() && w == Chunk(b, off, |buf|)
      ensures Model() == PutBlock(old(Model()), d, OffsetIn(b, off), buf[..w])
    {
      hide Inodes, Blocks, BlockOf, PutBlock;
      CodeSplitsOffset(b, off);
      var offInBlk := off - AlignDown(off, b);
      w := Min(|buf|, b - offInBlk);
      SaveBlock(d, offInBlk, buf[..w]);
    }

    /** Indices of the model are slots of the device. */
    lemma SlotBelow(d: nat)
      requires b > 0
      ensures 0 < d < |Model().blocks| ==> Slot(d)
      ensures 0 < d < |Model().inodes| ==> Slot(d)
      ensures |Model().blocks| == |Model().inodes|
    {
    }

    /** The loop of fs_write_file: the held inode gains blocks, the device gains data. */
    method WriteBlocks(ghost i: nat, inode: Inode, buf: Bytes, off: nat, prev: nat, words: Words)
      returns (total: nat, held: Inode, ghost rounds: nat)
      requires Valid() && i < |Model().inodes| && inode == Model().inodes[i]
      requires Writable(Model(), i, off, |buf|, words)
      modifies Repr
      ensures Valid() && i < |Model().inodes|
      ensures (State.SaveInode(Model(), i, held), total) == WriteLoop(old(Model()), i, buf, off, prev, words)
      ensures total == |buf| ==> rounds == Rounds(b, off, |buf|)
    {
      hide Inodes, Blocks, OnDevice, Writable, Prepare, BlockOf, Round, WriteLoop, Valid, State.SaveInode;
      ghost var st := Model();
      var idx, pos := prev, off;
      total, held, rounds := 0, inode, 0;
      HeldNow(st, i);
      assert buf[0..] == buf;
      while total < |buf|
        invariant Valid() && i < |Model().inodes| && total <= |buf| && pos == off + total
        invariant Writable(State.SaveInode(Model(), i, held), i, pos, |buf| - total, words)
        invariant rounds + Rounds(b, pos, |buf| - total) == Rounds(b, off, |buf|)
        invariant var (u, t) := WriteLoop(State.SaveInode(Model(), i, held), i, buf[total..], pos, idx, words);
                  WriteLoop(st, i, buf, off, prev, words) == (u, total + t)
      {
        ghost var was, before := State.SaveInode(Model(), i, held), idx;
        HeldPut(Model(), i, held, 0, 0, []);
        var e, w;
        e, idx, held, w := WriteRound(i, held, buf[total..], pos, idx, words);
        RoundOfLoop(was, State.SaveInode(Model(), i, held), i, buf[total..], pos, before, words, w, idx);
        if e == ENOMEM {
          return;
        }
        assert buf[total..][w..] == buf[total + w..];
        pos, total, rounds := pos + w, total + w, rounds + 1;
      }
      NothingLeft(State.SaveInode(Model(), i, held), i, buf[total..], pos, idx, words);
    }

    method WriteFile(i: nat, inode: Inode, buf: Bytes, off: nat, prev: nat, words: Words)
      returns (total: nat, held: Inode)
      requires Valid() && i < |Model().inodes| && inode == Model().inodes[i]
      requires Writable(Model(), i, off, |buf|, words)
      modifies Repr
      ensures Valid() && (Model(), total) == FileIO.WriteFile(old(Model()), i, buf, off, prev, words)
      ensures i < |Model().inodes| && held == Model().inodes[i]
    {
      hide Inodes, Blocks, OnDevice, Writable, WriteLoop, Valid, State.SaveInode;
      ghost var st := Model();
      WrittenInode(st, i, buf, off, prev, words);
      var oldSize := inode.size;
      ghost var rounds;
      total, held, rounds := WriteBlocks(i, inode, buf, off, prev, words);
      HeldAgain(Model(), i, held);
      SlotBelow(i);
      held := SetSize(held, NewSize(oldSize, off, total));
      HeldAgain(Model(), i, held);
      SaveInode(held, i);
    }

    /** Load as many bytes as are wanted and left between the offset and the end of its block. */
    method LoadChunk(d: nat, off: nat, size: nat) returns (data: Bytes)
      requires Valid() && Slot(d)
      ensures data == Head(Model(), d, off, size) && |data| == Chunk(b, off, size)
    {
      hide Inodes, Blocks, BlockOf;
      CodeSplitsOffset(b, off);
      var offInBlk := off - AlignDown(off, b);
      data := LoadBlock(d, offInBlk, Min(size, b - offInBlk));
    }

    method ReadFile(ghost i: nat, inode: Inode, size: nat, off: nat, words: Words) returns (r: ReadResult)
      requires Valid() && Inv(Model()) && Live(Model(), i) && inode == Model().inodes[i]
      requires InReach(b, off, Min(size, inode.size)) && ProbeSafe(Model(), i, off, Min(size, inode.size), words)
      ensures r == FileIO.ReadFile(Model(), i, size, off, words)
    {
      hide Inodes, Blocks, OnDevice, Inv, InReach, ProbeSafe, FileMap.FindBlk, ReadLoop, Head, Chunk, Valid;
      ghost var st := Model();
      var pos: nat, data: Bytes := off, [];
      var wanted, total := Min(size, inode.size), 0;
      PrependNothing(ReadLoop(st, i, wanted, pos, words));
      HeldNow(st, i);
      while total < wanted
        invariant Valid() && Model() == st && total <= wanted
        invariant InReach(b, pos, wanted - total) && ProbeSafe(st, i, pos, wanted - total, words)
        invariant FileIO.ReadFile(st, i, size, off, words) == Prepend(data, ReadLoop(st, i, wanted - total, pos, words))
      {
        FoundSlot(st, i, wanted - total, pos, words);
        ReadUnfold(st, i, wanted - total, pos, words, data);
        SlotBelow(inode.indirect);
        var e, idx := FindBlk(i, inode, pos, words(pos));
        if e != OK {
          return Failed(e);
        }
        SlotBelow(idx);
        var chunk := LoadChunk(idx, pos, wanted - total);
        data := data + chunk;
        pos, total := pos + |chunk|, total + |chunk|;
      }
      ReadUnfold(st, i, wanted - total, pos, words, data);
      r := Read(data);
    }

    /** The loop of fs_truncate_file, from the last counted slot down. */
    method DropBlocks(ghost i: nat, inode: Inode, count: nat, keep: nat) returns (e: Error, held: Inode)
      requires Valid() && Inv(Model()) && Live(Model(), i) && inode == Model().inodes[i] && count <= DIRECT_BLKS
      modifies Repr
      ensures Valid() && i < |Model().inodes|
      ensures e == TruncateLoop(old(Model()), i, count, keep).1
      ensures e == OK ==> State.SaveInode(Model(), i, held) == TruncateLoop(old(Model()), i, count, keep).0
    {
      hide Inodes, Blocks, OnDevice, Inv, State.SaveInode, Valid, DropBlock, Live;
      ghost var st := Model();
      SlotsInRange(st, i);
      HeldNow(st, i);
      held := inode;
      var n: nat := count;
      while n > keep
        invariant Valid() && i < |Model().inodes| && n <= count
        invariant |Model().blocks| == |st.blocks|
        invariant forall s :: 0 <= s < n ==> held.direct[s] == inode.direct[s]
        invariant TruncateLoop(st, i, count, keep) == TruncateLoop(State.SaveInode(Model(), i, held), i, n, keep)
      {
        HeldDrop(Model(), i, held, n - 1, keep);
        if held.direct[n - 1] == 0 {
          return ABORT, held;
        }
        SlotBelow(held.direct[n - 1]);
        DataRelease(held.direct[n - 1]);
        held := held.(direct := held.direct[n - 1 := 0]);
        n := n - 1;
      }
      e := OK;
    }

    /** fs_truncate_file; when one of its assertions fails the process ends. */
    method TruncateFile(i: nat, inode: Inode, size: nat) returns (e: Error, held: Inode)
      requires Valid() && Inv(Model()) && Live(Model(), i) && !IsDir(Model().inodes[i])
      requires inode == Model().inodes[i] && inode.blkcnt <= DIRECT_BLKS
      modifies Repr
      ensures Valid() && i < |Model().inodes|
      ensures e == Truncate.TruncateFile(old(Model()), i, size).1
      ensures e == OK ==> Model() == Truncate.TruncateFile(old(Model()), i, size).0 && held == Model().inodes[i]
    {
      hide Inodes, Blocks, OnDevice, Inv, State.SaveInode, Valid, TruncateLoop, Live, BlockOf;
      ghost var st := Model();
      SlotsInRange(st, i);
      held := inode;
      if inode.size < size {
        return ABORT, held;
      }
      TruncatedInode(st, i, size);
      SplitByDivision(b, size);
      e, held := DropBlocks(i, inode, inode.blkcnt, size / b);
      if e != OK {
        return;
      }
      HeldAgain(Model(), i, held);
      SlotBelow(i);
      held := SetSize(held, size);
      HeldAgain(Model(), i, held);
      SaveInode(held, i);
    }

    // ---------- runs ----------

    /** One operation; a file is written and truncated through a handle that agrees with the device. */
    method Do(op: Op) returns (e: Error)
      requires Valid() && Inv(Model()) && Allowed(Model(), op)
      modifies Repr
      ensures Valid() && (e != ABORT ==> Inv(Model()) && Model() == Step(old(Model()), op))
    {
      hide Inodes, Blocks, OnDevice, Valid, Inv, Walkable, HintsLive, Live, TargetFree, Permitted, Touched, Overcounts;
      hide Operations.Mkdir, Operations.CreateFile, Moves.RenameFile, Moves.RemoveFile, FileIO.WriteFile,
          Truncate.TruncateFile;
      ghost var st := Model();
      StepStays(st, op);
      e := OK;
      match op
      case OpMkdir(path, mode) =>
        ghost var j;
        e, j := Mkdir(path, mode);
      case OpCreate(path, mode) =>
        var j;
        e, j := CreateFile(path, mode);
      case OpWrite(i, buf, off, prev, words) =>
        LiveSlot(st, i);
        PermittedWrite(st, i, off, |buf|, words);
        SlotBelow(i);
        var inode := LoadInode(i);
        var total, held := WriteFile(i, inode, buf, off, prev, words);
      case OpTruncate(i, size) =>
        LiveSlot(st, i);
        SlotBelow(i);
        var inode := LoadInode(i);
        var held;
        e, held := TruncateFile(i, inode, size);
      case OpRename(src, dst) =>
        e := RenameFile(src, dst);
      case OpRemove(path) =>
        e := RemoveFile(path);
    }

    /** A run of operations; it ends early when an operation trips one of the code's assertions. */
    method DoAll(ops: seq<Op>) returns (died: bool)
      requires Valid() && Inv(Model()) && AllAllowed(Model(), ops)
      modifies Repr
      ensures Valid() && (!died ==> Inv(Model()) && Model() == Run(old(Model()), ops))
    {
      hide Inodes, Blocks, OnDevice, Valid, Inv, Allowed, Step, Run, AllAllowed;
      ghost var st := Model();
      assert ops[0..] == ops;
      var k := 0;
      while k < |ops|
        invariant 0 <= k <= |ops| && Valid() && Inv(Model())
        invariant AllAllowed(Model(), ops[k..]) && Run(st, ops) == Run(Model(), ops[k..])
      {
        RunUnfold(Model(), ops[k..]);
        assert ops[k..][1..] == ops[k + 1..];
        var e := Do(ops[k]);
        if e == ABORT {
          return true;
        }
        k := k + 1;
      }
      RunUnfold(Model(), ops[k..]);
      died := false;
    }

    // ---------- mounting ----------

    /** fs_create_root; `ok` says that its three assertions hold. */
    method CreateRoot() returns (ok: bool)
      requires Valid() && Fresh(Model())
      modifies Repr
      ensures Valid() && (Model(), ok) == Runs.CreateRoot(old(Model()))
      ensures ok && Inv(Model())
    {
      hide Inodes, Blocks, OnDevice, Inv, Fresh, AllocReady, Alloc, Valid, RootInode;
      RootSteps(Model());
      MountMeaning(Model());
      var rootDir := new DirTable.Load(Empty());
      var d := DataAlloc();
      SlotBelow(d);
      SaveDir(rootDir, d);
      var bad := InodeAlloc();
      var i := InodeAlloc();
      SlotBelow(i);
      SaveInode(RootInode(d), i);
      ok := d == 1 && bad == BADBLK_INODE && i == ROOT;
    }
  }

  // ---------- a freshly formatted device ----------

  predicate Blank(images: seq<seq<bv8>>) {
    forall g, k :: 0 <= g < |images| && 0 <= k < |images[g]| ==> images[g][k] == 0
  }

  lemma BlankFlags(s: seq<bv8>)
    requires forall k :: 0 <= k < |s| ==> s[k] == 0
    ensures forall n :: 0 <= n < |Flags(s)| ==> !Flags(s)[n]
  {
    forall n: nat | n < |Flags(s)|
      ensures !Flags(s)[n]
    {
      FlagAt(s, n / 8, n % 8);
      assert n == 8 * (n / 8) + n % 8;
    }
  }

  lemma {:induction false} NothingInUse(p: Pool, i: nat)
    requires forall g, n :: 0 <= g < |p| && 0 <= n < |p[g].bits| ==> !p[g].bits[n]
    ensures !InUse(p, i)
  {
    if p != [] && i > |p[0].bits| {
      assert forall g :: 0 <= g < |p| - 1 ==> p[1..][g] == p[g + 1];
      NothingInUse(p[1..], i - |p[0].bits|);
    }
  }

  lemma BlankPool(p: Pool, images: seq<seq<bv8>>)
    requires LoadedFrom(p, images) && Blank(images)
    ensures HintsExact(p) && forall i: nat :: !InUse(p, i)
  {
    forall g, n | 0 <= g < |p| && 0 <= n < |p[g].bits|
      ensures !p[g].bits[n]
    {
      assert p[g] == Scanned(images[g]);
      BlankFlags(images[g]);
    }
    forall i: nat
      ensures !InUse(p, i)
    {
      NothingInUse(p, i);
    }
  }

  /** fs_init on a freshly formatted device: no index is taken, so the root is created. */
  method Mount(image: Bytes, b: nat, count: nat) returns (fs: FileSystem, ok: bool)
    requires OnDevice(b, count, |image|) && count > 0
    requires Blank(DataBitmaps(b, count, image)) && Blank(InodeBitmaps(b, count, image))
    ensures fresh(fs.Repr) && fs.Valid() && ok && Inv(fs.Model())
    ensures HintsLive(fs.Model().ipool) && HintsLive(fs.Model().dpool)
    ensures BlockDrift(fs.Model()) == 0 && InodeDrift(fs.Model()) == 0
    ensures forall p: Path :: TreeAt(Tree(fs.Model()), p) == if p == [] then ROOT else 0
  {
    hide Inodes, Blocks, Inv, Alloc, HintsLive, HintsExact, LoadedFrom, DataBitmaps, InodeBitmaps, InUse, Shape,
        OnlyTheRoot, Extent, GroupSize;
    AllIndices(b, count);
    var free := count * (8 * b);
    fs := new FileSystem(image, b, count, free, free);
    fs.ModelShape();
    BlankPool(fs.dataGroups.pool, DataBitmaps(b, count, image));
    BlankPool(fs.inodeGroups.pool, InodeBitmaps(b, count, image));
    CapacityIsProduct(fs.dataGroups.pool, 8 * b);
    CapacityIsProduct(fs.inodeGroups.pool, 8 * b);
    assert Fresh(fs.Model());
    MountMeaning(fs.Model());
    var rooted := fs.inodeGroups.Exist(ROOT);
    ok := true;
    if !rooted {
      ok := fs.CreateRoot();
    }
  }

  lemma AllIndices(b: nat, count: nat)
    requires GoodBlockSize(b) && count > 0 && (count + 1) * (8 * b) < TWO_32
    ensures 2 < count * (8 * b) < TWO_32
  {
    assert (count + 1) * (8 * b) == count * (8 * b) + 8 * b;
    assert count * (8 * b) == (count - 1) * (8 * b) + 8 * b;
    assert (count - 1) * (8 * b) >= 0;
  }
}

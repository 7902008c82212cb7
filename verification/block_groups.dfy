// The block groups held in memory while the file system is mounted, updated in place
// (src/chisai-core/block_group.c). One object per kind of index: inodes or data blocks.
module BlockGroupTable {
  import opened Bits
  import opened BitVector
  import opened Pools

  class BlockGroup {
    const bitmap: BitVec
    var next: nat

    function Model(): (g: Group)
      reads this, bitmap.inner
    {
      Group(bitmap.Model(), next)
    }

    constructor (bytes: seq<bv8>)
      ensures fresh(bitmap.inner) && fresh(this)
      ensures Model() == Scanned(bytes)
    {
      bitmap := new BitVec(bytes);
      new;
      next := bitmap.FindFirstSet();
    }

    method UpdateNext()
      modifies `next
      ensures Model() == Group(old(Model()).bits, FirstClear(old(Model()).bits))
    {
      next := bitmap.FindFirstSet();
    }

    method Alloc() returns (idx: nat)
      requires HintSafe(Model()) && next != 0
      modifies this, bitmap.inner
      ensures Model() == TakeNext(old(Model())) && idx == old(next)
    {
      idx := next;
      bitmap.Set(idx - 1);
      UpdateNext();
    }

    method FreeNum() returns (n: nat)
      ensures n == CountClear(Model().bits)
    {
      n := bitmap.CountZeros();
    }
  }

  ghost predicate Distinct(groups: seq<BlockGroup>) {
    && (forall g, h :: 0 <= g < h < |groups| ==> groups[g] != groups[h])
    && (forall g, h :: 0 <= g < h < |groups| ==> groups[g].bitmap.inner != groups[h].bitmap.inner)
  }

  class BlockGroups {
    const groups: seq<BlockGroup>
    const per: nat

    ghost var pool: Pool
    ghost const Repr: set<object>

    /** No two groups share storage. */
    ghost predicate Separate() {
      Distinct(groups)
    }

    /** The groups share no storage, and their bitmaps and hints are the ones in `pool`. */
    ghost predicate Valid()
      reads this, Repr
    {
      && per > 0
      && this in Repr
      && (forall g :: 0 <= g < |groups| ==> groups[g] in Repr && groups[g].bitmap.inner in Repr)
      && Separate()
      && |pool| == |groups|
      && (forall g :: 0 <= g < |groups| ==> groups[g].Model() == pool[g])
      && WellFormed(pool, per)
    }

    /** Load every group from its bitmap block and cache its first clear position. */
    constructor (images: seq<seq<bv8>>, size: nat)
      requires size > 0 && forall i :: 0 <= i < |images| ==> |images[i]| == size
      ensures Valid() && fresh(Repr) && per == 8 * size
      ensures |pool| == |images|
      ensures forall i :: 0 <= i < |images| ==> pool[i] == Scanned(images[i])
    {
      hide FirstClear, Flags, CountClear;
      var loaded: seq<BlockGroup> := [];
      ghost var objects: set<object> := {};
      for i := 0 to |images|
        invariant |loaded| == i && fresh(objects)
        invariant forall g :: 0 <= g < i ==> loaded[g] in objects && loaded[g].bitmap.inner in objects
        invariant Distinct(loaded)
        invariant forall g :: 0 <= g < i ==> loaded[g].Model() == Scanned(images[g])
      {
        var group := new BlockGroup(images[i]);
        loaded := loaded + [group];
        objects := objects + {group, group.bitmap.inner};
      }
      groups := loaded;
      per := 8 * size;
      pool := seq(|images|, i requires 0 <= i < |images| => Scanned(images[i]));
      Repr := objects + {this};
      new;
      forall g | 0 <= g < |pool|
        ensures HintSafe(pool[g]) && |pool[g].bits| == per
      {
        FirstClearMeaning(pool[g].bits);
      }
    }

    method Exist(idx: nat) returns (e: bool)
      requires Valid() && (idx == 0 || InRange(pool, idx))
      ensures e == InUse(pool, idx)
    {
      if idx == 0 {
        ZeroFree(pool);
        return false;
      }
      var grp, bit := Locate(pool, per, idx);
      assert groups[grp].Model() == pool[grp];
      e := groups[grp].bitmap.Get(bit);
    }

    /** Take the hinted bit of group `i`. */
    method AllocIn(i: nat) returns (idx: nat)
      requires Valid() && i < |groups| && HintSafe(pool[i]) && pool[i].next != 0
      modifies Repr
      ensures Valid() && pool == old(pool)[i := TakeNext(old(pool)[i])] && idx == old(pool)[i].next
    {
      assert groups[i].Model() == pool[i];
      idx := groups[i].Alloc();
      KeepOthers(i);
      TakeNextLemma(pool[i]);
      pool := pool[i := TakeNext(pool[i])];
    }

    /** Clear one bit of group `i`; the hint stays as it is. */
    method ResetIn(i: nat, bit: nat)
      requires Valid() && i < |groups| && bit < per
      modifies Repr
      ensures Valid() && pool == old(pool)[i := old(pool)[i].(bits := old(pool)[i].bits[bit := false])]
    {
      assert groups[i].Model() == pool[i] && HintSafe(pool[i]);
      groups[i].bitmap.Reset(bit);
      KeepOthers(i);
      pool := pool[i := pool[i].(bits := pool[i].bits[bit := false])];
    }

    /** An update inside group `i` leaves every other group's view alone. */
    twostate lemma KeepOthers(i: nat)
      requires i < |groups| && Separate() && |pool| == |groups|
      requires forall g :: 0 <= g < |groups| ==> old(groups[g].Model()) == pool[g]
      requires forall g :: 0 <= g < |groups| && g != i ==> unchanged(groups[g]) && unchanged(groups[g].bitmap.inner)
      ensures forall g :: 0 <= g < |groups| && g != i ==> groups[g].Model() == pool[g]
    {
    }

    /** Scan for the first group whose bitmap still has a clear bit. */
    method FindOpen() returns (i: nat)
      requires Valid()
      ensures i <= |groups|
      ensures forall k :: 0 <= k < i ==> CountClear(pool[k].bits) == 0
      ensures i < |groups| ==> CountClear(pool[i].bits) != 0
    {
      i := 0;
      while i < |groups|
        invariant 0 <= i <= |groups|
        invariant forall k :: 0 <= k < i ==> CountClear(pool[k].bits) == 0
      {
        assert groups[i].Model() == pool[i];
        var free := groups[i].FreeNum();
        if free != 0 {
          return;
        }
        i := i + 1;
      }
    }

    method Alloc() returns (idx: nat)
      requires Valid() && AllocReady(pool)
      modifies Repr
      ensures Valid() && (pool, idx) == Pools.Alloc(old(pool))
    {
      ghost var p, taken := pool, Pools.Alloc(pool);
      var i := FindOpen();
      if i == |groups| {
        AllocNone(p, per);
        return 0;
      }
      AllocAt(p, per, i);
      idx := AllocIn(i);
      idx := i * per + idx;
      assert pool == taken.0;
      assert idx == taken.1;
    }

    method Release(idx: nat)
      requires Valid() && (idx == 0 || InRange(pool, idx))
      modifies Repr
      ensures Valid() && pool == Pools.Release(old(pool), idx)
    {
      if idx == 0 {
        ZeroFree(pool);
        return;
      }
      var grp, bit := Locate(pool, per, idx);
      ResetIn(grp, bit);
    }
  }

  /** The group and the bit in it that stand for an index. */
  method Locate(ghost p: Pool, per: nat, idx: nat) returns (grp: nat, bit: nat)
    requires WellFormed(p, per) && per > 0 && InRange(p, idx)
    ensures grp < |p| && bit < per
    ensures InUse(p, idx) <==> p[grp].bits[bit]
    ensures Pools.Release(p, idx) == p[grp := p[grp].(bits := p[grp].bits[bit := false])]
  {
    SplitFindsBit(p, per, idx);
    grp := (idx - 1) / per;
    bit := (idx - 1) % per;
  }

  /** A group as it is right after its bitmap has been loaded. */
  function Scanned(bytes: seq<bv8>): (g: Group) {
    Group(Flags(bytes), FirstClear(Flags(bytes)))
  }
}

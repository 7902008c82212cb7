// The block-group allocator as a function of its bitmaps and cached hints
// (src/chisai-core/block_group.c). Inodes and data blocks are allocated by the same
// code over separate bitmaps, so one pool of groups stands for either kind.
module Pools {
  import opened Arith
  import opened Bits

  /** One group: its bitmap and the cached one-based position to hand out next. */
  datatype Group = Group(bits: seq<bool>, next: nat)

  type Pool = seq<Group>

  /** A non-zero hint always names a clear bit of its own group. */
  predicate HintSafe(g: Group) {
    g.next <= |g.bits| && (g.next != 0 ==> !g.bits[g.next - 1])
  }

  /** A zero hint belongs to a full group. Releases can break this. */
  predicate HintLive(g: Group) {
    g.next == 0 ==> CountClear(g.bits) == 0
  }

  /** The hint is what a fresh scan would cache. */
  predicate HintExact(g: Group) {
    g.next == FirstClear(g.bits)
  }

  predicate WellFormed(p: Pool, per: nat) {
    forall g :: 0 <= g < |p| ==> |p[g].bits| == per && HintSafe(p[g])
  }

  predicate HintsLive(p: Pool) {
    forall g :: 0 <= g < |p| ==> HintLive(p[g])
  }

  predicate HintsExact(p: Pool) {
    forall g :: 0 <= g < |p| ==> HintExact(p[g])
  }

  /** How many indices there are; they are one-based and run over all groups in order. */
  function Capacity(p: Pool): nat {
    if p == [] then 0 else |p[0].bits| + Capacity(p[1..])
  }

  predicate InRange(p: Pool, i: nat) {
    1 <= i <= Capacity(p)
  }

  /** Index `i` is allocated: the groups' bits in order, read at position `i - 1`. */
  predicate InUse(p: Pool, i: nat) {
    if p == [] then false
    else if i <= |p[0].bits| then i != 0 && p[0].bits[i - 1]
    else InUse(p[1..], i - |p[0].bits|)
  }

  /** How many indices are free. */
  function Clear(p: Pool): nat {
    if p == [] then 0 else CountClear(p[0].bits) + Clear(p[1..])
  }

  /** The allocation the code attempts is defined: the first open group has a non-zero hint. */
  predicate AllocReady(p: Pool) {
    p != [] ==> if CountClear(p[0].bits) != 0 then p[0].next != 0 else AllocReady(p[1..])
  }

  /** Set the hinted bit and rescan. With hint 0 the code would set bit `0 - 1`; callers rule it out. */
  function TakeNext(g: Group): (r: Group) {
    if 0 < g.next <= |g.bits| then
      var bits := g.bits[g.next - 1 := true];
      Group(bits, FirstClear(bits))
    else g
  }

  /** Take the hinted bit of the first group that is not full. */
  function Alloc(p: Pool): (r: (Pool, nat)) {
    if p == [] then (p, 0)
    else if CountClear(p[0].bits) != 0 then ([TakeNext(p[0])] + p[1..], p[0].next)
    else
      var (q, idx) := Alloc(p[1..]);
      ([p[0]] + q, if idx == 0 then 0 else |p[0].bits| + idx)
  }

  /** Releasing clears the bit and leaves the hint alone; index 0 and missing indices are ignored. */
  function Release(p: Pool, i: nat): (r: Pool) {
    if p == [] || i == 0 then p
    else if i <= |p[0].bits| then [p[0].(bits := p[0].bits[i - 1 := false])] + p[1..]
    else [p[0]] + Release(p[1..], i - |p[0].bits|)
  }

  lemma {:induction false} ReleaseKeepsGroups(p: Pool, i: nat)
    ensures |Release(p, i)| == |p|
  {
    if p != [] && i > |p[0].bits| { ReleaseKeepsGroups(p[1..], i - |p[0].bits|); }
  }

  /** Index 0 is never in use, and releasing it does nothing. */
  lemma ZeroFree(p: Pool)
    ensures !InUse(p, 0) && Release(p, 0) == p
  {
  }

  // ---------- the index split of the code ----------

  /** The code addresses index `i` as bit `(i - 1) % per` of group `(i - 1) / per`. */
  lemma SplitFindsBit(p: Pool, per: nat, i: nat)
    requires WellFormed(p, per) && per > 0 && i != 0
    ensures var g, bit := (i - 1) / per, (i - 1) % per;
            && bit < per
            && (InRange(p, i) <==> g < |p|)
            && (InUse(p, i) <==> g < |p| && p[g].bits[bit])
            && (g < |p| ==> Release(p, i) == p[g := p[g].(bits := p[g].bits[bit := false])])
  {
    DivModJoin(i - 1, per);
    BitOfIndex(p, per, (i - 1) / per, (i - 1) % per, i);
  }

  lemma {:induction false} BitOfIndex(p: Pool, per: nat, g: nat, bit: nat, i: nat)
    requires WellFormed(p, per) && bit < per && i == g * per + bit + 1
    ensures InRange(p, i) <==> g < |p|
    ensures InUse(p, i) <==> g < |p| && p[g].bits[bit]
    ensures g < |p| ==> Release(p, i) == p[g := p[g].(bits := p[g].bits[bit := false])]
    decreases g
  {
    if g != 0 {
      assert g * per == (g - 1) * per + per;
      assert (g - 1) * per >= 0;
      if p != [] {
        BitOfIndex(p[1..], per, g - 1, bit, i - per);
      }
    }
  }

  lemma {:induction false} CapacityIsProduct(p: Pool, per: nat)
    requires WellFormed(p, per)
    ensures Capacity(p) == |p| * per
  {
    if p != [] {
      CapacityIsProduct(p[1..], per);
      assert |p| * per == (|p| - 1) * per + per;
    }
  }

  // ---------- what alloc and release mean ----------

  lemma TakeNextLemma(g: Group)
    requires HintSafe(g) && g.next != 0
    ensures HintSafe(TakeNext(g)) && HintLive(TakeNext(g)) && HintExact(TakeNext(g))
    ensures CountClear(TakeNext(g).bits) == CountClear(g.bits) - 1
  {
    var bits := g.bits[g.next - 1 := true];
    CountClearUpdate(g.bits, g.next - 1, true, |g.bits|);
    FirstClearMeaning(bits);
    CountClearZero(bits, |bits|);
  }

  lemma {:induction false} InUseInRange(p: Pool, i: nat)
    requires InUse(p, i)
    ensures InRange(p, i)
  {
    if i > |p[0].bits| {
      InUseInRange(p[1..], i - |p[0].bits|);
    }
  }

  /**
   * Allocation refines insertion into the set of indices in use: it returns a free index and
   * adds exactly that one.
   */
  lemma {:induction false} AllocAddsOne(p: Pool, per: nat)
    requires WellFormed(p, per) && AllocReady(p)
    ensures var (q, idx) := Alloc(p);
            && |q| == |p| && WellFormed(q, per) && Capacity(q) == Capacity(p)
            && (idx != 0 ==> InRange(p, idx) && !InUse(p, idx))
            && (forall j: nat :: InUse(q, j) <==> InUse(p, j) || (idx != 0 && j == idx))
  {
    if p != [] {
      var (q, idx) := Alloc(p);
      if CountClear(p[0].bits) != 0 {
        assert HintSafe(p[0]);
        TakeNextLemma(p[0]);
        assert q[1..] == p[1..];
      } else {
        AllocAddsOne(p[1..], per);
        assert q[1..] == Alloc(p[1..]).0;
      }
      forall j: nat
        ensures InUse(q, j) <==> InUse(p, j) || (idx != 0 && j == idx)
      {
      }
    }
  }

  /** Allocation answers 0 exactly when every index is in use. */
  lemma {:induction false} AllocFailsIffFull(p: Pool, per: nat)
    requires WellFormed(p, per) && AllocReady(p)
    ensures Alloc(p).1 == 0 <==> forall i: nat :: InRange(p, i) ==> InUse(p, i)
  {
    AllocAddsOne(p, per);
    var idx := Alloc(p).1;
    if idx == 0 {
      AllocZeroFull(p, per);
    } else {
      assert InRange(p, idx) && !InUse(p, idx);
    }
  }

  lemma {:induction false} AllocZeroFull(p: Pool, per: nat)
    requires WellFormed(p, per) && AllocReady(p) && Alloc(p).1 == 0
    ensures forall i: nat :: InRange(p, i) ==> InUse(p, i)
  {
    if p != [] {
      CountClearZero(p[0].bits, per);
      AllocZeroFull(p[1..], per);
    }
  }

  /** Allocation takes one from the free count unless nothing is free, and keeps live hints live. */
  lemma {:induction false} AllocCounts(p: Pool, per: nat)
    requires WellFormed(p, per) && AllocReady(p)
    ensures var (q, idx) := Alloc(p);
            && Clear(q) == Clear(p) - (if idx == 0 then 0 else 1)
            && (idx == 0 <==> Clear(p) == 0)
            && (HintsLive(p) ==> HintsLive(q))
            && (HintsExact(p) ==> HintsExact(q))
  {
    if p != [] {
      var (q, idx) := Alloc(p);
      if CountClear(p[0].bits) != 0 {
        assert HintSafe(p[0]);
        TakeNextLemma(p[0]);
        assert q[1..] == p[1..];
      } else {
        AllocCounts(p[1..], per);
        assert q[1..] == Alloc(p[1..]).0;
      }
    }
  }

  /** A failed allocation changes nothing. */
  lemma {:induction false} AllocZeroSame(p: Pool, per: nat)
    requires WellFormed(p, per) && AllocReady(p)
    ensures Alloc(p).1 == 0 ==> Alloc(p).0 == p
  {
    if p != [] && CountClear(p[0].bits) == 0 {
      AllocZeroSame(p[1..], per);
      assert [p[0]] + p[1..] == p;
    }
  }

  lemma {:induction false} LiveMeansReady(p: Pool)
    requires HintsLive(p)
    ensures AllocReady(p)
  {
    if p != [] {
      assert HintLive(p[0]);
      LiveMeansReady(p[1..]);
    }
  }

  /** With live hints, the cached hint and the free count the code tests say the same thing. */
  lemma HintAgreesWithCount(p: Pool, per: nat, g: nat)
    requires WellFormed(p, per) && HintsLive(p) && g < |p|
    ensures p[g].next == 0 <==> CountClear(p[g].bits) == 0
  {
    if p[g].next != 0 {
      CountClearZero(p[g].bits, per);
      assert !p[g].bits[p[g].next - 1];
    }
  }

  /** With exact hints the index handed out is the least free one. */
  lemma {:induction false} AllocIsLeast(p: Pool, per: nat, j: nat)
    requires WellFormed(p, per) && AllocReady(p) && HintsExact(p)
    requires 0 < j < Alloc(p).1
    ensures InUse(p, j)
  {
    CountClearZero(p[0].bits, per);
    if CountClear(p[0].bits) != 0 {
      assert HintExact(p[0]);
      FirstClearMeaning(p[0].bits);
    } else if j > per {
      AllocIsLeast(p[1..], per, j - per);
    }
  }

  /** Releasing an index in use refines deletion from the set of indices in use. */
  lemma {:induction false} ReleaseRemovesOne(p: Pool, per: nat, i: nat)
    requires WellFormed(p, per) && InUse(p, i)
    ensures var q := Release(p, i);
            && |q| == |p| && WellFormed(q, per) && Capacity(q) == Capacity(p)
            && (forall j: nat :: InUse(q, j) <==> InUse(p, j) && j != i)
            && Clear(q) == Clear(p) + 1
  {
    var q := Release(p, i);
    if i <= |p[0].bits| {
      assert HintSafe(p[0]);
      CountClearUpdate(p[0].bits, i - 1, false, |p[0].bits|);
      assert q[1..] == p[1..];
    } else {
      ReleaseRemovesOne(p[1..], per, i - |p[0].bits|);
      assert q[1..] == Release(p[1..], i - |p[0].bits|);
    }
  }

  /**
   * A release does not refresh the hint of its group, so live hints stay live exactly when that
   * group's hint was non-zero. Otherwise the group is now open with hint 0, and the next
   * allocation to reach it would set bit `0 - 1`.
   */
  lemma {:induction false} ReleaseKeepsHintsLiveIff(p: Pool, per: nat, i: nat)
    requires WellFormed(p, per) && per > 0 && HintsLive(p) && InUse(p, i)
    ensures (i - 1) / per < |p|
    ensures HintsLive(Release(p, i)) <==> p[(i - 1) / per].next != 0
  {
    var g, bit := (i - 1) / per, (i - 1) % per;
    SplitFindsBit(p, per, i);
    ReleaseHints(p, per, g, bit);
  }

  lemma ReleaseHints(p: Pool, per: nat, g: nat, bit: nat)
    requires WellFormed(p, per) && HintsLive(p) && g < |p| && bit < per
    ensures HintsLive(p[g := p[g].(bits := p[g].bits[bit := false])]) <==> p[g].next != 0
  {
    var bits := p[g].bits[bit := false];
    var q := p[g := p[g].(bits := bits)];
    assert !bits[bit];
    CountClearZero(bits, per);
    assert HintLive(q[g]) <==> p[g].next != 0;
  }

  // ---------- runs of allocations ----------

  lemma {:induction false} ExactMeansLive(p: Pool)
    requires HintsExact(p)
    ensures HintsLive(p)
  {
    forall g | 0 <= g < |p|
      ensures HintLive(p[g])
    {
      assert HintExact(p[g]);
      FirstClearMeaning(p[g].bits);
      CountClearZero(p[g].bits, |p[g].bits|);
    }
  }

  /** The pool after `k` allocations in a row. */
  function AllocTimes(p: Pool, per: nat, k: nat): (q: Pool)
    requires WellFormed(p, per) && HintsExact(p)
    ensures WellFormed(q, per) && HintsExact(q) && |q| == |p|
  {
    if k == 0 then p
    else
      var q := AllocTimes(p, per, k - 1);
      ExactMeansLive(q); LiveMeansReady(q); AllocAddsOne(q, per); AllocCounts(q, per);
      Alloc(q).0
  }

  /** After `k` allocations from an empty pool exactly the indices up to `k` are in use. */
  lemma {:induction false} AllocTimesFillsPrefix(p: Pool, per: nat, k: nat)
    requires WellFormed(p, per) && HintsExact(p) && (forall j: nat :: !InUse(p, j))
    requires k <= Capacity(p)
    ensures forall j: nat :: InUse(AllocTimes(p, per, k), j) <==> 1 <= j <= k
    decreases k, 0
  {
    hide Alloc, InUse, HintsExact, WellFormed, Capacity, Clear, AllocReady;
    if k != 0 {
      AllocTimesFillsPrefix(p, per, k - 1);
      SequentialAlloc(p, per, k - 1);
      var q := AllocTimes(p, per, k - 1);
      AllocAddsOne(q, per);
      var (r, idx) := Alloc(q);
      assert idx == k && AllocTimes(p, per, k) == r;
    }
  }

  /**
   * From a pool with nothing in use, allocation number `k + 1` returns `k + 1` as long as the
   * index exists, and 0 from then on.
   */
  lemma {:induction false} SequentialAlloc(p: Pool, per: nat, k: nat)
    requires WellFormed(p, per) && HintsExact(p) && (forall j: nat :: !InUse(p, j))
    requires k <= Capacity(p)
    ensures AllocReady(AllocTimes(p, per, k))
    ensures Alloc(AllocTimes(p, per, k)).1 == if k < Capacity(p) then k + 1 else 0
    decreases k, 1
  {
    AllocTimesFillsPrefix(p, per, k);
    var q := AllocTimes(p, per, k);
    ExactMeansLive(q); LiveMeansReady(q);
    CapacityIsProduct(p, per); CapacityIsProduct(q, per);
    AllocAddsOne(q, per); AllocFailsIffFull(q, per);
    var idx := Alloc(q).1;
    if k < Capacity(p) {
      assert InRange(q, k + 1) && !InUse(q, k + 1);
      assert idx != 0;
      if k + 1 < idx {
        AllocIsLeast(q, per, k + 1);
      }
      assert !InUse(q, idx) && idx >= 1;
    }
  }

  /**
   * For instance, a release after the pool has been filled up: its group has hint 0, and the next
   * allocation would take it although the group is open.
   */
  lemma ReleaseIntoFullGroup(p: Pool, per: nat)
    requires WellFormed(p, per) && per > 0 && HintsExact(p) && (forall j: nat :: !InUse(p, j)) && p != []
    ensures var q := AllocTimes(p, per, Capacity(p));
            InUse(q, 1) && HintsLive(q) && !HintsLive(Release(q, 1)) && !AllocReady(Release(q, 1))
  {
    var q := AllocTimes(p, per, Capacity(p));
    CapacityIsProduct(p, per);
    MulMono(1, |p|, per);
    AllocTimesFillsPrefix(p, per, Capacity(p));
    ExactMeansLive(q);
    forall k: nat | k < per
      ensures q[0].bits[k]
    {
      assert InUse(q, k + 1);
    }
    FirstClearMeaning(q[0].bits);
    assert HintExact(q[0]);
    ReleaseOpensGroup(q, per);
  }

  lemma ReleaseOpensGroup(q: Pool, per: nat)
    requires WellFormed(q, per) && per > 0 && HintsLive(q) && q != [] && q[0].next == 0 && InUse(q, 1)
    ensures !HintsLive(Release(q, 1)) && !AllocReady(Release(q, 1))
  {
    var r := Release(q, 1);
    assert !r[0].bits[0];
    CountClearZero(r[0].bits, per);
    assert !HintLive(r[0]);
  }

  // ---------- runs of allocations and releases ----------

  datatype PoolOp = Take | Give(i: nat)

  /** A release names an index in use whose group has a non-zero hint. */
  predicate GiveOk(p: Pool, per: nat, op: PoolOp)
    requires per > 0
  {
    op.Give? ==> InUse(p, op.i) && op.i != 0 && var g := (op.i - 1) / per; g < |p| && p[g].next != 0
  }

  /** What an operation leaves and answers. */
  function PoolStep(p: Pool, op: PoolOp): (r: (Pool, nat)) {
    match op
    case Take => Alloc(p)
    case Give(i) => (Release(p, i), i)
  }

  function PoolRun(p: Pool, ops: seq<PoolOp>): (r: (Pool, seq<nat>))
    decreases |ops|
  {
    if ops == [] then (p, [])
    else
      var (q, answer) := PoolStep(p, ops[0]);
      var (end, answers) := PoolRun(q, ops[1..]);
      (end, [answer] + answers)
  }

  predicate PoolRunOk(p: Pool, per: nat, ops: seq<PoolOp>)
    requires per > 0
    decreases |ops|
  {
    ops == [] || (GiveOk(p, per, ops[0]) && PoolRunOk(PoolStep(p, ops[0]).0, per, ops[1..]))
  }

  /** What a plain set of used indices may answer to an operation. */
  predicate SetAnswers(used: set<nat>, cap: nat, op: PoolOp, answer: nat) {
    match op
    case Take =>
      && (answer == 0 <==> forall i: nat :: 1 <= i <= cap ==> i in used)
      && (answer != 0 ==> answer <= cap && answer !in used)
    case Give(i) => i in used && answer == i
  }

  function SetStep(used: set<nat>, op: PoolOp, answer: nat): (after: set<nat>) {
    match op
    case Take => if answer == 0 then used else used + {answer}
    case Give(i) => used - {i}
  }

  /** The answers are ones the set may give, and `end` is the set they leave. */
  predicate SetRun(used: set<nat>, cap: nat, ops: seq<PoolOp>, answers: seq<nat>, end: set<nat>)
    decreases |ops|
  {
    if ops == [] || answers == [] then ops == [] && answers == [] && end == used
    else SetAnswers(used, cap, ops[0], answers[0])
         && SetRun(SetStep(used, ops[0], answers[0]), cap, ops[1..], answers[1..], end)
  }

  /** The set holds the indices in use. */
  ghost predicate Represents(used: set<nat>, p: Pool) {
    forall j: nat :: j in used <==> InUse(p, j)
  }

  lemma PoolStepIsSetStep(p: Pool, per: nat, op: PoolOp, used: set<nat>)
    requires WellFormed(p, per) && per > 0 && HintsLive(p) && GiveOk(p, per, op) && Represents(used, p)
    ensures var (q, answer) := PoolStep(p, op);
            && WellFormed(q, per) && HintsLive(q) && Capacity(q) == Capacity(p)
            && SetAnswers(used, Capacity(p), op, answer) && Represents(SetStep(used, op, answer), q)
  {
    match op
    case Take => TakeIsSetStep(p, per, used);
    case Give(i) => GiveIsSetStep(p, per, i, used);
  }

  lemma TakeIsSetStep(p: Pool, per: nat, used: set<nat>)
    requires WellFormed(p, per) && per > 0 && HintsLive(p) && Represents(used, p)
    ensures var (q, answer) := Alloc(p);
            && WellFormed(q, per) && HintsLive(q) && Capacity(q) == Capacity(p)
            && SetAnswers(used, Capacity(p), Take, answer) && Represents(SetStep(used, Take, answer), q)
  {
    hide Alloc, InUse, HintsLive, WellFormed, Clear, AllocReady, Capacity;
    LiveMeansReady(p);
    AllocAddsOne(p, per);
    AllocCounts(p, per);
    AllocFailsIffFull(p, per);
    var answer := Alloc(p).1;
    if answer == 0 {
      forall i: nat | 1 <= i <= Capacity(p)
        ensures i in used
      {
        assert InRange(p, i) && InUse(p, i);
      }
    } else {
      assert InRange(p, answer) && !InUse(p, answer);
      assert answer !in used;
    }
  }

  lemma GiveIsSetStep(p: Pool, per: nat, i: nat, used: set<nat>)
    requires WellFormed(p, per) && per > 0 && HintsLive(p) && Represents(used, p)
    requires GiveOk(p, per, Give(i))
    ensures var q := Release(p, i);
            && WellFormed(q, per) && HintsLive(q) && Capacity(q) == Capacity(p)
            && i in used && Represents(used - {i}, q)
  {
    hide Release, InUse, HintsLive, WellFormed, Clear, Capacity;
    ReleaseRemovesOne(p, per, i);
    ReleaseKeepsHintsLiveIff(p, per, i);
  }

  /**
   * Over every run of allocations and permitted releases the allocator behaves like a plain set of
   * used indices: it hands out an index that is free, answers 0 exactly when none is, and a release
   * takes out exactly its argument.
   */
  lemma {:induction false} PoolRefinesSet(p: Pool, per: nat, ops: seq<PoolOp>, used: set<nat>)
    returns (q: Pool, answers: seq<nat>, end: set<nat>)
    requires WellFormed(p, per) && per > 0 && HintsLive(p) && PoolRunOk(p, per, ops) && Represents(used, p)
    ensures (q, answers) == PoolRun(p, ops)
    ensures SetRun(used, Capacity(p), ops, answers, end) && Represents(end, q) && HintsLive(q)
    decreases |ops|
  {
    hide SetAnswers, SetStep, Represents, PoolStep, GiveOk, Capacity, WellFormed, HintsLive;
    if ops == [] {
      q, answers, end := p, [], used;
    } else {
      PoolStepIsSetStep(p, per, ops[0], used);
      var (m, answer) := PoolStep(p, ops[0]);
      var q', rest, end' := PoolRefinesSet(m, per, ops[1..], SetStep(used, ops[0], answer));
      q, answers, end := q', [answer] + rest, end';
      assert answers[1..] == rest;
    }
  }

  // ---------- the loop of the code ----------

  /** The code's scan: group `i` is the first open one. */
  lemma {:induction false} AllocAt(p: Pool, per: nat, i: nat)
    requires WellFormed(p, per) && AllocReady(p) && i < |p|
    requires forall k :: 0 <= k < i ==> CountClear(p[k].bits) == 0
    requires CountClear(p[i].bits) != 0
    ensures HintSafe(p[i]) && p[i].next != 0
    ensures Alloc(p) == (p[i := TakeNext(p[i])], i * per + p[i].next)
  {
    if i != 0 {
      assert p[1..][i - 1] == p[i];
      AllocAt(p[1..], per, i - 1);
      assert i * per == (i - 1) * per + per;
      assert [p[0]] + p[1..][i - 1 := TakeNext(p[i])] == p[i := TakeNext(p[i])];
      assert (i - 1) * per >= 0;
    } else {
      assert [TakeNext(p[0])] + p[1..] == p[0 := TakeNext(p[0])];
    }
  }

  /** Position `n`, counted from 1, is the least clear flag, or `n` is 0 because there is none. */
  predicate LeastClear(f: seq<bool>, n: nat) {
    if n == 0 then forall k :: 0 <= k < |f| ==> f[k]
    else n <= |f| && !f[n - 1] && forall k :: 0 <= k < n - 1 ==> f[k]
  }

  lemma FullIffNoneClear(f: seq<bool>)
    ensures CountClear(f) == 0 <==> LeastClear(f, 0)
  {
    CountClearZero(f, |f|);
  }

  /**
   * A successful allocation in full: it takes the cached position of the first group that is not
   * full, sets that bit and caches the least clear one; the rest of that group and all other groups
   * stay as they are.
   */
  lemma {:induction false} AllocEffect(p: Pool, per: nat) returns (g: nat)
    requires WellFormed(p, per) && AllocReady(p) && Alloc(p).1 != 0
    ensures g < |p| && p[g].next != 0 && HintSafe(p[g]) && Alloc(p).1 == g * per + p[g].next
    ensures forall k :: 0 <= k < g ==> LeastClear(p[k].bits, 0)
    ensures var q := Alloc(p).0;
            && |q| == |p| && (forall k :: 0 <= k < |p| && k != g ==> q[k] == p[k])
            && q[g].bits == p[g].bits[p[g].next - 1 := true] && LeastClear(q[g].bits, q[g].next)
  {
    hide CountClear, FirstClear, Capacity;
    FullIffNoneClear(p[0].bits);
    if CountClear(p[0].bits) != 0 {
      assert HintSafe(p[0]);
      FirstClearMeaning(TakeNext(p[0]).bits);
      g := 0;
    } else {
      var h := AllocEffect(p[1..], per);
      g := h + 1;
      assert g * per == h * per + per;
      assert forall k :: 0 < k < |p| ==> p[1..][k - 1] == p[k];
      assert forall k :: 0 < k < |p| ==> Alloc(p).0[k] == Alloc(p[1..]).0[k - 1];
    }
  }

  lemma {:induction false} AllocNone(p: Pool, per: nat)
    requires WellFormed(p, per) && AllocReady(p)
    requires forall k :: 0 <= k < |p| ==> CountClear(p[k].bits) == 0
    ensures Alloc(p) == (p, 0)
  {
    if p != [] {
      assert CountClear(p[0].bits) == 0;
      AllocNone(p[1..], per);
      assert [p[0]] + p[1..] == p;
    }
  }
}

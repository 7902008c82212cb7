// Directory tables (src/chisai-core/dir.c): a fixed array of 15 named slots searched linearly,
// appended to at the end and compacted by moving the last slot into the hole.
module Tables {
  import opened Codec

  const NAME_LEN: nat := 28
  const SLOTS: nat := 15
  const TABLE_BYTES: nat := 488

  type Name = Bytes

  type NameBuf = s: Bytes | |s| == NAME_LEN witness seq(NAME_LEN, _ => 0)

  /** A name buffer and the inode it stands for. */
  datatype Slot = Slot(name: NameBuf, idx: nat)

  type SlotArray = s: seq<Slot> | |s| == SLOTS witness seq(SLOTS, _ => Slot(seq(NAME_LEN, _ => 0), 0))

  datatype Table = Table(slots: SlotArray, size: nat, checksum: nat)

  /** The C string a buffer holds: everything before the first NUL. */
  function CStr(s: Bytes): (r: Bytes)
    ensures |r| <= |s|
  {
    if s == [] || s[0] == 0 then [] else [s[0]] + CStr(s[1..])
  }

  /** `strcpy` into a buffer; callers leave room for the name and its NUL. */
  function StrCpy(buf: Bytes, name: Name): (r: Bytes)
    ensures |r| == |buf|
  {
    if |name| < |buf| then name + [0] + buf[|name| + 1..] else buf
  }

  lemma {:induction false} CopiedString(buf: Bytes, name: Name)
    requires |name| < |buf| && 0 !in name
    ensures CStr(StrCpy(buf, name)) == name
  {
    if name != [] {
      CopiedString(buf[1..], name[1..]);
      assert StrCpy(buf, name)[1..] == StrCpy(buf[1..], name[1..]);
      assert name == [name[0]] + name[1..];
    }
  }

  // ---------- the table in memory ----------

  function EncodeSlots(slots: seq<Slot>): (s: Bytes)
    ensures |s| == 32 * |slots|
  {
    if slots == [] then [] else slots[0].name + ToLE(4, slots[0].idx) + EncodeSlots(slots[1..])
  }

  /** The table's memory from slot `k` on: the slots, then its size and checksum. */
  function Tail(t: Table, k: nat): (s: Bytes)
    requires k <= SLOTS
    ensures |s| == TABLE_BYTES - 32 * k
  {
    EncodeSlots(t.slots[k..]) + ToLE(4, t.size) + ToLE(4, t.checksum)
  }

  /**
   * `strcmp(p, name) == 0` for a pointer to this memory: the name and its NUL stand there. Nothing
   * stops the comparison at the end of a name buffer.
   */
  predicate StrEq(memory: Bytes, name: Name) {
    0 !in name && name + [0] <= memory
  }

  /** The comparison ends within the memory: at a difference, or at the name's NUL. */
  predicate StrStays(memory: Bytes, name: Name) {
    !(memory <= name)
  }

  lemma {:induction false} CStrIsPrefix(s: Bytes)
    ensures CStr(s) <= s && 0 !in CStr(s) && (|CStr(s)| < |s| ==> s[|CStr(s)|] == 0)
  {
    if s != [] && s[0] != 0 { CStrIsPrefix(s[1..]); }
  }

  lemma SlotInMemory(t: Table, k: nat)
    requires k < SLOTS
    ensures t.slots[k].name <= Tail(t, k)
  {
  }

  /** In a slot whose name is terminated, `strcmp` compares exactly that name. */
  lemma TerminatedMatch(t: Table, k: nat, name: Name)
    requires k < SLOTS && |CStr(t.slots[k].name)| < NAME_LEN
    ensures StrEq(Tail(t, k), name) <==> CStr(t.slots[k].name) == name
    ensures 0 !in name ==> StrStays(Tail(t, k), name)
  {
    SlotInMemory(t, k);
    var s, m := CStr(t.slots[k].name), Tail(t, k);
    CStrIsPrefix(t.slots[k].name);
    assert m[|s|] == 0 && forall j :: 0 <= j < |s| ==> m[j] == s[j] && m[j] in s;
    if StrEq(m, name) {
      assert m[|name|] == 0 && forall j :: 0 <= j < |name| ==> m[j] == name[j] && m[j] in name;
    }
  }

  /**
   * The length check lets a name of exactly 28 bytes through. Its NUL lands in the index that is
   * stored next, so the search finds it in its own slot only when the index's low byte is 0.
   */
  lemma FullLengthName(t: Table, k: nat)
    requires k < SLOTS && 0 !in t.slots[k].name
    ensures StrEq(Tail(t, k), t.slots[k].name) <==> t.slots[k].idx % 256 == 0
  {
    var name := t.slots[k].name;
    assert Tail(t, k)[..NAME_LEN] == name;
    assert Tail(t, k)[NAME_LEN] == (t.slots[k].idx % 256) as byte;
  }

  // ---------- the operations ----------

  /** The slots the search can look at: those in use, and none behind the array. */
  function Used(t: Table): (n: nat)
    ensures n <= SLOTS && n <= t.size
  {
    if t.size > SLOTS then SLOTS else t.size
  }

  /** The first slot at or after `from` that `strcmp` matches, or the number of slots looked at. */
  function Search(t: Table, name: Name, from: nat): (k: nat)
    requires from <= Used(t)
    ensures from <= k <= Used(t)
    ensures k < Used(t) ==> StrEq(Tail(t, k), name)
    ensures forall j :: from <= j < k ==> !StrEq(Tail(t, j), name)
    decreases Used(t) - from
  {
    if from == Used(t) then from
    else if StrEq(Tail(t, from), name) then from
    else Search(t, name, from + 1)
  }

  /**
   * dir_file_inode_idx. The code runs to the stored size, whatever it is; where that takes it past
   * the slots of the table without a match, the answer here is a placeholder.
   */
  function Lookup(t: Table, name: Name): (idx: nat) {
    var k := Search(t, name, 0);
    if k == Used(t) then 0 else t.slots[k].idx
  }

  /**
   * The search stays within the table: its stored size does, or there is a match before its end,
   * and every comparison up to there ends before the memory of the table does.
   */
  predicate SearchStays(t: Table, name: Name) {
    var k := Search(t, name, 0);
    && (t.size > SLOTS ==> k < SLOTS)
    && forall j :: 0 <= j <= k && j < Used(t) ==> StrStays(Tail(t, j), name)
  }

  /** dir_insert */
  function Insert(t: Table, name: Name, idx: nat): (r: (Table, bool)) {
    if t.size >= SLOTS then (t, false)
    else
      var slot := Slot(StrCpy(t.slots[t.size].name, name), idx);
      (t.(slots := t.slots[t.size := slot], size := t.size + 1), true)
  }

  /** dir_remove: the last slot moves into the hole. */
  function Remove(t: Table, name: Name): (r: (Table, nat)) {
    if t.size > SLOTS then (t, 0)
    else
      var k := Search(t, name, 0);
      if k == t.size then (t, 0)
      else (t.(slots := t.slots[k := t.slots[t.size - 1]], size := t.size - 1), t.slots[k].idx)
  }

  /** dir_init */
  function Empty(): (t: Table) {
    Table(seq(SLOTS, _ => Slot(seq(NAME_LEN, _ => 0), 0)), 0, 0)
  }

  // ---------- what the operations do to the slots ----------

  /** The table `u` is `t` with one more entry behind the others; no other slot has changed. */
  predicate Appended(t: Table, u: Table, name: Name, idx: nat) {
    && t.size < SLOTS && u.size == t.size + 1 && u.checksum == t.checksum
    && CStr(u.slots[t.size].name) == name && u.slots[t.size].idx == idx
    && (forall k :: |name| < k < NAME_LEN ==> u.slots[t.size].name[k] == t.slots[t.size].name[k])
    && (forall k :: 0 <= k < SLOTS && k != t.size ==> u.slots[k] == t.slots[k])
  }

  /** The table without the entries of this name, each replaced by the last one. */
  function Without(t: Table, name: Name): (u: Table)
    requires 0 < t.size <= SLOTS
  {
    Table(seq(SLOTS, k requires 0 <= k < SLOTS =>
                if k < t.size && CStr(t.slots[k].name) == name then t.slots[t.size - 1] else t.slots[k]),
          t.size - 1, t.checksum)
  }

  lemma InsertAppends(t: Table, name: Name, idx: nat)
    requires GoodName(name) && t.size < SLOTS
    ensures Insert(t, name, idx).1 && Appended(t, Insert(t, name, idx).0, name, idx)
  {
    CopiedString(t.slots[t.size].name, name);
  }

  /** In a table with distinct names, the removal takes out the one entry there is. */
  lemma RemoveIsWithout(t: Table, name: Name)
    requires Good(t) && Lookup(t, name) != 0
    ensures t.size > 0 && Remove(t, name).0 == Without(t, name)
  {
    hide Lookup, Search, Find;
    LookupIsHit(t, name);
    var k := Find(t, name, 0);
    assert forall j :: 0 <= j < t.size ==> (CStr(t.slots[j].name) == name <==> j == k);
    assert Remove(t, name).0.slots == Without(t, name).slots;
  }

  // ---------- what tables mean ----------

  /** Every number fits the four bytes it has on the device. */
  predicate Sized(t: Table) {
    && t.size < Bound(4) && t.checksum < Bound(4)
    && forall k :: 0 <= k < SLOTS ==> t.slots[k].idx < Bound(4)
  }

  predicate Distinct(t: Table)
    requires t.size <= SLOTS
  {
    forall j, k :: 0 <= j < k < t.size ==> CStr(t.slots[j].name) != CStr(t.slots[k].name)
  }

  /** Every used slot has the NUL of its name within its buffer. */
  predicate Terminated(t: Table) {
    forall k :: 0 <= k < Used(t) ==> |CStr(t.slots[k].name)| < NAME_LEN
  }

  /** A table the directory code maintains: used slots have distinct names and real inodes. */
  predicate Good(t: Table) {
    && Sized(t) && t.size <= SLOTS && Terminated(t) && Distinct(t)
    && forall k :: 0 <= k < t.size ==> t.slots[k].idx != 0
  }

  /** A name that fits its buffer together with the terminating NUL. */
  predicate GoodName(name: Name) {
    |name| < NAME_LEN && 0 !in name
  }

  /** The first used slot that holds this name, or `size`. */
  function Find(t: Table, name: Name, from: nat): (k: nat)
    requires from <= t.size <= SLOTS
    ensures from <= k <= t.size
    ensures k < t.size ==> CStr(t.slots[k].name) == name
    ensures forall j :: from <= j < k ==> CStr(t.slots[j].name) != name
    decreases t.size - from
  {
    if from == t.size then from
    else if CStr(t.slots[from].name) == name then from
    else Find(t, name, from + 1)
  }

  function Hit(t: Table, name: Name): (idx: nat)
    requires t.size <= SLOTS
  {
    var k := Find(t, name, 0);
    if k == t.size then 0 else t.slots[k].idx
  }

  /** With terminated names, the comparisons of memory find what comparisons of names would. */
  lemma {:induction false} SearchIsFind(t: Table, name: Name, from: nat)
    requires t.size <= SLOTS && Terminated(t) && from <= t.size
    ensures Search(t, name, from) == Find(t, name, from)
    decreases t.size - from
  {
    if from < t.size {
      TerminatedMatch(t, from, name);
      SearchIsFind(t, name, from + 1);
    }
  }

  lemma LookupIsHit(t: Table, name: Name)
    requires t.size <= SLOTS && Terminated(t)
    ensures Lookup(t, name) == Hit(t, name)
    ensures Search(t, name, 0) == Find(t, name, 0)
  {
    SearchIsFind(t, name, 0);
  }

  /** In a well-formed table no search leaves the table. */
  lemma GoodSearchStays(t: Table, name: Name)
    requires Good(t) && 0 !in name
    ensures SearchStays(t, name)
  {
    forall j | 0 <= j < t.size
      ensures StrStays(Tail(t, j), name)
    {
      TerminatedMatch(t, j, name);
    }
  }

  /** A used slot answers for its own name. */
  lemma LookupHit(t: Table, k: nat)
    requires t.size <= SLOTS && Terminated(t) && Distinct(t) && k < t.size
    ensures Lookup(t, CStr(t.slots[k].name)) == t.slots[k].idx
  {
    LookupIsHit(t, CStr(t.slots[k].name));
  }

  lemma LookupMiss(t: Table, name: Name)
    requires Good(t)
    ensures Lookup(t, name) == 0 <==> forall k :: 0 <= k < t.size ==> CStr(t.slots[k].name) != name
  {
    LookupIsHit(t, name);
  }

  lemma EmptyIsGood()
    ensures Good(Empty()) && forall m: Name :: Lookup(Empty(), m) == 0
  {
    assert 0 < Bound(4);
  }

  /** Appending a new name adds exactly that binding. */
  lemma InsertAddsBinding(t: Table, name: Name, idx: nat)
    requires Good(t) && GoodName(name) && 0 < idx < Bound(4)
    requires t.size < SLOTS && Lookup(t, name) == 0
    ensures var (u, ok) := Insert(t, name, idx);
            ok && Good(u) && forall m: Name :: Lookup(u, m) == if m == name then idx else Lookup(t, m)
  {
    hide Lookup, Search;
    var (u, _) := Insert(t, name, idx);
    CopiedString(t.slots[t.size].name, name);
    LookupMiss(t, name);
    assert SLOTS < Bound(4) by { assert Bound(4) == 256 * Bound(3); assert Bound(3) >= 1; }
    assert Good(u);
    forall m: Name
      ensures Lookup(u, m) == if m == name then idx else Lookup(t, m)
    {
      if m == name {
        LookupHit(u, t.size);
      } else if Lookup(t, m) == 0 {
        LookupMiss(t, m);
        LookupMiss(u, m);
      } else {
        LookupIsHit(t, m);
        LookupHit(u, Find(t, m, 0));
      }
    }
  }

  /** Appending a name that is already there changes no answer: the older slot is found first. */
  lemma InsertDuplicateIsHidden(t: Table, name: Name, idx: nat)
    requires Good(t) && GoodName(name) && t.size < SLOTS && Lookup(t, name) != 0
    ensures forall m: Name :: Lookup(Insert(t, name, idx).0, m) == Lookup(t, m)
  {
    hide Lookup, Search, Find;
    var (u, _) := Insert(t, name, idx);
    CopiedString(t.slots[t.size].name, name);
    LookupIsHit(t, name);
    forall m: Name
      ensures Lookup(u, m) == Lookup(t, m)
    {
      LookupIsHit(t, m);
      LookupIsHit(u, m);
      FindPastEnd(t, u, m, 0);
    }
  }

  /** One more slot at the end is found only where nothing was found before it. */
  lemma {:induction false} FindPastEnd(t: Table, u: Table, m: Name, from: nat)
    requires from <= t.size < SLOTS && u.size == t.size + 1 && forall k :: 0 <= k < t.size ==> u.slots[k] == t.slots[k]
    ensures Find(t, m, from) < t.size ==> Find(u, m, from) == Find(t, m, from)
    ensures Find(t, m, from) == t.size ==>
              Find(u, m, from) == if CStr(u.slots[t.size].name) == m then t.size else t.size + 1
    decreases t.size - from
  {
    if from < t.size { FindPastEnd(t, u, m, from + 1); }
  }

  /** Removing a name by moving the last slot into its place deletes exactly that binding. */
  lemma RemoveDeletesBinding(t: Table, name: Name)
    requires Good(t)
    ensures var (u, idx) := Remove(t, name);
            idx == Lookup(t, name) && Good(u) && forall m: Name :: Lookup(u, m) == if m == name then 0 else Lookup(t, m)
  {
    hide Lookup, Search, Find;
    var (u, idx) := Remove(t, name);
    var k := Find(t, name, 0);
    LookupIsHit(t, name);
    if k < t.size {
      RemovedIsGood(t, k, u);
      forall m: Name
        ensures Lookup(u, m) == if m == name then 0 else Lookup(t, m)
      {
        RemovedLookup(t, k, u, m);
      }
    }
  }

  /**
   * Appending a name that is already there and then removing that name leaves the entry appended:
   * the removal takes the older one and moves the last one, which is the new one, into its place.
   */
  lemma DuplicateSurfaces(t: Table, name: Name, idx: nat)
    requires Good(t) && GoodName(name) && t.size < SLOTS && Lookup(t, name) != 0 && 0 < idx < Bound(4)
    ensures var (v, c) := Remove(Insert(t, name, idx).0, name);
            && c == Lookup(t, name) && Good(v) && v.size == t.size
            && forall m: Name :: Lookup(v, m) == if m == name then idx else Lookup(t, m)
  {
    hide Lookup, Search, Find, Hit, Distinct, Insert, Remove;
    var v := Remove(Insert(t, name, idx).0, name).0;
    var k := DuplicateTaken(t, name, idx);
    RenumberedIsGood(t, v, k, idx);
    forall m: Name
      ensures Lookup(v, m) == if m == name then idx else Lookup(t, m)
    {
      RenumberedLookup(t, v, k, idx, m);
    }
  }

  lemma DuplicateTaken(t: Table, name: Name, idx: nat) returns (k: nat)
    requires Good(t) && GoodName(name) && t.size < SLOTS && Lookup(t, name) != 0 && idx < Bound(4)
    ensures var (v, c) := Remove(Insert(t, name, idx).0, name);
            && c == Lookup(t, name) && Renumbered(t, v, k, idx) && Sized(v) && CStr(t.slots[k].name) == name
  {
    hide Lookup, Search, Find, Hit, Distinct, StrCpy;
    var u := Insert(t, name, idx).0;
    CopiedString(t.slots[t.size].name, name);
    LookupIsHit(t, name);
    LookupIsHit(u, name);
    FindPastEnd(t, u, name, 0);
    k := Find(t, name, 0);
    HitOf(t, name);
  }

  /** Table `v` has the names of `t`, and another inode at entry `k`. */
  predicate Renumbered(t: Table, v: Table, k: nat, idx: nat)
    requires t.size <= SLOTS
  {
    && k < t.size && v.size == t.size && v.slots[k].idx == idx
    && (forall j :: 0 <= j < t.size ==> CStr(v.slots[j].name) == CStr(t.slots[j].name))
    && (forall j :: 0 <= j < t.size && j != k ==> v.slots[j].idx == t.slots[j].idx)
  }

  lemma RenumberedIsGood(t: Table, v: Table, k: nat, idx: nat)
    requires Good(t) && Sized(v) && Renumbered(t, v, k, idx) && idx != 0
    ensures Good(v)
  {
  }

  lemma RenumberedLookup(t: Table, v: Table, k: nat, idx: nat, m: Name)
    requires Good(t) && Good(v) && Renumbered(t, v, k, idx)
    ensures Lookup(v, m) == if m == CStr(t.slots[k].name) then idx else Lookup(t, m)
  {
    hide Lookup, Search, Find, Hit;
    LookupIsHit(t, m);
    LookupIsHit(v, m);
    HitOf(t, m);
    HitOf(v, m);
    FindSameNames(t, v, m, 0);
  }

  lemma HitOf(t: Table, name: Name)
    requires t.size <= SLOTS
    ensures Hit(t, name) == var k := Find(t, name, 0); if k == t.size then 0 else t.slots[k].idx
  {
  }

  lemma {:induction false} FindSameNames(t: Table, v: Table, m: Name, from: nat)
    requires from <= t.size == v.size <= SLOTS
    requires forall k :: 0 <= k < t.size ==> CStr(v.slots[k].name) == CStr(t.slots[k].name)
    ensures Find(v, m, from) == Find(t, m, from)
    decreases t.size - from
  {
    if from < t.size { FindSameNames(t, v, m, from + 1); }
  }

  lemma RemovedIsGood(t: Table, k: nat, u: Table)
    requires Good(t) && k < t.size
    requires u == t.(slots := t.slots[k := t.slots[t.size - 1]], size := t.size - 1)
    ensures Good(u)
  {
    forall i, j | 0 <= i < j < u.size
      ensures CStr(u.slots[i].name) != CStr(u.slots[j].name)
    {
      var i', j' := if i == k then t.size - 1 else i, if j == k then t.size - 1 else j;
      assert u.slots[i] == t.slots[i'] && u.slots[j] == t.slots[j'] && i' != j';
    }
  }

  lemma RemovedLookup(t: Table, k: nat, u: Table, m: Name)
    requires Good(t) && k < t.size && Good(u)
    requires u == t.(slots := t.slots[k := t.slots[t.size - 1]], size := t.size - 1)
    ensures Lookup(u, m) == if m == CStr(t.slots[k].name) then 0 else Lookup(t, m)
  {
    hide Lookup, Search, Find;
    if m == CStr(t.slots[k].name) {
      forall j | 0 <= j < u.size
        ensures CStr(u.slots[j].name) != m
      {
        var j' := if j == k then t.size - 1 else j;
        assert u.slots[j] == t.slots[j'] && j' != k;
      }
      LookupMiss(u, m);
    } else if Lookup(t, m) == 0 {
      LookupMiss(t, m);
      forall j | 0 <= j < u.size
        ensures CStr(u.slots[j].name) != m
      {
        assert u.slots[j] == t.slots[if j == k then t.size - 1 else j];
      }
      LookupMiss(u, m);
    } else {
      LookupIsHit(t, m);
      var i := Find(t, m, 0);
      var i' := if i == t.size - 1 then k else i;
      assert u.slots[i'] == t.slots[i];
      LookupHit(u, i');
    }
  }

  // ---------- the on-disk form ----------

  function DecodeSlots(s: Bytes, n: nat): (slots: seq<Slot>)
    requires |s| == 32 * n
    ensures |slots| == n
  {
    if n == 0 then [] else [Slot(s[..28], FromLE(s[28..32]))] + DecodeSlots(s[32..], n - 1)
  }

  function Encode(t: Table): (s: Bytes)
    ensures |s| == TABLE_BYTES
  {
    Tail(t, 0)
  }

  function Decode(s: Bytes): (t: Table)
    requires |s| == TABLE_BYTES
  {
    Table(DecodeSlots(s[..480], SLOTS), FromLE(s[480..484]), FromLE(s[484..488]))
  }

  lemma {:induction false} SlotsRoundTrip(slots: seq<Slot>)
    requires forall k :: 0 <= k < |slots| ==> slots[k].idx < Bound(4)
    ensures DecodeSlots(EncodeSlots(slots), |slots|) == slots
  {
    if slots != [] {
      var s := EncodeSlots(slots);
      assert s[..28] == slots[0].name && s[28..32] == ToLE(4, slots[0].idx);
      assert s[32..] == EncodeSlots(slots[1..]);
      FromToLE(4, slots[0].idx);
      SlotsRoundTrip(slots[1..]);
      assert slots == [slots[0]] + slots[1..];
    }
  }

  /** Where slots, size and checksum stand in an encoded table. */
  lemma TableLayout(t: Table, k: nat)
    requires k < SLOTS
    ensures var s := Encode(t);
            && s[32 * k..32 * k + 28] == t.slots[k].name && s[32 * k + 28..32 * k + 32] == ToLE(4, t.slots[k].idx)
            && s[480..484] == ToLE(4, t.size) && s[484..488] == ToLE(4, t.checksum)
  {
    assert t.slots[0..] == t.slots;
    SlotAt(t.slots, k);
    assert Encode(t)[..480] == EncodeSlots(t.slots);
  }

  lemma {:induction false} SlotAt(slots: seq<Slot>, k: nat)
    requires k < |slots|
    ensures EncodeSlots(slots)[32 * k..32 * k + 28] == slots[k].name
    ensures EncodeSlots(slots)[32 * k + 28..32 * k + 32] == ToLE(4, slots[k].idx)
  {
    var s := EncodeSlots(slots);
    if k != 0 {
      SlotAt(slots[1..], k - 1);
      assert s[32..] == EncodeSlots(slots[1..]);
      assert s[32..][32 * (k - 1)..32 * (k - 1) + 28] == s[32 * k..32 * k + 28];
      assert s[32..][32 * (k - 1) + 28..32 * (k - 1) + 32] == s[32 * k + 28..32 * k + 32];
    }
  }

  /** A new table is all zeros. */
  lemma EmptyIsZeros()
    ensures forall k :: 0 <= k < TABLE_BYTES ==> Encode(Empty())[k] == 0
  {
    assert Empty().slots[0..] == Empty().slots;
    ZeroSlots(Empty().slots);
    ZeroBytes(4);
  }

  lemma {:induction false} ZeroSlots(slots: seq<Slot>)
    requires forall k :: 0 <= k < |slots| ==> slots[k] == Slot(seq(NAME_LEN, _ => 0), 0)
    ensures forall k :: 0 <= k < |EncodeSlots(slots)| ==> EncodeSlots(slots)[k] == 0
  {
    if slots != [] {
      ZeroSlots(slots[1..]);
      ZeroBytes(4);
    }
  }

  lemma {:induction false} ZeroBytes(w: nat)
    ensures forall k :: 0 <= k < w ==> ToLE(w, 0)[k] == 0
  {
    if w != 0 { ZeroBytes(w - 1); }
  }

  /** A stored table reads back as itself. */
  lemma TableRoundTrip(t: Table)
    requires Sized(t)
    ensures Decode(Encode(t)) == t
  {
    var s := Encode(t);
    assert t.slots[0..] == t.slots;
    assert s[..480] == EncodeSlots(t.slots) && s[480..484] == ToLE(4, t.size) && s[484..488] == ToLE(4, t.checksum);
    SlotsRoundTrip(t.slots);
    FromToLE(4, t.size);
    FromToLE(4, t.checksum);
  }
}

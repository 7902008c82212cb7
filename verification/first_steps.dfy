// The first operations after mounting, and a run to a state in which a rename hides what it moves.
module FirstSteps {
  import opened Arith
  import opened Codec
  import opened Invariant
  import opened Moves
  import opened Namespace
  import opened Operations
  import opened Paths
  import opened Pools
  import opened Resolution
  import opened Runs
  import opened State
  import opened Tables
  import opened Walks

  /** The path of an entry of the root directory. */
  function InRoot(name: Name): (path: Bytes) { [SLASH] + name }

  lemma InRootParts(name: Name)
    requires SLASH !in name
    ensures HasSlash(InRoot(name)) && Last(InRoot(name)) == name && Parent(InRoot(name)) == []
    ensures DirPath(InRoot(name)) == [] && FullPath(InRoot(name)) == [name]
  {
    var path := InRoot(name);
    assert path[0] == SLASH;
    forall j | 1 <= j < |path|
      ensures path[j] != SLASH
    {
      assert path[j] in name;
    }
  }

  /** The walk of the entry's path string ends where the tree has the entry. */
  lemma InRootResolves(m: Fs, name: Name)
    requires Inv(m) && SLASH !in name && GoodName(name) && name != []
    ensures Resolve(m, Tokens(InRoot(name))) == TreeAt(Tree(m), [name])
  {
    InRootOk(m, name);
    InRootParts(name);
    StringResolves(m, InRoot(name));
  }

  lemma InRootOk(m: Fs, name: Name)
    requires Inv(m) && SLASH !in name && GoodName(name)
    ensures PathOk(m, InRoot(name))
  {
    InRootParts(name);
    assert LiveDir(m, ROOT);
  }

  /** Room for `k` more directories in the root. */
  ghost predicate Roomy(m: Fs, k: nat) {
    && Inv(m) && HintsLive(m.ipool) && HintsLive(m.dpool) && LiveDir(m, ROOT)
    && DirOf(m, ROOT).size + k <= SLOTS && Clear(m.ipool) >= k && Clear(m.dpool) >= k
  }

  /** Right after mounting there is room for as many directories as the root's table has slots. */
  lemma MountedIsRoomy(st: Fs)
    requires Fresh(st)
    ensures Roomy(CreateRoot(st).0, SLOTS)
  {
    MountMeaning(st);
    CapacityIsProduct(st.ipool, 8 * st.b);
    CapacityIsProduct(st.dpool, 8 * st.b);
    assert |st.ipool| != 0;
    MulMono(1, |st.ipool|, 8 * st.b);
    MulMono(1, |st.dpool|, 8 * st.b);
    SameCapacity(st);
    assert LiveDir(CreateRoot(st).0, ROOT);
  }

  lemma SameCapacity(st: Fs)
    requires Shape(st)
    ensures Capacity(st.ipool) == Capacity(st.dpool)
  {
  }

  /** Making a new directory in the root then is allowed, succeeds, and leaves the other paths alone. */
  lemma MakeInRoot(m: Fs, name: Name, mode: nat, k: nat) returns (u: Fs)
    requires Roomy(m, k) && k > 0 && SLASH !in name && GoodName(name) && DirModeOk(mode)
    requires TreeAt(Tree(m), [name]) == 0
    ensures u == Step(m, OpMkdir(InRoot(name), mode)) && Allowed(m, OpMkdir(InRoot(name), mode))
    ensures Roomy(u, k - 1) && TreeAt(Tree(u), [name]) != 0
    ensures forall p: Path :: p != [name] ==> TreeAt(Tree(u), p) == TreeAt(Tree(m), p)
  {
    hide Inv, HintsLive, Entered, PathOk, TreeAt, Mkdir, Live, Roomy, Walkable, TreeSame, Same, Child, InRoot,
        Resolve, Tokens;
    RoomyMeaning(m, k);
    InRootParts(name);
    InRootOk(m, name);
    NewInRoot(m, name);
    var r := MkdirMeaning(m, InRoot(name), mode);
    u := r.0;
    GainedPath(m, u, ROOT, name, r.2);
    StillRoomy(u, k - 1);
  }

  lemma RoomyMeaning(m: Fs, k: nat)
    requires Roomy(m, k)
    ensures Inv(m) && HintsLive(m.ipool) && HintsLive(m.dpool) && LiveDir(m, ROOT)
    ensures DirOf(m, ROOT).size + k <= SLOTS && Clear(m.ipool) >= k && Clear(m.dpool) >= k
  {
  }

  lemma StillRoomy(u: Fs, k: nat)
    requires Inv(u) && HintsLive(u.ipool) && HintsLive(u.dpool) && LiveDir(u, ROOT)
    requires DirOf(u, ROOT).size + k <= SLOTS && Clear(u.ipool) >= k && Clear(u.dpool) >= k
    ensures Roomy(u, k)
  {
  }

  lemma NewInRoot(m: Fs, name: Name)
    requires SLASH !in name && TreeAt(Tree(m), [name]) == 0
    ensures HasSlash(InRoot(name)) && TreeAt(Tree(m), DirPath(InRoot(name))) == ROOT && Child(m, ROOT, name) == 0
  {
    InRootParts(name);
    FullPathSteps(m, InRoot(name));
    RootTaken(m);
  }

  lemma RootTaken(m: Fs)
    ensures TreeAt(Tree(m), []) == ROOT
  {
  }

  lemma GainedPath(st: Fs, u: Fs, d: nat, name: Name, i: nat)
    requires Entered(st, u, [], d, name, i) && d == ROOT && DirOf(st, d).size < SLOTS
    ensures Inv(u) && LiveDir(u, ROOT) && DirOf(u, d).size == DirOf(st, d).size + 1
    ensures forall p: Path :: TreeAt(Tree(u), p) == if p == [name] then i else TreeAt(Tree(st), p)
    ensures i != 0
  {
    assert [] + [name] == [name];
  }

  /** A freshly mounted device takes a first directory, and its path string leads to it. */
  lemma FirstDirectory(st: Fs, name: Name, mode: nat) returns (u: Fs)
    requires Fresh(st) && SLASH !in name && GoodName(name) && name != [] && DirModeOk(mode)
    ensures AllAllowed(CreateRoot(st).0, [OpMkdir(InRoot(name), mode)])
    ensures u == Run(CreateRoot(st).0, [OpMkdir(InRoot(name), mode)])
    ensures Resolve(CreateRoot(st).0, Tokens(InRoot(name))) == 0
    ensures Resolve(u, Tokens(InRoot(name))) == TreeAt(Tree(u), [name]) != 0
  {
    hide Roomy, Allowed, Step, CreateRoot, Fresh, Inv, Resolve, TreeAt;
    var m, op := CreateRoot(st).0, OpMkdir(InRoot(name), mode);
    MountedIsRoomy(st);
    NothingInRoot(st, name);
    u := MakeInRoot(m, name, mode, SLOTS);
    RunOfOne(m, op);
    RoomyIsInv(m, SLOTS);
    RoomyIsInv(u, SLOTS - 1);
    InRootResolves(m, name);
    InRootResolves(u, name);
  }

  lemma NothingInRoot(st: Fs, name: Name)
    requires Fresh(st)
    ensures TreeAt(Tree(CreateRoot(st).0), [name]) == 0
  {
    MountMeaning(st);
  }

  lemma RunOfOne(st: Fs, op: Op)
    ensures Allowed(st, op) ==> AllAllowed(st, [op])
    ensures Run(st, [op]) == Step(st, op)
  {
    hide Allowed, Step;
    assert [op][1..] == [];
    assert AllAllowed(Step(st, op), []);
  }

  /**
   * Two directories in the root of a freshly mounted device, and the first renamed onto the second:
   * the code reports success, and the first is on no path any more.
   */
  lemma RenameHidesDirectory(st: Fs, a: Name, b: Name, mode: nat) returns (m: Fs, u: Fs, v: Fs)
    requires Fresh(st) && SLASH !in a && SLASH !in b && GoodName(a) && GoodName(b) && DirModeOk(mode)
    requires a != b && a != [] && b != []
    ensures m == Step(CreateRoot(st).0, OpMkdir(InRoot(a), mode)) && Allowed(CreateRoot(st).0, OpMkdir(InRoot(a), mode))
    ensures u == Step(m, OpMkdir(InRoot(b), mode)) && Allowed(m, OpMkdir(InRoot(b), mode))
    ensures HasSlash(InRoot(a)) && HasSlash(InRoot(b)) && (v, OK) == RenameFile(u, InRoot(a), InRoot(b))
    ensures Resolve(u, Tokens(InRoot(a))) == TreeAt(Tree(u), [a]) != 0
    ensures forall p: Path :: TreeAt(Tree(v), p) != TreeAt(Tree(u), [a])
  {
    hide Roomy, Allowed, Step, CreateRoot, Fresh, TreeAt, RenameFile, Resolve, Inv;
    MountedIsRoomy(st);
    NothingInRoot(st, a);
    NothingInRoot(st, b);
    m := MakeInRoot(CreateRoot(st).0, a, mode, SLOTS);
    u := MakeInRoot(m, b, mode, SLOTS - 1);
    assert [a][0] == a && [b][0] == b;
    RoomyIsInv(u, SLOTS - 2);
    InRootParts(a);
    InRootParts(b);
    InRootOk(u, a);
    InRootOk(u, b);
    InRootResolves(u, a);
    RenameOntoSibling(u, InRoot(a), InRoot(b));
    v := RenameFile(u, InRoot(a), InRoot(b)).0;
  }

  /**
   * A directory in the root of a freshly mounted device, renamed to "/": the code reports success,
   * and no path string leads to the directory any more.
   */
  lemma RenameToRootLosesDirectory(st: Fs, a: Name, mode: nat, s: Bytes) returns (u: Fs, v: Fs)
    requires Fresh(st) && SLASH !in a && GoodName(a) && a != [] && DirModeOk(mode)
    ensures u == Step(CreateRoot(st).0, OpMkdir(InRoot(a), mode)) && Allowed(CreateRoot(st).0, OpMkdir(InRoot(a), mode))
    ensures HasSlash(InRoot(a)) && HasSlash([SLASH]) && (v, OK) == RenameFile(u, InRoot(a), [SLASH])
    ensures Allowed(u, OpRename(InRoot(a), [SLASH]))
    ensures Resolve(u, Tokens(InRoot(a))) == TreeAt(Tree(u), [a]) != 0
    ensures ThroughDirs(v, Tokens(s)) ==> Resolve(v, Tokens(s)) != TreeAt(Tree(u), [a])
  {
    hide Roomy, Allowed, Step, CreateRoot, Fresh, TreeAt, RenameFile, Resolve, Inv, ThroughDirs;
    MountedIsRoomy(st);
    NothingInRoot(st, a);
    NothingInRoot(st, []);
    u := MakeInRoot(CreateRoot(st).0, a, mode, SLOTS);
    RoomyIsInv(u, SLOTS - 1);
    assert InRoot([]) == [SLASH] && [a][0] == a;
    InRootParts(a);
    InRootParts([]);
    InRootOk(u, a);
    InRootOk(u, []);
    InRootResolves(u, a);
    v := RenameFile(u, InRoot(a), InRoot([])).0;
    RootTakesBack(u, a);
    assert [a] + [] == [a];
    if ThroughDirs(v, Tokens(s)) { RenameToSlashLoses(u, InRoot(a), InRoot([]), [], s); }
  }

  /** Renaming an entry of the root to the empty name in the root succeeds, because it has given up a slot. */
  lemma RootTakesBack(u: Fs, a: Name)
    requires Inv(u) && SLASH !in a && GoodName(a) && a != []
    requires TreeAt(Tree(u), [a]) != 0 && TreeAt(Tree(u), [[]]) == 0
    ensures HasSlash(InRoot(a)) && HasSlash(InRoot([]))
    ensures RenameFile(u, InRoot(a), InRoot([])).1 == OK
    ensures Allowed(u, OpRename(InRoot(a), InRoot([]))) && TargetFree(u, InRoot(a), InRoot([]))
  {
    hide Inv, RenameFile, Resolve, PathOk, TreeAt, Tokens, InRoot, CanEnter, Moved, Hidden, Lost;
    InRootParts(a);
    InRootParts([]);
    InRootOk(u, a);
    InRootOk(u, []);
    RootHasRoom(u, a);
    var r, o, d, q := RenameFileMeaning(u, InRoot(a), InRoot([]));
  }

  lemma RootHasRoom(u: Fs, a: Name)
    requires Inv(u) && SLASH !in a
    ensures HasSlash(InRoot(a)) && HasSlash(InRoot([])) && CanEnter(u, InRoot(a), InRoot([]))
  {
    InRootParts(a);
    InRootParts([]);
    RootTaken(u);
    assert LiveDir(u, ROOT);
  }

  lemma RoomyIsInv(m: Fs, k: nat)
    requires Roomy(m, k)
    ensures Inv(m)
  {
  }
}

// Path resolution (fs_path_to_inode, fs_path_to_parent in src/chisai-core/fs.c) against the tree
// the directories describe.
module Resolution {
  import opened Codec
  import opened Invariant
  import opened Namespace
  import opened Paths
  import opened Pools
  import opened State
  import opened Tables

  /** One component of the walk: load the table behind the inode, look up, check the inode exists. */
  function Enter(st: Fs, d: nat, name: Name): (i: nat) {
    if d >= |st.inodes| || !InUse(st.dpool, st.inodes[d].direct[0]) then 0
    else
      var idx := Lookup(DirOf(st, d), name);
      if InUse(st.ipool, idx) then idx else 0
  }

  /** fs_path_to_inode on the components of a path: 0 where the code returns NO_INODE. */
  function Resolve(st: Fs, p: Path): (i: nat) {
    if p == [] then if InUse(st.ipool, ROOT) then ROOT else 0
    else
      var d := Resolve(st, p[..|p| - 1]);
      if d == 0 then 0 else Enter(st, d, p[|p| - 1])
  }

  /** fs_path_to_parent: an error, or the inode of the parent directory. */
  function PathToParent(st: Fs, path: Bytes): (r: (Error, nat))
    requires HasSlash(path)
  {
    if |Last(path)| > NAME_LEN then (ENAMETOOLONG, 0)
    else
      var d := Resolve(st, Tokens(Parent(path)));
      if d == 0 || d >= |st.inodes| then (ENOENT, 0)
      else if !InUse(st.dpool, st.inodes[d].direct[0]) then (CORRUPT, d)
      else (OK, d)
  }

  /** What the walk may load as a table: a directory, or a file whose first slot is empty. */
  predicate TableOrNothing(st: Fs, i: nat) {
    i == 0 || i >= |st.inodes| || IsDir(st.inodes[i]) || st.inodes[i].direct[0] == 0
  }

  /** The walk along `p` does not read a file's data as a directory table. */
  ghost predicate ThroughDirs(st: Fs, p: Path) {
    forall k :: 0 <= k < |p| ==> TableOrNothing(st, TreeAt(Tree(st), p[..k]))
  }

  /** What the walk relies on: directories have an allocated block, and entries allocated inodes. */
  ghost predicate WalkInv(st: Fs) {
    && LiveDir(st, ROOT) && ChildrenLive(st)
    && forall i: nat :: LiveDir(st, i) ==> InUse(st.dpool, st.inodes[i].direct[0])
  }

  lemma InvMeansWalkInv(st: Fs)
    requires Inv(st)
    ensures WalkInv(st)
  {
    forall i: nat | LiveDir(st, i)
      ensures InUse(st.dpool, st.inodes[i].direct[0])
    {
      assert DirOk(st, i);
      assert Ref(st, i, 0) == st.inodes[i].direct[0];
    }
  }

  lemma {:induction false} ReachedIsLive(st: Fs, p: Path)
    requires WalkInv(st) && TreeAt(Tree(st), p) != 0
    ensures Live(st, TreeAt(Tree(st), p))
  {
    if p != [] {
      assert Child(st, TreeAt(Tree(st), p[..|p| - 1]), p[|p| - 1]) != 0;
    }
  }

  /** One step of the walk agrees with the tree, except from a file that has data. */
  lemma EnterIsChild(st: Fs, d: nat, n: Name)
    requires WalkInv(st) && Live(st, d) && TableOrNothing(st, d)
    ensures Enter(st, d, n) == Child(st, d, n)
  {
    if IsDir(st.inodes[d]) {
      if Lookup(DirOf(st, d), n) == 0 { ZeroFree(st.ipool); } else { assert Child(st, d, n) != 0; }
    } else {
      ZeroFree(st.dpool);
    }
  }

  /** The walk of the code finds what the tree says, on every path that passes only directories. */
  lemma {:induction false} ResolveIsTree(st: Fs, p: Path)
    requires WalkInv(st) && ThroughDirs(st, p)
    ensures Resolve(st, p) == TreeAt(Tree(st), p)
  {
    if p != [] {
      var q := p[..|p| - 1];
      assert forall k :: 0 <= k < |q| ==> q[..k] == p[..k];
      ResolveIsTree(st, q);
      if TreeAt(Tree(st), q) != 0 {
        ReachedIsLive(st, q);
        EnterIsChild(st, TreeAt(Tree(st), q), p[|p| - 1]);
      }
    }
  }

  /**
   * The step touches only memory that is there: the search stays within the table it loaded, and
   * the index it finds is one the bitmaps have a bit for.
   */
  predicate StepDefined(st: Fs, d: nat, n: Name)
    requires d < |st.inodes|
  {
    InUse(st.dpool, st.inodes[d].direct[0]) ==>
      SearchStays(DirOf(st, d), n) && Lookup(DirOf(st, d), n) < |st.inodes|
  }

  /** What a step finds in the data of a file is harmless: nothing, or an inode that is not allocated. */
  predicate FindsNothing(st: Fs, t: Table, n: Name) {
    SearchStays(t, n) && Lookup(t, n) < |st.inodes| && !InUse(st.ipool, Lookup(t, n))
  }

  /**
   * From a file with data the walk reads that data as a table. The step is defined and agrees with
   * the tree, for every component, exactly from a directory or a file without data, or when the
   * search stays within the table and finds nothing, or a number in range that is not an allocated
   * inode.
   */
  lemma EnterAgreesIff(st: Fs, d: nat, n: Name)
    requires Inv(st) && Live(st, d) && 0 !in n
    ensures d < |st.inodes|
    ensures StepDefined(st, d, n) && Enter(st, d, n) == Child(st, d, n)
            <==> TableOrNothing(st, d) || FindsNothing(st, DirOf(st, d), n)
  {
    if TableOrNothing(st, d) {
      InvMeansWalkInv(st);
      EnterIsChild(st, d, n);
      TableStepDefined(st, d, n);
    } else {
      assert Ref(st, d, 0) == st.inodes[d].direct[0];
      ZeroFree(st.ipool);
    }
  }

  lemma TableStepDefined(st: Fs, d: nat, n: Name)
    requires Inv(st) && Live(st, d) && TableOrNothing(st, d) && 0 !in n
    ensures StepDefined(st, d, n)
  {
    if IsDir(st.inodes[d]) {
      assert DirOk(st, d);
      GoodSearchStays(DirOf(st, d), n);
      if Lookup(DirOf(st, d), n) != 0 { assert Live(st, Child(st, d, n)); }
    } else {
      ZeroFree(st.dpool);
    }
  }

  /** For instance, a file whose bytes 480 to 483 are a number above 15, and that holds no such name. */
  lemma FileReadPastTable(st: Fs, d: nat, n: Name)
    requires Inv(st) && Live(st, d) && !IsDir(st.inodes[d]) && st.inodes[d].direct[0] != 0
    requires DirOf(st, d).size > SLOTS && forall k :: 0 <= k < SLOTS ==> !StrEq(Tail(DirOf(st, d), k), n)
    ensures !StepDefined(st, d, n)
  {
    assert Ref(st, d, 0) == st.inodes[d].direct[0];
  }

  /** For instance, a file whose first block holds an encoded table naming the root. */
  lemma FileReadAsDirectory(st: Fs, d: nat, n: Name, t: Table)
    requires Inv(st) && Live(st, d) && !IsDir(st.inodes[d]) && st.inodes[d].direct[0] != 0
    requires Sized(t) && Tables.Encode(t) <= BlockAt(st, st.inodes[d].direct[0])
    requires 0 !in n && SearchStays(t, n) && Lookup(t, n) == ROOT
    ensures StepDefined(st, d, n) && Enter(st, d, n) == ROOT && Child(st, d, n) == 0
  {
    TableRoundTrip(t);
    var blk := BlockAt(st, st.inodes[d].direct[0]);
    assert blk[..TABLE_BYTES] == Tables.Encode(t);
    assert DirOf(st, d) == t;
    EnterAgreesIff(st, d, n);
    assert LiveDir(st, ROOT);
  }

  /** The whole path resolves through its parent: components of the parent, then the last name. */
  lemma ResolveViaParent(st: Fs, path: Bytes)
    requires HasSlash(path) && Last(path) != []
    ensures Resolve(st, Tokens(path)) ==
            var d := Resolve(st, Tokens(Parent(path))); if d == 0 then 0 else Enter(st, d, Last(path))
  {
    PathSplits(path);
    var p := Tokens(path);
    assert p[..|p| - 1] == Tokens(Parent(path)) && p[|p| - 1] == Last(path);
  }
}

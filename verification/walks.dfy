// What the namespace operations do to the walks of the code: to every path string whose walk reads
// no file's data as a directory.
module Walks {
  import opened Codec
  import opened FileIO
  import opened Invariant
  import opened Moves
  import opened Namespace
  import opened Operations
  import opened Paths
  import opened Pools
  import opened Resolution
  import opened Runs
  import opened State
  import opened Tables
  import opened Truncate

  /** Creating a file changes the walk of no string but its own, and of that only as far as it has a name. */
  lemma CreateFileWalks(st: Fs, path: Bytes, mode: nat, s: Bytes)
    requires Inv(st) && HintsLive(st.ipool) && PathOk(st, path) && FileModeOk(mode) && ThroughDirs(st, Tokens(s))
    ensures var (u, e, i) := CreateFile(st, path, mode);
            var room := DirOf(st, TreeAt(Tree(st), DirPath(path))).size < SLOTS;
            && ThroughDirs(u, Tokens(s))
            && Resolve(u, Tokens(s)) ==
               if e == OK && room && Last(path) != [] && Tokens(s) == Tokens(path) then i else Resolve(st, Tokens(s))
  {
    hide Inv, PathOk, Entered, ThroughDirs, TableOrNothing, Resolve, TreeAt, CreateFile, HintsLive;
    var r := CreateFileMeaning(st, path, mode);
    if r.1 == OK {
      EnteredIsLive(st, r.0, DirPath(path), TreeAt(Tree(st), DirPath(path)), Last(path), r.2);
      NewFileIsPassable(r.0, r.2, mode);
      AddedWalk(st, r.0, path, TreeAt(Tree(st), DirPath(path)), r.2, s);
    }
  }

  /** The same for a directory, also when mkdir fails late and leaks a block. */
  lemma MkdirWalks(st: Fs, path: Bytes, mode: nat, s: Bytes)
    requires Inv(st) && HintsLive(st.ipool) && HintsLive(st.dpool) && PathOk(st, path) && DirModeOk(mode)
    requires ThroughDirs(st, Tokens(s))
    ensures var (u, e, i) := Mkdir(st, path, mode);
            var room := DirOf(st, TreeAt(Tree(st), DirPath(path))).size < SLOTS;
            && ThroughDirs(u, Tokens(s))
            && Resolve(u, Tokens(s)) ==
               if e == OK && room && Last(path) != [] && Tokens(s) == Tokens(path) then i else Resolve(st, Tokens(s))
  {
    hide Inv, PathOk, Entered, ThroughDirs, Resolve, TreeAt, Mkdir, HintsLive, TreeSame, Same;
    var r := MkdirMeaning(st, path, mode);
    if r.1 == OK {
      AddedWalk(st, r.0, path, TreeAt(Tree(st), DirPath(path)), r.2, s);
    } else {
      SameWalk(st, r.0, Tokens(s));
    }
  }

  lemma EnteredIsLive(st: Fs, u: Fs, dir: Path, d: nat, name: Name, i: nat)
    requires Entered(st, u, dir, d, name, i)
    ensures Live(u, i)
  {
  }

  lemma AddedWalk(st: Fs, u: Fs, path: Bytes, d: nat, i: nat, s: Bytes)
    requires Inv(st) && HasSlash(path) && Entered(st, u, DirPath(path), d, Last(path), i) && TableOrNothing(u, i)
    requires ThroughDirs(st, Tokens(s))
    ensures ThroughDirs(u, Tokens(s))
    ensures Resolve(u, Tokens(s)) ==
            if DirOf(st, d).size < SLOTS && Last(path) != [] && Tokens(s) == Tokens(path) then i
            else Resolve(st, Tokens(s))
  {
    hide Inv, Entered, ThroughDirs, TableOrNothing, Resolve;
    StringOfPath(path);
    EnteredWalk(st, u, DirPath(path), d, Last(path), i, Tokens(s));
  }

  lemma SameWalk(st: Fs, u: Fs, p: Path)
    requires Inv(st) && Inv(u) && TreeSame(st, u) && ThroughDirs(st, p)
    requires forall j: nat :: Live(st, j) ==> Live(u, j) && Same(st, u, j)
    ensures ThroughDirs(u, p) && Resolve(u, p) == Resolve(st, p)
  {
    InvMeansWalkInv(st);
    InvMeansWalkInv(u);
    hide Inv, WalkInv, Live, TreeAt, Resolve;
    forall k | 0 <= k < |p|
      ensures TableOrNothing(u, TreeAt(Tree(u), p[..k]))
    {
      if TreeAt(Tree(st), p[..k]) != 0 { ReachedIsLive(st, p[..k]); }
      assert TableOrNothing(st, TreeAt(Tree(st), p[..k]));
    }
    ResolveIsTree(st, p);
    ResolveIsTree(u, p);
  }

  /** Removing cuts the walks through its path and no others; without a last name it cuts none. */
  lemma RemoveFileWalks(st: Fs, path: Bytes, s: Bytes)
    requires Inv(st) && PathOk(st, path) && ThroughDirs(st, Tokens(s))
    ensures var (u, e) := RemoveFile(st, path);
            && ThroughDirs(u, Tokens(s))
            && Resolve(u, Tokens(s)) ==
               if e == OK && Last(path) != [] && Tokens(path) <= Tokens(s) then 0 else Resolve(st, Tokens(s))
  {
    hide Inv, PathOk, Removed, ThroughDirs, Resolve, TreeAt, RemoveFile, WalkInv, TreeLoses;
    var r := RemoveFileMeaning(st, path);
    if r.1 == OK {
      var d, c := TreeAt(Tree(st), DirPath(path)), TreeAt(Tree(st), FullPath(path));
      RemovedWalkInv(st, r.0, FullPath(path), d, c);
      StringOfPath(path);
      LosesWalk(st, r.0, FullPath(path), Tokens(s));
    }
  }

  lemma RemovedWalkInv(st: Fs, u: Fs, full: Path, d: nat, c: nat)
    requires Inv(st) && Removed(st, u, full, d, c)
    ensures WalkInv(st) && WalkInv(u) && TreeLoses(st, u, full) && u.inodes == st.inodes
  {
    InvMeansWalkInv(st);
    InvMeansWalkInv(u);
  }

  /**
   * A rename cuts the walks through its source, once that resolves, and leaves all others alone,
   * except those through a target to which the source has moved.
   */
  lemma RenameFileWalks(st: Fs, from: Bytes, to: Bytes, s: Bytes)
    requires Inv(st) && PathOk(st, from) && PathOk(st, to) && ThroughDirs(st, Tokens(s))
    requires Last(to) != [] && TargetFree(st, from, to) ==> !(Tokens(to) <= Tokens(s))
    ensures var u := RenameFile(st, from, to).0;
            && ThroughDirs(u, Tokens(s))
            && Resolve(u, Tokens(s)) ==
               if |Last(from)| <= NAME_LEN && Last(from) != [] && Tokens(from) <= Tokens(s) then 0
               else Resolve(st, Tokens(s))
  {
    hide Inv, PathOk, Moved, Hidden, Lost, CanEnter, TargetFree, ThroughDirs, Resolve, TreeAt, RenameFile, WalkInv;
    var r, o, d, q := RenameFileMeaning(st, from, to);
    StringOfPath(from);
    StringOfPath(to);
    if o.Untouched? {
      BelowNothing(st, from, s);
    } else if o.SubtreeMoved? {
      MovedWalkInv(st, r.0, FullPath(from), FullPath(to), d, q);
      MovesWalk(st, r.0, FullPath(from), FullPath(to), Tokens(s));
    } else {
      LosingWalkInv(st, r.0, FullPath(from), d, q, TreeAt(Tree(st), FullPath(from)));
      LosesWalk(st, r.0, FullPath(from), Tokens(s));
    }
  }

  lemma BelowNothing(st: Fs, from: Bytes, s: Bytes)
    requires Inv(st) && HasSlash(from) && ThroughDirs(st, Tokens(s))
    ensures TreeAt(Tree(st), FullPath(from)) == 0 && FullPath(from) <= Tokens(s) ==> Resolve(st, Tokens(s)) == 0
  {
    InvMeansWalkInv(st);
    ResolveIsTree(st, Tokens(s));
    FullPathSteps(st, from);
    if TreeAt(Tree(st), FullPath(from)) == 0 && FullPath(from) <= Tokens(s) {
      Unreached(Tree(st), DirPath(from), Last(from), Tokens(s));
    }
  }

  lemma MovedWalkInv(st: Fs, u: Fs, full: Path, target: Path, d: nat, q: nat)
    requires Inv(st) && Moved(st, u, full, target, d, q)
    ensures WalkInv(st) && WalkInv(u) && TreeMoves(st, u, full, target) && u.inodes == st.inodes
  {
    InvMeansWalkInv(st);
    InvMeansWalkInv(u);
  }

  lemma LosingWalkInv(st: Fs, u: Fs, full: Path, d: nat, q: nat, c: nat)
    requires Inv(st) && (Lost(st, u, full, d) || Hidden(st, u, full, d, q, c))
    ensures WalkInv(st) && WalkInv(u) && TreeLoses(st, u, full) && u.inodes == st.inodes
  {
    InvMeansWalkInv(st);
    if Lost(st, u, full, d) { InvMeansWalkInv(u); } else { HiddenWalkInv(st, u, full, d, q, c); }
  }

  /** A successful rename onto a free name: below the target every walk ends where it did below the source. */
  lemma RenameFileWalksBelow(st: Fs, from: Bytes, to: Bytes, p: Path)
    requires Inv(st) && PathOk(st, from) && PathOk(st, to) && RenameFile(st, from, to).1 == OK
    requires TargetFree(st, from, to) && Last(from) != [] && Last(to) != [] && ThroughDirs(st, Tokens(from) + p)
    ensures ThroughDirs(RenameFile(st, from, to).0, Tokens(to) + p)
    ensures Resolve(RenameFile(st, from, to).0, Tokens(to) + p) == Resolve(st, Tokens(from) + p)
  {
    hide Inv, PathOk, Moved, Hidden, Lost, CanEnter, TargetFree, ThroughDirs, Resolve, TreeAt, RenameFile, WalkInv;
    var r, o, d, q := RenameFileMeaning(st, from, to);
    StringOfPath(from);
    StringOfPath(to);
    PathOkWalks(st, to);
    MovedWalkInv(st, r.0, FullPath(from), FullPath(to), d, q);
    MovesWalkBelow(st, r.0, FullPath(from), FullPath(to), p);
  }

  /**
   * A rename to a path that ends in a slash reports success and puts the source in the tree under
   * the empty name. No path string leads to it any more, nor to anything below it.
   */
  lemma RenameToSlashLoses(st: Fs, from: Bytes, to: Bytes, p: Path, s: Bytes)
    requires Inv(st) && PathOk(st, from) && PathOk(st, to) && RenameFile(st, from, to).1 == OK
    requires TargetFree(st, from, to) && Last(to) == [] && TreeAt(Tree(st), FullPath(from) + p) != 0
    requires ThroughDirs(RenameFile(st, from, to).0, Tokens(s))
    ensures Resolve(RenameFile(st, from, to).0, Tokens(s)) != TreeAt(Tree(st), FullPath(from) + p)
  {
    hide Inv, PathOk, Moved, Hidden, Lost, CanEnter, TargetFree, ThroughDirs, Resolve, TreeAt, RenameFile, WalkInv;
    var r, o, d, q := RenameFileMeaning(st, from, to);
    StringOfPath(to);
    MovedIsThere(st, r.0, FullPath(from), FullPath(to), d, q);
    InvMeansWalkInv(r.0);
    ResolveIsTree(r.0, Tokens(s));
    OnlyThere(st, r.0, FullPath(from), FullPath(to), p, Tokens(s));
  }

  lemma OnlyThere(st: Fs, u: Fs, full: Path, target: Path, p: Path, q: Path)
    requires Inv(u) && TreeMoves(st, u, full, target) && TreeAt(Tree(st), full + p) != 0 && !(target <= q)
    ensures TreeAt(Tree(u), q) != TreeAt(Tree(st), full + p)
  {
    hide TreeAt;
    assert TreeAt(Tree(u), target + p) == TreeAt(Tree(st), full + p) && target <= target + p;
    UniqueIf(Tree(u), q, target + p);
  }

  /** For instance, a directory path with a slash at its end: the walk finds it, the removal aborts. */
  lemma RemoveWithSlashAborts(st: Fs, path: Bytes)
    requires Inv(st) && PathOk(st, path) && Last(path) == []
    requires LiveDir(st, Resolve(st, Tokens(path))) && Child(st, Resolve(st, Tokens(path)), []) == 0
    ensures RemoveFile(st, path) == (st, ABORT)
  {
    hide Inv, PathOk, Removed, Resolve, TreeAt, RemoveFile;
    StringResolves(st, path);
    var r := RemoveFileMeaning(st, path);
  }

  // ---------- paths of the tree that are path strings ----------

  /** Components as they occur in path strings. */
  ghost predicate Plain(p: Path) {
    forall k :: 0 <= k < |p| ==> p[k] != [] && SLASH !in p[k]
  }

  ghost predicate PlainTree(st: Fs) {
    forall p: Path :: TreeAt(Tree(st), p) != 0 ==> Plain(p)
  }

  /** The operation enters nothing under a path that ends in a slash. */
  predicate Named(op: Op) {
    match op
    case OpMkdir(path, _) => HasSlash(path) ==> Last(path) != []
    case OpCreate(path, _) => HasSlash(path) ==> Last(path) != []
    case OpRename(_, dst) => HasSlash(dst) ==> Last(dst) != []
    case _ => true
  }

  lemma FullPathIsPlain(path: Bytes)
    requires HasSlash(path) && Last(path) != []
    ensures Plain(FullPath(path))
  {
    StringOfPath(path);
    TokensArePlain(path);
    forall k | 0 <= k < |FullPath(path)|
      ensures FullPath(path)[k] != [] && SLASH !in FullPath(path)[k]
    {
      assert FullPath(path)[k] in Tokens(path);
    }
  }

  lemma GainsPlain(st: Fs, u: Fs, full: Path, i: nat)
    requires PlainTree(st) && Plain(full) && TreeGains(st, u, full, i)
    ensures PlainTree(u)
  {
  }

  lemma SamePlain(st: Fs, u: Fs)
    requires PlainTree(st) && TreeSame(st, u)
    ensures PlainTree(u)
  {
  }

  lemma LosesPlain(st: Fs, u: Fs, full: Path)
    requires PlainTree(st) && TreeLoses(st, u, full)
    ensures PlainTree(u)
  {
  }

  lemma MovesPlain(st: Fs, u: Fs, full: Path, target: Path)
    requires PlainTree(st) && Plain(target) && TreeMoves(st, u, full, target)
    ensures PlainTree(u)
  {
    hide TreeAt;
    forall p: Path | TreeAt(Tree(u), p) != 0
      ensures Plain(p)
    {
      if target <= p {
        var s := p[|target|..];
        assert target + s == p && Plain(full + s);
        assert forall k :: 0 <= k < |s| ==> s[k] == (full + s)[|full| + k];
      }
    }
  }

  /** Entering a new node, or none, under a path string. */
  lemma EnteredPlain(st: Fs, u: Fs, path: Bytes, d: nat, i: nat)
    requires PlainTree(st) && HasSlash(path) && Last(path) != []
    requires Entered(st, u, DirPath(path), d, Last(path), i)
    ensures PlainTree(u)
  {
    EnteredTree(st, u, DirPath(path), d, Last(path), i);
    FullPathIsPlain(path);
    if DirOf(st, d).size < SLOTS { GainsPlain(st, u, FullPath(path), i); } else { SamePlain(st, u); }
  }

  /** Changing a file's blocks and size changes no path. */
  lemma FileStepKeepsTree(st: Fs, u: Fs, i: nat)
    requires Inv(st) && SameDevice(st, u) && u.ipool == st.ipool && i < |st.inodes| && !IsDir(st.inodes[i])
    requires u.inodes[i].mode == st.inodes[i].mode && forall j: nat :: Live(st, j) && j != i ==> Same(st, u, j)
    ensures TreeSame(st, u)
  {
    TreeKept(st, u);
    ChildrenSameTree(st, u);
  }

  lemma WritePlain(st: Fs, op: Op)
    requires Inv(st) && Allowed(st, op) && op.OpWrite? && PlainTree(st)
    ensures PlainTree(Step(st, op))
  {
    var r := WriteFileMeaning(st, op.i, op.buf, op.off, op.prev, op.words);
    FileStepKeepsTree(st, r.0, op.i);
    SamePlain(st, r.0);
  }

  lemma TruncatePlain(st: Fs, op: Op)
    requires Inv(st) && Allowed(st, op) && op.OpTruncate? && PlainTree(st)
    ensures PlainTree(Step(st, op))
  {
    var r := TruncateFileMeaning(st, op.i, op.size);
    if r.1 == OK {
      FileStepKeepsTree(st, r.0, op.i);
      SamePlain(st, r.0);
    }
  }

  lemma MkdirPlain(st: Fs, op: Op)
    requires Inv(st) && Allowed(st, op) && op.OpMkdir? && PlainTree(st) && Named(op)
    ensures PlainTree(Step(st, op))
  {
    hide Inv, PlainTree, Entered, TreeAt, Mkdir, TreeSame;
    var r := MkdirMeaning(st, op.path, op.mode);
    if r.1 == OK {
      EnteredPlain(st, r.0, op.path, TreeAt(Tree(st), DirPath(op.path)), r.2);
    } else {
      SamePlain(st, r.0);
    }
  }

  lemma CreatePlain(st: Fs, op: Op)
    requires Inv(st) && Allowed(st, op) && op.OpCreate? && PlainTree(st) && Named(op)
    ensures PlainTree(Step(st, op))
  {
    hide Inv, PlainTree, Entered, TreeAt, CreateFile;
    var r := CreateFileMeaning(st, op.path, op.mode);
    if r.1 == OK { EnteredPlain(st, r.0, op.path, TreeAt(Tree(st), DirPath(op.path)), r.2); }
  }

  lemma RemovePlain(st: Fs, op: Op)
    requires Inv(st) && Allowed(st, op) && op.OpRemove? && PlainTree(st)
    ensures PlainTree(Step(st, op))
  {
    hide Inv, PlainTree, Removed, TreeAt, RemoveFile;
    var r := RemoveFileMeaning(st, op.path);
    if r.1 == OK {
      var d, c := TreeAt(Tree(st), DirPath(op.path)), TreeAt(Tree(st), FullPath(op.path));
      RemovedLoses(st, r.0, FullPath(op.path), d, c);
      LosesPlain(st, r.0, FullPath(op.path));
    }
  }

  lemma RenamePlain(st: Fs, op: Op)
    requires Inv(st) && Allowed(st, op) && op.OpRename? && PlainTree(st) && Named(op)
    ensures PlainTree(Step(st, op))
  {
    hide Inv, PlainTree, Moved, Lost, Hidden, CanEnter, TreeAt, RenameFile;
    var r, o, d, q := RenameFileMeaning(st, op.src, op.dst);
    if o.SubtreeMoved? {
      MovedWalkInv(st, r.0, FullPath(op.src), FullPath(op.dst), d, q);
      FullPathIsPlain(op.dst);
      MovesPlain(st, r.0, FullPath(op.src), FullPath(op.dst));
    } else if o.SourceLost? {
      LosingWalkInv(st, r.0, FullPath(op.src), d, q, 0);
      LosesPlain(st, r.0, FullPath(op.src));
    }
  }

  lemma StepPlain(st: Fs, op: Op)
    requires Inv(st) && Allowed(st, op) && PlainTree(st) && Named(op)
    ensures PlainTree(Step(st, op))
  {
    hide Inv, Allowed, Step, PlainTree, Named;
    match op
    case OpMkdir(_, _) => MkdirPlain(st, op);
    case OpCreate(_, _) => CreatePlain(st, op);
    case OpWrite(_, _, _, _, _) => WritePlain(st, op);
    case OpTruncate(_, _) => TruncatePlain(st, op);
    case OpRename(_, _) => RenamePlain(st, op);
    case OpRemove(_) => RemovePlain(st, op);
  }

  lemma {:induction false} RunPlain(st: Fs, ops: seq<Op>)
    requires Inv(st) && AllAllowed(st, ops) && PlainTree(st) && forall k :: 0 <= k < |ops| ==> Named(ops[k])
    ensures PlainTree(Run(st, ops))
    decreases |ops|
  {
    hide Inv, Allowed, Step, PlainTree, Named, Touched, Overcounts;
    if ops != [] {
      StepPlain(st, ops[0]);
      StepKeeps(st, ops[0]);
      forall k | 0 <= k < |ops[1..]|
        ensures Named(ops[1..][k])
      {
        assert ops[1..][k] == ops[k + 1];
      }
      RunPlain(Step(st, ops[0]), ops[1..]);
    }
  }

  /** A path that resolves in the tree passes only directories. */
  lemma {:induction false} ReachedThroughDirs(st: Fs, p: Path)
    requires TreeAt(Tree(st), p) != 0
    ensures ThroughDirs(st, p)
  {
    hide Lookup, DirAt;
    if p != [] {
      var q := p[..|p| - 1];
      ReachedThroughDirs(st, q);
      assert Child(st, TreeAt(Tree(st), q), p[|p| - 1]) != 0;
      forall k | 0 <= k < |p|
        ensures TableOrNothing(st, TreeAt(Tree(st), p[..k]))
      {
        if k < |q| { assert p[..k] == q[..k]; } else { assert p[..k] == q; }
      }
    }
  }

  /**
   * After every run that enters nothing under a path with a slash at its end, tree and path strings
   * are the same thing: every node of the tree is where the walk of its path string ends.
   */
  lemma EveryPathIsString(st: Fs, ops: seq<Op>, p: Path) returns (u: Fs)
    requires Fresh(st) && AllAllowed(CreateRoot(st).0, ops) && forall k :: 0 <= k < |ops| ==> Named(ops[k])
    ensures u == Run(CreateRoot(st).0, ops)
    ensures TreeAt(Tree(u), p) != 0 ==> Tokens(Join(p)) == p && Resolve(u, Tokens(Join(p))) == TreeAt(Tree(u), p)
  {
    hide Run, AllAllowed, CreateRoot, ThroughDirs, Resolve, WalkInv, Inv, Named;
    MountMeaning(st);
    RunKeeps(CreateRoot(st).0, ops);
    RunPlain(CreateRoot(st).0, ops);
    u := Run(CreateRoot(st).0, ops);
    hide TreeAt;
    if TreeAt(Tree(u), p) != 0 {
      TokensOfJoin(p);
      ReachedThroughDirs(u, p);
      InvMeansWalkInv(u);
      ResolveIsTree(u, p);
    }
  }

  /** After every run, two strings lead to the same inode only if they have the same components. */
  lemma EveryRunWalks(st: Fs, ops: seq<Op>, s: Bytes, t: Bytes) returns (u: Fs)
    requires Fresh(st) && AllAllowed(CreateRoot(st).0, ops)
    ensures u == Run(CreateRoot(st).0, ops)
    ensures ThroughDirs(u, Tokens(s)) && Resolve(u, Tokens(s)) != 0 ==> Live(u, Resolve(u, Tokens(s)))
    ensures ThroughDirs(u, Tokens(s)) && ThroughDirs(u, Tokens(t)) ==>
              (Resolve(u, Tokens(s)) == Resolve(u, Tokens(t)) != 0 ==> Tokens(s) == Tokens(t))
  {
    hide Run, AllAllowed, CreateRoot, ThroughDirs, Resolve, WalkInv, TreeAt;
    MountMeaning(st);
    RunKeeps(CreateRoot(st).0, ops);
    u := Run(CreateRoot(st).0, ops);
    InvMeansWalkInv(u);
    if ThroughDirs(u, Tokens(s)) {
      ResolveIsTree(u, Tokens(s));
      if Resolve(u, Tokens(s)) != 0 { ReachedIsLive(u, Tokens(s)); }
    }
    if ThroughDirs(u, Tokens(t)) { ResolveIsTree(u, Tokens(t)); }
    UniqueIf(Tree(u), Tokens(s), Tokens(t));
  }
}

// A rename onto an existing name, followed by the removal of that name (fs_rename_file and
// fs_remove_file in src/chisai-core/fs.c): together they replace the target by the source.
module Replacing {
  import opened Codec
  import opened Invariant
  import opened Moves
  import opened Namespace
  import opened Nodes
  import opened Operations
  import opened Paths
  import opened Pools
  import opened Resolution
  import opened State
  import opened Tables

  // ---------- the edges ----------

  /** `h` is `g` with the edge under name `n` of `d` leading to `c`, and without the edges of `dead`. */
  ghost predicate ReplacesEdge(g: Edges, h: Edges, d: nat, n: Name, c: nat, dead: nat) {
    forall e, m :: h(e, m) == if e == dead then 0 else if e == d && m == n then c else g(e, m)
  }

  /** Fewer edges are still a forest. */
  lemma FewerEdges(g: Edges, h: Edges)
    requires Forest(g) && forall e, m :: h(e, m) == 0 || h(e, m) == g(e, m)
    ensures Forest(h)
  {
  }

  /** The target directory is where it was, and what it leads to under the target name is not it. */
  lemma TargetDirStays(g: Edges, mid: Edges, fromDir: Path, fromName: Name, toDir: Path, toName: Name)
    requires Forest(g) && TreeAt(g, fromDir) != 0 && (forall m :: g(0, m) == 0)
    requires CutsEdge(g, mid, TreeAt(g, fromDir), fromName, 0)
    requires TreeAt(mid, toDir) != 0 && mid(TreeAt(mid, toDir), toName) != 0
    ensures !(fromDir + [fromName] <= toDir + [toName]) && !(fromDir + [fromName] <= toDir)
    ensures TreeAt(g, toDir) == TreeAt(mid, toDir)
    ensures TreeAt(g, toDir + [toName]) == mid(TreeAt(mid, toDir), toName) != TreeAt(mid, toDir)
  {
    var target := toDir + [toName];
    assert target[..|target| - 1] == toDir && target[|target| - 1] == toName;
    CutRemovesSubtree(g, mid, fromDir, fromName, 0, toDir);
    CutRemovesSubtree(g, mid, fromDir, fromName, 0, target);
    UniqueIf(g, toDir, target);
  }

  /** Outside the target, the replacement changes nothing but that the source is gone. */
  lemma ReplacedElsewhere(g: Edges, mid: Edges, h: Edges, fromDir: Path, fromName: Name,
                          toDir: Path, toName: Name, c: nat, p: Path)
    requires Forest(g) && TreeAt(g, fromDir) != 0 && (forall m :: g(0, m) == 0)
    requires CutsEdge(g, mid, TreeAt(g, fromDir), fromName, 0)
    requires TreeAt(mid, toDir) != 0 && mid(TreeAt(mid, toDir), toName) != 0
    requires ReplacesEdge(mid, h, TreeAt(mid, toDir), toName, c, mid(TreeAt(mid, toDir), toName))
    requires !(toDir + [toName] <= p)
    ensures TreeAt(h, p) == if fromDir + [fromName] <= p then 0 else TreeAt(g, p)
  {
    hide TreeAt;
    var q := TreeAt(mid, toDir);
    var x := mid(q, toName);
    TargetDirStays(g, mid, fromDir, fromName, toDir, toName);
    CutForest(g, mid, TreeAt(g, fromDir), fromName);
    var k: Edges := (e, m) => if (e == q && m == toName) || e == x then 0 else mid(e, m);
    assert CutsEdge(mid, k, q, toName, x);
    FewerEdges(mid, k);
    assert AddsEdge(k, h, q, toName, c);
    assert |toDir + [toName]| > |toDir|;
    CutRemovesSubtree(mid, k, toDir, toName, x, toDir);
    CutRemovesSubtree(mid, k, toDir, toName, x, p);
    AddKeepsOthers(k, h, toDir, toName, c, p);
    CutRemovesSubtree(g, mid, fromDir, fromName, 0, p);
  }

  /** Below the target everything resolves as it did below the source. */
  lemma {:induction false} ReplacedBelow(g: Edges, mid: Edges, h: Edges, fromDir: Path, fromName: Name,
                                         toDir: Path, toName: Name, s: Path)
    requires Forest(g) && TreeAt(g, fromDir) != 0 && (forall m :: g(0, m) == 0)
    requires CutsEdge(g, mid, TreeAt(g, fromDir), fromName, 0)
    requires TreeAt(mid, toDir) != 0 && mid(TreeAt(mid, toDir), toName) != 0
    requires var c := g(TreeAt(g, fromDir), fromName);
             c != 0 && ReplacesEdge(mid, h, TreeAt(mid, toDir), toName, c, mid(TreeAt(mid, toDir), toName))
    ensures TreeAt(h, toDir + [toName] + s) == TreeAt(g, fromDir + [fromName] + s)
  {
    var full, target := fromDir + [fromName], toDir + [toName];
    hide TreeAt;
    if s == [] {
      assert target + s == target && full + s == full;
      ReplacedItself(g, mid, h, fromDir, fromName, toDir, toName);
    } else {
      var r, n := s[..|s| - 1], s[|s| - 1];
      ReplacedBelow(g, mid, h, fromDir, fromName, toDir, toName, r);
      ReplacedStep(g, mid, h, fromDir, fromName, toDir, toName, r, n);
      assert s == r + [n];
      assert target + s == target + r + [n] && full + s == full + r + [n];
    }
  }

  lemma ReplacedItself(g: Edges, mid: Edges, h: Edges, fromDir: Path, fromName: Name, toDir: Path, toName: Name)
    requires Forest(g) && TreeAt(g, fromDir) != 0 && (forall m :: g(0, m) == 0)
    requires CutsEdge(g, mid, TreeAt(g, fromDir), fromName, 0)
    requires TreeAt(mid, toDir) != 0 && mid(TreeAt(mid, toDir), toName) != 0
    requires ReplacesEdge(mid, h, TreeAt(mid, toDir), toName, g(TreeAt(g, fromDir), fromName),
                          mid(TreeAt(mid, toDir), toName))
    ensures TreeAt(h, toDir + [toName]) == TreeAt(g, fromDir + [fromName])
  {
    var full, target := fromDir + [fromName], toDir + [toName];
    assert target[..|target| - 1] == toDir && full[..|full| - 1] == fromDir;
    TargetDirStays(g, mid, fromDir, fromName, toDir, toName);
    ReplacedElsewhere(g, mid, h, fromDir, fromName, toDir, toName, g(TreeAt(g, fromDir), fromName), toDir);
  }

  lemma ReplacedStep(g: Edges, mid: Edges, h: Edges, fromDir: Path, fromName: Name, toDir: Path, toName: Name,
                     s: Path, n: Name)
    requires Forest(g) && TreeAt(g, fromDir) != 0 && (forall m :: g(0, m) == 0)
    requires CutsEdge(g, mid, TreeAt(g, fromDir), fromName, 0)
    requires TreeAt(mid, toDir) != 0 && mid(TreeAt(mid, toDir), toName) != 0
    requires ReplacesEdge(mid, h, TreeAt(mid, toDir), toName, g(TreeAt(g, fromDir), fromName),
                          mid(TreeAt(mid, toDir), toName))
    requires TreeAt(h, toDir + [toName] + s) == TreeAt(g, fromDir + [fromName] + s)
    ensures TreeAt(h, toDir + [toName] + s + [n]) == TreeAt(g, fromDir + [fromName] + s + [n])
  {
    var from, to := fromDir + [fromName] + s, toDir + [toName] + s;
    assert (to + [n])[..|to|] == to && (from + [n])[..|from|] == from;
    TargetDirStays(g, mid, fromDir, fromName, toDir, toName);
    assert |from| > |fromDir| && fromDir + [fromName] <= from;
    UniqueIf(g, from, fromDir);
    UniqueIf(g, from, toDir);
    UniqueIf(g, from, toDir + [toName]);
  }

  lemma ReplaceForest(g: Edges, h: Edges, d: nat, n: Name, c: nat)
    requires Forest(g) && c != ROOT && c != 0 && (forall e, m :: g(e, m) != c)
    requires forall e, m :: h(e, m) == if e == d && m == n then c else g(e, m)
    ensures Forest(h)
  {
  }

  // ---------- the state ----------

  /** The state in which directory `q` holds the table that is left after both operations. */
  lemma ReplacedTable(mid: Fs, q: nat, name: Name, c: nat, x: nat, t: Table)
    requires Inv(mid) && LiveDir(mid, q) && Child(mid, q, name) == x && x != 0
    requires Live(mid, c) && c != ROOT && Unlinked(mid, c)
    requires Good(t) && forall m: Name :: Lookup(t, m) == if m == name then c else Lookup(DirOf(mid, q), m)
    ensures var w := SaveDir(mid, mid.inodes[q].direct[0], t);
            && Inv(w) && OnlyNode(mid, w, q) && w.inodes == mid.inodes && w.ipool == mid.ipool && w.dpool == mid.dpool
            && w.freeBlocks == mid.freeBlocks && w.freeInodes == mid.freeInodes && Unlinked(w, x)
            && (forall j: nat, n: Name :: Child(w, j, n) == if j == q && n == name then c else Child(mid, j, n))
  {
    hide Lookup;
    SaveTableKeeps(mid, q, t);
    var w := SaveDir(mid, mid.inodes[q].direct[0], t);
    LiveAgain(mid, w);
    ReplaceForest(Tree(mid), Tree(w), q, name, c);
    forall j: nat, n: Name
      ensures Child(w, j, n) != 0 ==> Live(w, Child(w, j, n))
      ensures Child(w, j, n) != x
    {
      assert Tree(mid)(j, n) == Tree(mid)(q, name) && Tree(mid)(j, n) != 0 ==> j == q && n == name;
    }
  }

  /** Storing a table twice is storing the second one; giving a node back touches other things. */
  lemma StoredTwice(mid: Fs, q: nat, s: Table, t: Table, x: nat)
    requires q < |mid.inodes| && x < |mid.inodes|
    ensures var d := mid.inodes[q].direct[0];
            SaveDir(DropNode(SaveDir(mid, d, s), x), d, t) == DropNode(SaveDir(mid, d, t), x)
  {
    hide Tables.Encode, Release;
    var d := mid.inodes[q].direct[0];
    if d < |mid.blocks| { SpliceTwice(mid.blocks[d], Tables.Encode(s), Tables.Encode(t)); }
  }

  lemma SpliceTwice(blk: Bytes, x: Bytes, y: Bytes)
    requires |x| == |y|
    ensures Splice(Splice(blk, 0, x), 0, y) == Splice(blk, 0, y)
  {
  }

  /** The removal of a name that has been entered a second time, from directory `q`. */
  lemma RemoveDuplicate(mid: Fs, q: nat, name: Name, c: nat, x: nat)
    requires Inv(mid) && LiveDir(mid, q) && GoodName(name) && Child(mid, q, name) == x && x != 0
    requires DirOf(mid, q).size < SLOTS && Live(mid, c) && c != ROOT && Unlinked(mid, c)
    ensures var r := RemoveIn(EnterIn(mid, q, name, c), q, name);
            && r.1 == OK && Inv(r.0) && SameDevice(mid, r.0) && ReplacesEdge(Tree(mid), Tree(r.0), q, name, c, x)
            && r.0.inodes == mid.inodes && (forall j: nat :: Live(r.0, j) <==> Live(mid, j) && j != x)
            && (forall j: nat :: Live(mid, j) && j != q && j != x ==> Same(mid, r.0, j))
            && x < |mid.inodes|
            && (forall e: nat :: InUse(r.0.dpool, e) <==> InUse(mid.dpool, e) && e != mid.inodes[x].direct[0])
  {
    hide Inv, Insert, Remove, Lookup, Tables.Encode, Splice, Release, OnlyNode, Unlinked, Good, IsDir;
    var u := EnterIn(mid, q, name, c);
    var s := Insert(DirOf(mid, q), name, c).0;
    EnteredTwice(mid, q, name, c);
    var t := Remove(s, name).0;
    ReplacedTable(mid, q, name, c, x, t);
    var w := SaveDir(mid, mid.inodes[q].direct[0], t);
    ChildIsLive(mid, q, name);
    LiveAgain(mid, w);
    DropKeeps(w, x);
    DropPools(w, x);
    ZeroFree(w.dpool);
    StoredTwice(mid, q, s, t, x);
    SameOutside(mid, w, DropNode(w, x), q, x);
  }

  /** What the table holds after the name has been entered again, and what its removal takes. */
  lemma EnteredTwice(mid: Fs, q: nat, name: Name, c: nat)
    requires Inv(mid) && LiveDir(mid, q) && GoodName(name) && Child(mid, q, name) != 0
    requires DirOf(mid, q).size < SLOTS && Live(mid, c)
    ensures var s := Insert(DirOf(mid, q), name, c).0;
            var (t, x) := Remove(s, name);
            && DirOf(EnterIn(mid, q, name, c), q) == s && x == Child(mid, q, name) && Good(t)
            && forall m: Name :: Lookup(t, m) == if m == name then c else Lookup(DirOf(mid, q), m)
  {
    LiveIsSmall(mid, c);
    BoundsAre();
    HiddenEntry(mid, q, name, c);
    assert DirOk(mid, q);
    DuplicateSurfaces(DirOf(mid, q), name, c);
  }

  lemma SameOutside(mid: Fs, w: Fs, v: Fs, q: nat, x: nat)
    requires OnlyNode(mid, w, q) && OnlyNode(w, v, x)
    ensures SameDevice(mid, v) && forall j: nat :: Live(mid, j) && j != q && j != x ==> Same(mid, v, j)
  {
    forall j: nat | Live(mid, j) && j != q && j != x
      ensures Same(mid, v, j)
    {
      SameTransitive(mid, w, v, j);
    }
  }

  // ---------- the operations ----------

  /** The state and the directories a rename onto an existing name goes through. */
  lemma RenamedOnto(st: Fs, from: Bytes, to: Bytes) returns (mid: Fs, d: nat, q: nat, c: nat, x: nat)
    requires Inv(st) && PathOk(st, from) && PathOk(st, to)
    requires RenameFile(st, from, to).1 == OK && !TargetFree(st, from, to)
    ensures d == TreeAt(Tree(st), DirPath(from)) && LiveDir(st, d) && c == Child(st, d, Last(from)) && c != 0
    ensures CutOut(st, mid, DirPath(from), d, Last(from), c)
    ensures q == TreeAt(Tree(st), DirPath(to)) == TreeAt(Tree(mid), DirPath(to)) && LiveDir(mid, q)
    ensures GoodName(Last(to)) && x == Child(mid, q, Last(to)) && x != 0 && DirOf(mid, q).size < SLOTS
    ensures RenameFile(st, from, to).0 == EnterIn(mid, q, Last(to), c)
  {
    hide Inv, PathOk, TargetFree, TreeAt, CutOut, CutIn, EnterIn, DirAt, RoomAfter, CanEnter, TargetAnswers,
        PathToParent;
    ParentMeaning(st, from);
    d := PathToParent(st, from).1;
    c := Child(st, d, Last(from));
    mid := CutIn(st, d, Last(from));
    CutOutMeaning(st, DirPath(from), d, Last(from), c);
    q := TreeAt(Tree(st), DirPath(to));
    var e := TargetSearched(st, mid, from, to, d, q, c);
    x := Child(mid, q, Last(to));
  }

  /** After such a rename the parent of the target is found as before. */
  lemma ParentStillFound(st: Fs, u: Fs, from: Bytes, to: Bytes, d: nat, q: nat, c: nat)
    requires Inv(st) && PathOk(st, to) && HasSlash(from) && Hidden(st, u, FullPath(from), d, q, c)
    requires q == TreeAt(Tree(st), DirPath(to)) && LiveDir(st, q) && !(FullPath(from) <= DirPath(to))
    requires |Last(to)| <= NAME_LEN
    ensures PathToParent(u, to) == (OK, q)
  {
    InvMeansWalkInv(st);
    HiddenWalkInv(st, u, FullPath(from), d, q, c);
    DirBlockInUse(st, q);
    HiddenPools(st, u, FullPath(from), d, q, c);
    hide Inv, PathOk, Hidden, TreeAt, Resolve, ThroughDirs, WalkInv, TreeLoses;
    PathOkWalks(st, to);
    ResolveIsTree(st, DirPath(to));
    LosesWalk(st, u, FullPath(from), DirPath(to));
  }

  lemma HiddenPools(st: Fs, u: Fs, full: Path, d: nat, q: nat, c: nat)
    requires Hidden(st, u, full, d, q, c)
    ensures u.dpool == st.dpool && u.inodes == st.inodes
  {
  }

  lemma ReplacedTree(st: Fs, mid: Fs, v: Fs, from: Bytes, to: Bytes, d: nat, q: nat, c: nat, x: nat)
    requires Inv(st) && HasSlash(from) && HasSlash(to) && d == TreeAt(Tree(st), DirPath(from)) && d != 0
    requires c == Child(st, d, Last(from)) && c != 0 && CutsEdge(Tree(st), Tree(mid), d, Last(from), 0)
    requires q == TreeAt(Tree(mid), DirPath(to)) && q != 0 && x == Child(mid, q, Last(to)) && x != 0
    requires ReplacesEdge(Tree(mid), Tree(v), q, Last(to), c, x)
    ensures TreeMoves(st, v, FullPath(from), FullPath(to))
  {
    hide TreeAt, CutsEdge, ReplacesEdge, Child, Tokens;
    ZeroHasNoChildren(st);
    assert forall m: Name :: Tree(st)(0, m) == 0;
    forall s: Path
      ensures TreeAt(Tree(v), FullPath(to) + s) == TreeAt(Tree(st), FullPath(from) + s)
    {
      ReplacedBelow(Tree(st), Tree(mid), Tree(v), DirPath(from), Last(from), DirPath(to), Last(to), s);
    }
    forall p: Path | !(FullPath(to) <= p)
      ensures TreeAt(Tree(v), p) == if FullPath(from) <= p then 0 else TreeAt(Tree(st), p)
    {
      ReplacedElsewhere(Tree(st), Tree(mid), Tree(v), DirPath(from), Last(from), DirPath(to), Last(to), c, p);
    }
  }

  /** What is left of the two operations: the subtree has moved, and the node that was at the target is gone. */
  ghost predicate Replaced(st: Fs, v: Fs, full: Path, target: Path, d: nat, q: nat, x: nat) {
    && Inv(v) && SameDevice(st, v) && TreeMoves(st, v, full, target) && v.inodes == st.inodes
    && (forall j: nat :: Live(v, j) <==> Live(st, j) && j != x) && x < |st.inodes|
    && (forall e: nat :: InUse(v.dpool, e) <==> InUse(st.dpool, e) && e != st.inodes[x].direct[0])
    && (forall j: nat :: Live(st, j) && j != d && j != q && j != x ==> Same(st, v, j))
  }

  lemma CutFacts(st: Fs, mid: Fs, dir: Path, d: nat, name: Name, c: nat)
    requires Inv(st) && LiveDir(st, d) && c == Child(st, d, name) && c != 0 && CutOut(st, mid, dir, d, name, c)
    ensures Inv(mid) && OnlyNode(st, mid, d) && CutsEdge(Tree(st), Tree(mid), d, name, 0) && Unlinked(mid, c)
    ensures Live(mid, c) && c != ROOT && mid.inodes == st.inodes && mid.dpool == st.dpool
    ensures forall j: nat :: Live(mid, j) <==> Live(st, j)
  {
    ChildIsLive(st, d, name);
    LiveAgain(st, mid);
  }

  /** The target's directory is not below the source, and its entry was there before the cut. */
  lemma TargetFacts(st: Fs, mid: Fs, from: Bytes, to: Bytes, d: nat, q: nat, c: nat, x: nat)
    requires HasSlash(from) && HasSlash(to) && CutOut(st, mid, DirPath(from), d, Last(from), c)
    requires d == TreeAt(Tree(st), DirPath(from)) && d != 0 && c == Child(st, d, Last(from))
    requires q == TreeAt(Tree(mid), DirPath(to)) && q != 0 && x == Child(mid, q, Last(to)) && x != 0
    ensures !(FullPath(from) <= DirPath(to)) && x == TreeAt(Tree(st), FullPath(to))
    ensures c == TreeAt(Tree(st), FullPath(from))
  {
    FullPathSteps(mid, to);
    FullPathSteps(st, from);
    assert TreeAt(Tree(mid), FullPath(to)) == x && TreeAt(Tree(mid), DirPath(to)) == q;
  }

  lemma RemoveFound(u: Fs, to: Bytes, q: nat)
    requires HasSlash(to) && PathToParent(u, to) == (OK, q)
    ensures RemoveFile(u, to) == RemoveIn(u, q, Last(to))
  {
  }

  lemma ReplacedFrom(st: Fs, mid: Fs, v: Fs, full: Path, target: Path, d: nat, q: nat, x: nat)
    requires Inv(v) && TreeMoves(st, v, full, target) && OnlyNode(st, mid, d) && SameDevice(mid, v)
    requires mid.inodes == st.inodes && v.inodes == mid.inodes && mid.dpool == st.dpool && x < |st.inodes|
    requires forall e: nat :: InUse(v.dpool, e) <==> InUse(mid.dpool, e) && e != mid.inodes[x].direct[0]
    requires forall j: nat :: Live(mid, j) <==> Live(st, j)
    requires forall j: nat :: Live(v, j) <==> Live(mid, j) && j != x
    requires forall j: nat :: Live(mid, j) && j != q && j != x ==> Same(mid, v, j)
    ensures Replaced(st, v, full, target, d, q, x)
  {
    hide Inv, TreeMoves;
    forall j: nat | Live(st, j) && j != d && j != q && j != x
      ensures Same(st, v, j)
    {
      SameTransitive(st, mid, v, j);
    }
  }

  /** The walk of the target string finds the node that was at the source. */
  lemma ReplacedPath(st: Fs, v: Fs, from: Bytes, to: Bytes, d: nat, q: nat, x: nat)
    requires Inv(st) && PathOk(st, from) && PathOk(st, to) && Replaced(st, v, FullPath(from), FullPath(to), d, q, x)
    ensures var c := TreeAt(Tree(st), FullPath(from));
            TreeAt(Tree(v), FullPath(to)) == c && (Last(to) != [] ==> Resolve(v, Tokens(to)) == c)
  {
    InvMeansWalkInv(st);
    InvMeansWalkInv(v);
    hide Inv, PathOk, TreeAt, Resolve, ThroughDirs, WalkInv;
    StringOfPath(to);
    PathOkWalks(st, to);
    PathOkWalks(st, from);
    assert FullPath(to) + [] == FullPath(to) && FullPath(from) + [] == FullPath(from);
    MovesWalkBelow(st, v, FullPath(from), FullPath(to), []);
    ResolveIsTree(st, FullPath(from));
    ResolveIsTree(v, FullPath(to));
  }

  /**
   * A rename onto an existing name hides the source behind the target, but the source's entry is in
   * the target's directory. Removing the target afterwards takes the older entry out and brings the
   * newer one to light: together the two calls move the source's subtree to the target, replace what
   * was there, and restore the invariant.
   */
  lemma RenameThenRemove(st: Fs, from: Bytes, to: Bytes)
    requires Inv(st) && PathOk(st, from) && PathOk(st, to)
    requires RenameFile(st, from, to).1 == OK && !TargetFree(st, from, to)
    ensures var r := RemoveFile(RenameFile(st, from, to).0, to);
            var c, x := TreeAt(Tree(st), FullPath(from)), TreeAt(Tree(st), FullPath(to));
            && r.1 == OK && Replaced(st, r.0, FullPath(from), FullPath(to), TreeAt(Tree(st), DirPath(from)),
                                     TreeAt(Tree(st), DirPath(to)), x)
            && c != 0 && TreeAt(Tree(r.0), FullPath(to)) == c && (Last(to) != [] ==> Resolve(r.0, Tokens(to)) == c)
  {
    hide Inv, PathOk, RenameFile, RemoveFile, TargetFree, TreeAt, CutOut, Hidden, Moved, Lost, EnterIn, RemoveIn,
        CanEnter, PathToParent, TreeMoves, Retabled, Resolve, ReplacesEdge, Replaced, CutsEdge, Unlinked;
    var mid, d, q, c, x := RenamedOnto(st, from, to);
    var u := EnterIn(mid, q, Last(to), c);
    var r, o, d', q' := RenameFileMeaning(st, from, to);
    CutFacts(st, mid, DirPath(from), d, Last(from), c);
    TargetFacts(st, mid, from, to, d, q, c, x);
    ParentStillFound(st, u, from, to, d, q, c);
    RemoveDuplicate(mid, q, Last(to), c, x);
    var v := RemoveIn(u, q, Last(to)).0;
    RemoveFound(u, to, q);
    ReplacedTree(st, mid, v, from, to, d, q, c, x);
    ReplacedFrom(st, mid, v, FullPath(from), FullPath(to), d, q, x);
    ReplacedPath(st, v, from, to, d, q, x);
  }
}

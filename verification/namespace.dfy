// The directory tree as a graph: an edge leads from a directory inode, by a name, to a child
// inode. What inserting, cutting and moving edges does to path resolution.
module Namespace {
  import opened Tables

  const ROOT: nat := 2

  type Path = seq<Name>

  /** `g(d, n)` is the child of directory inode `d` under name `n`, or 0. */
  type Edges = (nat, Name) -> nat

  /** The inode a path leads to from the root, or 0. */
  function TreeAt(g: Edges, p: Path): (i: nat) {
    if p == [] then ROOT
    else
      var d := TreeAt(g, p[..|p| - 1]);
      if d == 0 then 0 else g(d, p[|p| - 1])
  }

  /** Every inode has at most one entry naming it, and the root has none. */
  ghost predicate Forest(g: Edges) {
    && (forall d, m, e, n :: g(d, m) == g(e, n) && g(d, m) != 0 ==> d == e && m == n)
    && (forall d, m :: g(d, m) != ROOT)
  }

  /** No sharing: two paths to the same inode are the same path. */
  lemma {:induction false} PathsAreUnique(g: Edges, p: Path, q: Path)
    requires Forest(g) && TreeAt(g, p) == TreeAt(g, q) != 0
    ensures p == q
  {
    if p != [] && q != [] {
      var m, n := |p| - 1, |q| - 1;
      PathsAreUnique(g, p[..m], q[..n]);
      assert p == p[..m] + [p[m]] && q == q[..n] + [q[n]];
    }
  }

  lemma UniqueIf(g: Edges, p: Path, q: Path)
    requires Forest(g)
    ensures TreeAt(g, p) == TreeAt(g, q) && TreeAt(g, p) != 0 ==> p == q
  {
    if TreeAt(g, p) == TreeAt(g, q) && TreeAt(g, p) != 0 {
      PathsAreUnique(g, p, q);
    }
  }

  /** In particular there are no cycles: no path extends another to the same inode. */
  lemma NoCycles(g: Edges, p: Path, s: Path)
    requires Forest(g) && TreeAt(g, p) == TreeAt(g, p + s) != 0
    ensures s == []
  {
    PathsAreUnique(g, p, p + s);
    assert |p + s| == |p| + |s|;
  }

  // ---------- adding an edge ----------

  /** `h` is `g` with one more edge. */
  ghost predicate AddsEdge(g: Edges, h: Edges, d: nat, n: Name, c: nat) {
    g(d, n) == 0 && forall e, m :: h(e, m) == if e == d && m == n then c else g(e, m)
  }

  /** Paths that do not go through the new edge resolve as before. */
  lemma {:induction false} AddKeepsOthers(g: Edges, h: Edges, dir: Path, n: Name, c: nat, p: Path)
    requires Forest(g) && TreeAt(g, dir) != 0 && AddsEdge(g, h, TreeAt(g, dir), n, c)
    requires !(dir + [n] <= p)
    ensures TreeAt(h, p) == TreeAt(g, p)
  {
    if p != [] {
      var k := |p| - 1;
      assert p == p[..k] + [p[k]];
      AddKeepsOthers(g, h, dir, n, c, p[..k]);
      UniqueIf(g, p[..k], dir);
    }
  }

  /** An edge to a node without children adds exactly one path. */
  lemma {:induction false} AddLeaf(g: Edges, h: Edges, dir: Path, n: Name, c: nat, p: Path)
    requires Forest(g) && TreeAt(g, dir) != 0 && AddsEdge(g, h, TreeAt(g, dir), n, c)
    requires c != 0 && forall m :: g(c, m) == 0
    requires c != TreeAt(g, dir)
    ensures TreeAt(h, p) == if p == dir + [n] then c else TreeAt(g, p)
  {
    if !(dir + [n] <= p) {
      AddKeepsOthers(g, h, dir, n, c, p);
    } else {
      var k := |p| - 1;
      if p == dir + [n] {
        assert p[..k] == dir && p[k] == n;
        AddKeepsOthers(g, h, dir, n, c, dir);
      } else {
        AddLeaf(g, h, dir, n, c, p[..k]);
        Unreached(g, dir, n, p);
        if p[..k] != dir + [n] {
          assert dir + [n] <= p[..k];
          Unreached(g, dir, n, p[..k]);
        }
      }
    }
  }

  /** Nothing resolves below a missing entry. */
  lemma {:induction false} Unreached(g: Edges, dir: Path, n: Name, p: Path)
    requires TreeAt(g, dir) == 0 || g(TreeAt(g, dir), n) == 0
    requires dir + [n] <= p
    ensures TreeAt(g, p) == 0
  {
    var k := |p| - 1;
    if p == dir + [n] {
      assert p[..k] == dir && p[k] == n;
    } else {
      assert dir + [n] <= p[..k];
      Unreached(g, dir, n, p[..k]);
    }
  }

  // ---------- cutting an edge ----------

  /** `h` is `g` without one edge, and without the edges that start at `dead`. */
  ghost predicate CutsEdge(g: Edges, h: Edges, d: nat, n: Name, dead: nat) {
    forall e, m :: h(e, m) == if (e == d && m == n) || e == dead then 0 else g(e, m)
  }

  /** Cutting the entry of a path removes that path with everything below it, and nothing else. */
  lemma {:induction false} CutRemovesSubtree(g: Edges, h: Edges, dir: Path, n: Name, dead: nat, p: Path)
    requires Forest(g) && TreeAt(g, dir) != 0 && CutsEdge(g, h, TreeAt(g, dir), n, dead)
    requires dead == 0 || dead == g(TreeAt(g, dir), n)
    ensures TreeAt(h, p) == if dir + [n] <= p then 0 else TreeAt(g, p)
  {
    if p != [] {
      var k := |p| - 1;
      assert p == p[..k] + [p[k]];
      CutRemovesSubtree(g, h, dir, n, dead, p[..k]);
      if dir + [n] <= p {
        if p != dir + [n] {
          assert dir + [n] <= p[..k];
        } else {
          assert p[..k] == dir && p[k] == n;
        }
      } else {
        UniqueIf(g, p[..k], dir);
        var q := dir + [n];
        assert q[..|q| - 1] == dir && q[|q| - 1] == n;
        UniqueIf(g, p[..k], q);
        assert p[..k] <= p;
      }
    }
  }

  // ---------- moving an edge ----------

  /**
   * Moving a subtree: the entry `from` is cut first (`g` to `mid`), then the same node is entered
   * again (`mid` to `h`) in a directory that is still reachable after the cut. Below the new place
   * everything resolves as it did below the old one.
   */
  lemma {:induction false} MovedBelow(g: Edges, mid: Edges, h: Edges, fromDir: Path, fromName: Name,
                                      toDir: Path, toName: Name, s: Path)
    requires Forest(g) && TreeAt(g, fromDir) != 0 && (forall m :: g(0, m) == 0)
    requires CutsEdge(g, mid, TreeAt(g, fromDir), fromName, 0)
    requires TreeAt(mid, toDir) != 0
    requires AddsEdge(mid, h, TreeAt(mid, toDir), toName, g(TreeAt(g, fromDir), fromName))
    requires g(TreeAt(g, fromDir), fromName) != 0
    ensures TreeAt(h, toDir + [toName] + s) == TreeAt(g, fromDir + [fromName] + s)
  {
    if s == [] {
      MovedItself(g, mid, h, fromDir, fromName, toDir, toName);
      assert toDir + [toName] + s == toDir + [toName] && fromDir + [fromName] + s == fromDir + [fromName];
    } else {
      MovedBelow(g, mid, h, fromDir, fromName, toDir, toName, s[..|s| - 1]);
      MovedStep(g, mid, h, fromDir, fromName, toDir, toName, s[..|s| - 1], s[|s| - 1]);
      assert s == s[..|s| - 1] + [s[|s| - 1]];
      assert toDir + [toName] + s == toDir + [toName] + s[..|s| - 1] + [s[|s| - 1]];
      assert fromDir + [fromName] + s == fromDir + [fromName] + s[..|s| - 1] + [s[|s| - 1]];
    }
  }

  lemma MovedItself(g: Edges, mid: Edges, h: Edges, fromDir: Path, fromName: Name, toDir: Path, toName: Name)
    requires Forest(g) && TreeAt(g, fromDir) != 0 && (forall m :: g(0, m) == 0)
    requires CutsEdge(g, mid, TreeAt(g, fromDir), fromName, 0)
    requires TreeAt(mid, toDir) != 0
    requires AddsEdge(mid, h, TreeAt(mid, toDir), toName, g(TreeAt(g, fromDir), fromName))
    ensures TreeAt(h, toDir + [toName]) == TreeAt(g, fromDir + [fromName])
  {
    var from, to := fromDir + [fromName], toDir + [toName];
    CutForest(g, mid, TreeAt(g, fromDir), fromName);
    AddKeepsOthers(mid, h, toDir, toName, g(TreeAt(g, fromDir), fromName), toDir);
    assert to[..|to| - 1] == toDir && from[..|from| - 1] == fromDir;
  }

  lemma MovedStep(g: Edges, mid: Edges, h: Edges, fromDir: Path, fromName: Name, toDir: Path, toName: Name,
                  s: Path, n: Name)
    requires Forest(g) && TreeAt(g, fromDir) != 0 && (forall m :: g(0, m) == 0)
    requires CutsEdge(g, mid, TreeAt(g, fromDir), fromName, 0)
    requires TreeAt(mid, toDir) != 0
    requires AddsEdge(mid, h, TreeAt(mid, toDir), toName, g(TreeAt(g, fromDir), fromName))
    requires TreeAt(h, toDir + [toName] + s) == TreeAt(g, fromDir + [fromName] + s)
    ensures TreeAt(h, toDir + [toName] + s + [n]) == TreeAt(g, fromDir + [fromName] + s + [n])
  {
    var from, to := fromDir + [fromName] + s, toDir + [toName] + s;
    assert (to + [n])[..|to|] == to && (from + [n])[..|from|] == from;
    CutRemovesSubtree(g, mid, fromDir, fromName, 0, toDir);
    assert |from| > |fromDir| && fromDir + [fromName] <= from;
    UniqueIf(g, from, fromDir);
    UniqueIf(g, from, toDir);
  }

  /** A cut leaves a forest. */
  lemma CutForest(g: Edges, h: Edges, d: nat, n: Name)
    requires Forest(g) && (forall m :: g(0, m) == 0) && CutsEdge(g, h, d, n, 0)
    ensures Forest(h)
  {
  }

  /** Outside both places a move changes nothing. */
  lemma MovedElsewhere(g: Edges, mid: Edges, h: Edges, fromDir: Path, fromName: Name,
                       toDir: Path, toName: Name, p: Path)
    requires Forest(g) && TreeAt(g, fromDir) != 0 && (forall m :: g(0, m) == 0)
    requires CutsEdge(g, mid, TreeAt(g, fromDir), fromName, 0)
    requires TreeAt(mid, toDir) != 0
    requires AddsEdge(mid, h, TreeAt(mid, toDir), toName, g(TreeAt(g, fromDir), fromName))
    requires !(toDir + [toName] <= p)
    ensures TreeAt(h, p) == if fromDir + [fromName] <= p then 0 else TreeAt(g, p)
  {
    CutForest(g, mid, TreeAt(g, fromDir), fromName);
    CutRemovesSubtree(g, mid, fromDir, fromName, 0, p);
    AddKeepsOthers(mid, h, toDir, toName, g(TreeAt(g, fromDir), fromName), p);
  }
}

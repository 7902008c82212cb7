// Path strings: the tokens `strtok` yields and the split at the last slash
// (src/chisai-core/fs.c, fs_path_to_inode and fs_path_to_parent).
module Paths {
  import opened Codec
  import opened Tables

  const SLASH: byte := 47

  predicate HasSlash(s: Bytes) {
    SLASH in s
  }

  /** The bytes before the first slash. */
  function Word(s: Bytes): (w: Bytes)
    ensures |w| <= |s|
    ensures s != [] && s[0] != SLASH ==> |w| > 0
  {
    if s == [] || s[0] == SLASH then [] else [s[0]] + Word(s[1..])
  }

  /** The components of a path: the non-empty stretches between slashes. */
  function Tokens(s: Bytes): (t: seq<Name>)
    decreases |s|
  {
    if s == [] then []
    else if s[0] == SLASH then Tokens(s[1..])
    else [Word(s)] + Tokens(s[|Word(s)|..])
  }

  /** Position of the last slash. */
  function LastSlash(s: Bytes): (k: nat)
    requires HasSlash(s)
    ensures k < |s| && s[k] == SLASH
    ensures forall j :: k < j < |s| ==> s[j] != SLASH
  {
    if s[|s| - 1] == SLASH then |s| - 1
    else
      assert s == s[..|s| - 1] + [s[|s| - 1]];
      LastSlash(s[..|s| - 1])
  }

  /** The path of the containing directory; the root has the empty path. */
  function Parent(s: Bytes): (p: Bytes)
    requires HasSlash(s)
  {
    s[..LastSlash(s)]
  }

  /** The file name: everything after the last slash. */
  function Last(s: Bytes): (n: Name)
    requires HasSlash(s)
  {
    s[LastSlash(s) + 1..]
  }

  lemma {:induction false} WordBeforeSlash(a: Bytes, b: Bytes)
    ensures Word(a + ([SLASH] + b)) == Word(a)
  {
    var s := a + ([SLASH] + b);
    if a == [] {
      assert s[0] == SLASH;
    } else if a[0] != SLASH {
      WordBeforeSlash(a[1..], b);
      assert s[0] == a[0] && s[1..] == a[1..] + ([SLASH] + b);
    }
  }

  /** A slash separates the components on its two sides, whatever they are. */
  lemma {:induction false} TokensAcrossSlash(a: Bytes, b: Bytes)
    ensures Tokens(a + ([SLASH] + b)) == Tokens(a) + Tokens(b)
    decreases |a|
  {
    var s := a + ([SLASH] + b);
    if a == [] {
      assert s == [SLASH] + b && s[1..] == b;
    } else if a[0] == SLASH {
      TokensAcrossSlash(a[1..], b);
      assert s[0] == SLASH && s[1..] == a[1..] + ([SLASH] + b);
    } else {
      WordBeforeSlash(a, b);
      var n := |Word(a)|;
      TokensAcrossSlash(a[n..], b);
      assert s[0] == a[0] && s[n..] == a[n..] + ([SLASH] + b);
      assert Tokens(s) == [Word(a)] + (Tokens(a[n..]) + Tokens(b));
    }
  }

  lemma {:induction false} WordIsPlain(s: Bytes)
    ensures SLASH !in Word(s) && forall k :: 0 <= k < |Word(s)| ==> Word(s)[k] in s
  {
    if s != [] && s[0] != SLASH { WordIsPlain(s[1..]); }
  }

  /** A component is never empty and holds no slash; that of a C string holds no NUL. */
  lemma {:induction false} TokensArePlain(s: Bytes)
    ensures forall n: Name :: n in Tokens(s) ==> n != [] && SLASH !in n && (0 !in s ==> 0 !in n)
    decreases |s|
  {
    if s == [] {
    } else if s[0] == SLASH {
      TokensArePlain(s[1..]);
    } else {
      WordIsPlain(s);
      TokensArePlain(s[|Word(s)|..]);
    }
  }

  lemma {:induction false} WordOfPlain(s: Bytes)
    requires forall k :: 0 <= k < |s| ==> s[k] != SLASH
    ensures Word(s) == s
  {
    if s != [] { WordOfPlain(s[1..]); }
  }

  lemma TokensOfPlain(s: Bytes)
    requires forall k :: 0 <= k < |s| ==> s[k] != SLASH
    ensures Tokens(s) == if s == [] then [] else [s]
  {
    if s != [] {
      WordOfPlain(s);
      assert s[|s|..] == [];
    }
  }

  /** Walking a path is walking its parent path and then its last component, if that is not empty. */
  lemma PathSplits(path: Bytes)
    requires HasSlash(path)
    ensures Tokens(path) == Tokens(Parent(path)) + (if Last(path) == [] then [] else [Last(path)])
  {
    var k := LastSlash(path);
    assert path == Parent(path) + ([SLASH] + Last(path));
    TokensAcrossSlash(Parent(path), Last(path));
    TokensOfPlain(Last(path));
  }

  /** A path built from components. */
  function Join(names: seq<Name>): (s: Bytes) {
    if names == [] then [] else Join(names[..|names| - 1]) + ([SLASH] + names[|names| - 1])
  }

  /** Components survive the round trip through a path string. */
  lemma {:induction false} TokensOfJoin(names: seq<Name>)
    requires forall i :: 0 <= i < |names| ==> names[i] != [] && SLASH !in names[i]
    ensures Tokens(Join(names)) == names
  {
    if names != [] {
      var n := |names| - 1;
      TokensOfJoin(names[..n]);
      TokensAcrossSlash(Join(names[..n]), names[n]);
      TokensOfPlain(names[n]);
      assert names == names[..n] + [names[n]];
    }
  }
}

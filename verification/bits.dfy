// The bits of a byte-packed bitmap: the shifts, masks and compiler builtins that
// the bitmap code relies on, and the boolean sequence such a bitmap stands for.
module Bits {

  /** Bit `pos` of a byte, `(x >> pos) & 1`. */
  predicate Get(x: bv8, pos: nat)
    requires pos < 8
  {
    (x >> pos) & 1 == 1
  }

  /** `x |= (1 << pos)` */
  function WithBit(x: bv8, pos: nat): bv8
    requires pos < 8
  {
    x | (1 << pos)
  }

  /** `x &= ~(1 << pos)` */
  function WithoutBit(x: bv8, pos: nat): bv8
    requires pos < 8
  {
    x & !(1 << pos)
  }

  /** The mask `1 << pos` has that bit and no other. */
  lemma MaskBit(pos: nat, k: nat)
    requires pos < 8 && k < 8
    ensures Get(1 << pos, k) <==> k == pos
  {
    if pos == 0 {} else if pos == 1 {} else if pos == 2 {} else if pos == 3 {}
    else if pos == 4 {} else if pos == 5 {} else if pos == 6 {} else {}
  }

  /** Masking works bit by bit. */
  lemma OrBits(x: bv8, m: bv8, k: nat)
    requires k < 8
    ensures Get(x | m, k) <==> Get(x, k) || Get(m, k)
  {
    if k == 0 {} else if k == 1 {} else if k == 2 {} else if k == 3 {}
    else if k == 4 {} else if k == 5 {} else if k == 6 {} else {}
  }

  lemma NotBits(m: bv8, k: nat)
    requires k < 8
    ensures Get(!m, k) <==> !Get(m, k)
  {
    if k == 0 {} else if k == 1 {} else if k == 2 {} else if k == 3 {}
    else if k == 4 {} else if k == 5 {} else if k == 6 {} else {}
  }

  lemma AndBits(x: bv8, m: bv8, k: nat)
    requires k < 8
    ensures Get(x & m, k) <==> Get(x, k) && Get(m, k)
  {
    hide Get;
    assert x & m == !(!x | !m);
    NotBits(!x | !m, k);
    OrBits(!x, !m, k);
    NotBits(x, k);
    NotBits(m, k);
  }

  /** Setting a bit turns on that bit and no other. */
  lemma SetBit(x: bv8, pos: nat, k: nat)
    requires pos < 8 && k < 8
    ensures Get(WithBit(x, pos), k) <==> k == pos || Get(x, k)
  {
    hide Get;
    MaskBit(pos, k);
    OrBits(x, 1 << pos, k);
  }

  /** Clearing a bit turns off that bit and no other. */
  lemma ResetBit(x: bv8, pos: nat, k: nat)
    requires pos < 8 && k < 8
    ensures Get(WithoutBit(x, pos), k) <==> k != pos && Get(x, k)
  {
    hide Get;
    MaskBit(pos, k);
    NotBits(1 << pos, k);
    AndBits(x, !(1 << pos), k);
  }

  /** `__builtin_popcount` of a byte: its set bits, counted. */
  function PopCount(x: bv8): nat {
    PopCountTo(x, 8)
  }

  function PopCountTo(x: bv8, n: nat): (c: nat)
    requires n <= 8
    ensures c <= n
  {
    if n == 0 then 0 else PopCountTo(x, n - 1) + One(Get(x, n - 1))
  }

  function One(b: bool): nat { if b then 1 else 0 }

  /** `__builtin_ffs`: one plus the position of the least set bit of an int, or 0. */
  function Ffs(x: bv32): (r: nat)
    ensures r <= 32
  {
    FfsFrom(x, 0)
  }

  function FfsFrom(x: bv32, k: nat): (r: nat)
    requires k <= 32
    ensures r <= 32
    decreases 32 - k
  {
    if k == 32 then 0
    else if (x >> k) & 1 == 1 then k + 1
    else FfsFrom(x, k + 1)
  }

  /** The first `n` flags of one byte, least significant first. */
  function ByteFlagsTo(x: bv8, n: nat): (f: seq<bool>)
    requires n <= 8
    ensures |f| == n
  {
    if n == 0 then [] else ByteFlagsTo(x, n - 1) + [Get(x, n - 1)]
  }

  function ByteFlags(x: bv8): (f: seq<bool>)
    ensures |f| == 8
  {
    ByteFlagsTo(x, 8)
  }

  lemma {:induction false} ByteFlagAt(x: bv8, n: nat, k: nat)
    requires k < n <= 8
    ensures ByteFlagsTo(x, n)[k] == Get(x, k)
  {
    if k < n - 1 { ByteFlagAt(x, n - 1, k); }
  }

  /** The flags a bitmap stands for: those of its bytes, in order. */
  function Flags(s: seq<bv8>): (f: seq<bool>)
    ensures |f| == 8 * |s|
  {
    if s == [] then [] else Flags(s[..|s| - 1]) + ByteFlags(s[|s| - 1])
  }

  /** Flag `8 * i + j` is bit `j` of byte `i`. */
  lemma {:induction false} FlagAt(s: seq<bv8>, i: nat, j: nat)
    requires i < |s| && j < 8
    ensures Flags(s)[8 * i + j] == Get(s[i], j)
  {
    if i < |s| - 1 {
      FlagAt(s[..|s| - 1], i, j);
    } else {
      ByteFlagAt(s[i], 8, j);
    }
  }

  lemma FlagsOfByte(s: seq<bv8>, i: nat)
    requires i < |s|
    ensures forall j :: 0 <= j < 8 ==> Flags(s)[8 * i + j] == ByteFlags(s[i])[j]
  {
    forall j | 0 <= j < 8
      ensures Flags(s)[8 * i + j] == ByteFlags(s[i])[j]
    {
      FlagAt(s, i, j);
      ByteFlagAt(s[i], 8, j);
    }
  }

  /** Replacing a byte by one that differs in bit `j` only changes flag `8 * i + j` only. */
  lemma {:induction false} FlagsUpdate(s: seq<bv8>, i: nat, j: nat, x: bv8, v: bool)
    requires i < |s| && j < 8
    requires ByteFlags(x) == ByteFlags(s[i])[j := v]
    ensures Flags(s[i := x]) == Flags(s)[8 * i + j := v]
  {
    var n := |s| - 1;
    if i == n {
      assert s[i := x][..n] == s[..n];
    } else {
      assert s[i := x][..n] == s[..n][i := x];
      FlagsUpdate(s[..n], i, j, x, v);
    }
  }

  lemma FlagsSet(s: seq<bv8>, i: nat, j: nat)
    requires i < |s| && j < 8
    ensures Flags(s[i := WithBit(s[i], j)]) == Flags(s)[8 * i + j := true]
  {
    hide WithBit, Get;
    var x := WithBit(s[i], j);
    forall k: nat | k < 8
      ensures ByteFlags(x)[k] == ByteFlags(s[i])[j := true][k]
    {
      SetBit(s[i], j, k);
      ByteFlagAt(x, 8, k);
      ByteFlagAt(s[i], 8, k);
    }
    FlagsUpdate(s, i, j, x, true);
  }

  lemma FlagsReset(s: seq<bv8>, i: nat, j: nat)
    requires i < |s| && j < 8
    ensures Flags(s[i := WithoutBit(s[i], j)]) == Flags(s)[8 * i + j := false]
  {
    hide WithoutBit, Get;
    var x := WithoutBit(s[i], j);
    forall k: nat | k < 8
      ensures ByteFlags(x)[k] == ByteFlags(s[i])[j := false][k]
    {
      ResetBit(s[i], j, k);
      ByteFlagAt(x, 8, k);
      ByteFlagAt(s[i], 8, k);
    }
    FlagsUpdate(s, i, j, x, false);
  }

  /** How many of the first `n` flags are clear. */
  function CountClearTo(f: seq<bool>, n: nat): (c: nat)
    requires n <= |f|
    ensures c <= n
  {
    if n == 0 then 0 else CountClearTo(f, n - 1) + One(!f[n - 1])
  }

  function CountClear(f: seq<bool>): (c: nat)
    ensures c <= |f|
  {
    CountClearTo(f, |f|)
  }

  lemma {:induction false} CountClearZero(f: seq<bool>, n: nat)
    requires n <= |f|
    ensures CountClearTo(f, n) == 0 <==> forall i :: 0 <= i < n ==> f[i]
  {
    if n != 0 {
      CountClearZero(f, n - 1);
    }
  }

  /** A stretch of `k` flags from position `n` on contributes its own count. */
  lemma {:induction false} CountClearSplit(f: seq<bool>, n: nat, g: seq<bool>, k: nat)
    requires n + k <= |f| && k <= |g|
    requires forall j :: 0 <= j < k ==> f[n + j] == g[j]
    ensures CountClearTo(f, n + k) == CountClearTo(f, n) + CountClearTo(g, k)
  {
    if k != 0 {
      CountClearSplit(f, n, g, k - 1);
      assert f[n + (k - 1)] == g[k - 1];
    }
  }

  lemma {:induction false} CountClearLocal(f: seq<bool>, g: seq<bool>, n: nat)
    requires n <= |f| && n <= |g|
    requires forall i :: 0 <= i < n ==> f[i] == g[i]
    ensures CountClearTo(f, n) == CountClearTo(g, n)
  {
    if n != 0 {
      CountClearLocal(f, g, n - 1);
    }
  }

  /** Changing one flag moves the count of clear flags by exactly that flag. */
  lemma {:induction false} CountClearUpdate(f: seq<bool>, i: nat, v: bool, n: nat)
    requires i < n <= |f|
    ensures CountClearTo(f[i := v], n) == CountClearTo(f, n) + One(!v) - One(!f[i])
  {
    if i == n - 1 {
      CountClearLocal(f[i := v], f, i);
    } else {
      CountClearUpdate(f, i, v, n - 1);
    }
  }

  /** The byte-level count that `bitvec_count_zeros` adds up. */
  lemma {:induction false} CountClearByte(x: bv8, n: nat)
    requires n <= 8
    ensures CountClearTo(ByteFlagsTo(x, n), n) == n - PopCountTo(x, n)
  {
    if n != 0 {
      CountClearByte(x, n - 1);
      CountClearLocal(ByteFlagsTo(x, n), ByteFlagsTo(x, n - 1), n - 1);
    }
  }

  lemma CountClearOfByte(s: seq<bv8>, i: nat)
    requires i < |s|
    ensures CountClearTo(Flags(s), 8 * i + 8) == CountClearTo(Flags(s), 8 * i) + (8 - PopCount(s[i]))
  {
    var f, g := Flags(s), ByteFlags(s[i]);
    FlagsOfByte(s, i);
    CountClearSplit(f, 8 * i, g, 8);
    CountClearByte(s[i], 8);
  }

  /** One plus the index of the least clear flag at or after `from`, or 0 when there is none. */
  function FirstClearFrom(f: seq<bool>, from: nat): (r: nat)
    requires from <= |f|
    ensures r <= |f|
    decreases |f| - from
  {
    if from == |f| then 0
    else if !f[from] then from + 1
    else FirstClearFrom(f, from + 1)
  }

  function FirstClear(f: seq<bool>): (r: nat)
    ensures r <= |f|
  {
    FirstClearFrom(f, 0)
  }

  lemma {:induction false} FirstClearFromMeaning(f: seq<bool>, from: nat)
    requires from <= |f|
    ensures var r := FirstClearFrom(f, from);
            && (r == 0 <==> forall i :: from <= i < |f| ==> f[i])
            && (r != 0 ==> from < r && !f[r - 1] && forall i :: from <= i < r - 1 ==> f[i])
    decreases |f| - from
  {
    if from < |f| && f[from] {
      FirstClearFromMeaning(f, from + 1);
    }
  }

  /** The scan finds the least clear flag, and answers 0 exactly when there is none. */
  lemma FirstClearMeaning(f: seq<bool>)
    ensures var r := FirstClear(f);
            && (r == 0 <==> forall i :: 0 <= i < |f| ==> f[i])
            && (r != 0 ==> !f[r - 1] && forall i :: 0 <= i < r - 1 ==> f[i])
  {
    FirstClearFromMeaning(f, 0);
  }

  /** Scanning from position `n + j` looks at the stretch `g` there before going on after it. */
  lemma {:induction false} FirstClearSplit(f: seq<bool>, n: nat, g: seq<bool>, j: nat)
    requires n + |g| <= |f| && j <= |g|
    requires forall k :: 0 <= k < |g| ==> f[n + k] == g[k]
    ensures FirstClearFrom(f, n + j) ==
            if FirstClearFrom(g, j) != 0 then n + FirstClearFrom(g, j) else FirstClearFrom(f, n + |g|)
    decreases |g| - j
  {
    if j < |g| {
      assert f[n + j] == g[j];
      FirstClearFromPositive(g, j);
      FirstClearSplit(f, n, g, j + 1);
    }
  }

  lemma {:induction false} FirstClearFromPositive(g: seq<bool>, j: nat)
    requires j <= |g|
    ensures FirstClearFrom(g, j) == 0 || FirstClearFrom(g, j) > j
    decreases |g| - j
  {
    if j < |g| {
      FirstClearFromPositive(g, j + 1);
    }
  }

  /** What the builtin answers for byte `i` decides a scan that has reached that byte. */
  lemma ScanByte(s: seq<bv8>, i: nat)
    requires i < |s|
    ensures var t := Ffs(!(s[i] as bv32));
            FirstClearFrom(Flags(s), 8 * i) == if t < 9 then 8 * i + t else FirstClearFrom(Flags(s), 8 * i + 8)
  {
    FlagsOfByte(s, i);
    FfsOfComplement(s[i]);
    FirstClearSplit(Flags(s), 8 * i, ByteFlags(s[i]), 0);
  }

  /**
   * `__builtin_ffs(~byte)`: the byte is promoted to a 32-bit int before it is complemented, so
   * the complement always has bit 8 set and the builtin answers 9, never 0, for a full byte.
   */
  lemma FfsOfComplement(x: bv8)
    ensures Ffs(!(x as bv32)) == if FirstClear(ByteFlags(x)) == 0 then 9 else FirstClear(ByteFlags(x))
  {
    var y := !(x as bv32);
    var f := ByteFlags(x);
    forall i: nat | i < 8
      ensures (y >> i) & 1 == 1 <==> !f[i]
    {
      ComplementBits(x, i);
      ByteFlagAt(x, 8, i);
    }
    ComplementBits(x, 0);
    FfsStep(y, f, 0);
  }

  lemma FfsStep(y: bv32, f: seq<bool>, k: nat)
    requires |f| == 8 && k <= 8
    requires forall i: nat :: i < 8 ==> ((y >> i) & 1 == 1 <==> !f[i])
    requires (y >> 8) & 1 == 1
    ensures FfsFrom(y, k) == if FirstClearFrom(f, k) == 0 then 9 else FirstClearFrom(f, k)
    decreases 8 - k
  {
    if k < 8 {
      FfsStep(y, f, k + 1);
    }
  }

  lemma ComplementBits(x: bv8, i: nat)
    requires i < 8
    ensures (!(x as bv32) >> i) & 1 == 1 <==> !Get(x, i)
    ensures (!(x as bv32) >> 8) & 1 == 1
  {
    if i == 0 {} else if i == 1 {} else if i == 2 {} else if i == 3 {}
    else if i == 4 {} else if i == 5 {} else if i == 6 {} else {}
  }
}

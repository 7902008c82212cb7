// The alignment macros of include/utils/align.h.
module Align {
  import opened Arith

  /** `x & ~m` for non-negative operands, bit by bit. */
  function AndNot(x: nat, m: nat): (r: nat) {
    if x == 0 then 0
    else (if m % 2 == 1 then 0 else x % 2) + 2 * AndNot(x / 2, m / 2)
  }

  /** `ALIGN_DOWN(x, a)`: the macro subtracts the mask before the masking step adds it back. */
  function AlignDown(x: nat, a: nat): (r: nat)
    requires a > 0
  {
    AndNot((x - (a - 1)) + (a - 1), a - 1)
  }

  predicate PowerOfTwo(a: nat) {
    a == 1 || (a > 0 && a % 2 == 0 && PowerOfTwo(a / 2))
  }

  /** The next power of two is at least twice as large. */
  lemma {:induction false} NextPower(a: nat, b: nat)
    requires PowerOfTwo(a) && PowerOfTwo(b) && a < b
    ensures 2 * a <= b
    decreases a
  {
    if a != 1 { NextPower(a / 2, b / 2); }
  }

  lemma {:induction false} AndNotZero(x: nat)
    ensures AndNot(x, 0) == x
  {
    if x != 0 { AndNotZero(x / 2); }
  }

  lemma {:induction false} AndNotSelf(x: nat)
    ensures AndNot(x, x) == 0
  {
    if x != 0 { AndNotSelf(x / 2); }
  }

  lemma HalvedRemainder(x: nat, c: nat)
    requires c > 0
    ensures x % (2 * c) == 2 * (x / 2 % c) + x % 2
  {
    var h := x / 2;
    var q, r := h / c, h % c;
    DivModJoin(h, c);
    assert q * (2 * c) == 2 * (q * c);
    DivModUnique(x, 2 * c, q, 2 * r + x % 2);
  }

  lemma {:induction false} FloorForPowers(x: nat, a: nat)
    requires PowerOfTwo(a)
    ensures AndNot(x, a - 1) == x - x % a
    decreases a
  {
    if a == 1 {
      AndNotZero(x);
    } else {
      var c := a / 2;
      FloorForPowers(x / 2, c);
      HalvedRemainder(x, c);
      assert (a - 1) / 2 == c - 1 && (a - 1) % 2 == 1;
    }
  }

  /** Masking `a` by `a - 1` keeps the least set bit of `a`, which is `a` only for powers of two. */
  lemma {:induction false} OnlyPowersSurvive(a: nat)
    requires a > 0
    ensures AndNot(a, a - 1) == a <==> PowerOfTwo(a)
  {
    if a % 2 == 1 {
      AndNotSelf(a / 2);
      assert (a - 1) / 2 == a / 2;
    } else {
      OnlyPowersSurvive(a / 2);
      assert (a - 1) / 2 == a / 2 - 1 && (a - 1) % 2 == 1;
    }
  }

  /** The macro rounds every offset down to a multiple of `a` exactly when `a` is a power of two. */
  lemma AlignDownIffPowerOfTwo(a: nat)
    requires a > 0
    ensures (forall x: nat :: AlignDown(x, a) == x - x % a) <==> PowerOfTwo(a)
  {
    if PowerOfTwo(a) {
      forall x: nat
        ensures AlignDown(x, a) == x - x % a
      {
        FloorForPowers(x, a);
      }
    } else {
      OnlyPowersSurvive(a);
      DivModUnique(a, a, 1, 0);
      assert AlignDown(a, a) != a - a % a;
    }
  }
}

/**
  The bit operations `pow2gt` uses, on the values of 32-bit words, and the
  power of two they compute.
 */
module WordBits {

  function Or(a: nat, b: nat): (r: nat)
    ensures r >= a && r >= b
  {
    if a == 0 && b == 0 then 0
    else 2 * Or(a / 2, b / 2) + (if a % 2 == 1 || b % 2 == 1 then 1 else 0)
  }

  function And(a: nat, b: nat): (r: nat)
    ensures r <= a && r <= b
  {
    if a == 0 || b == 0 then 0
    else 2 * And(a / 2, b / 2) + (if a % 2 == 1 && b % 2 == 1 then 1 else 0)
  }

  /** The right shift by `k` bits. */
  function Shr(x: nat, k: nat): nat {
    if k == 0 then x else Shr(x / 2, k - 1)
  }

  function Pow2(k: nat): (r: nat)
    ensures r >= 1
  {
    if k == 0 then 1 else 2 * Pow2(k - 1)
  }

  /** `x | x >> 1 | ... | x >> (k - 1)` */
  function Spread(x: nat, k: nat): nat {
    if k == 0 then 0 else Or(x, Spread(x / 2, k - 1))
  }

  lemma {:induction false} OrHalves(a: nat, b: nat)
    ensures Or(a, b) / 2 == Or(a / 2, b / 2)
    ensures Or(a, b) % 2 == (if a % 2 == 1 || b % 2 == 1 then 1 else 0)
  {}

  lemma {:induction false} SameHalves(a: nat, b: nat)
    requires a / 2 == b / 2 && a % 2 == b % 2
    ensures a == b
  {}

  lemma {:induction false} OrAssociative(a: nat, b: nat, c: nat)
    ensures Or(Or(a, b), c) == Or(a, Or(b, c))
    decreases a + b + c
  {
    OrHalves(a, b);
    OrHalves(b, c);
    OrHalves(Or(a, b), c);
    OrHalves(a, Or(b, c));
    if a + b + c > 0 {
      OrAssociative(a / 2, b / 2, c / 2);
    }
  }

  lemma {:induction false} OrZero(a: nat)
    ensures Or(0, a) == a
  {
    if a > 0 {
      OrZero(a / 2);
    }
  }

  lemma {:induction false} SpreadHalves(x: nat, k: nat)
    ensures Spread(x, k) / 2 == Spread(x / 2, k)
  {
    if k > 0 {
      OrHalves(x, Spread(x / 2, k - 1));
      SpreadHalves(x / 2, k - 1);
    }
  }

  lemma {:induction false} SpreadShifts(x: nat, k: nat, m: nat)
    ensures Shr(Spread(x, k), m) == Spread(Shr(x, m), k)
    decreases m
  {
    if m > 0 {
      SpreadHalves(x, k);
      SpreadShifts(x / 2, k, m - 1);
    }
  }

  lemma {:induction false} SpreadJoins(x: nat, a: nat, b: nat)
    ensures Or(Spread(x, a), Spread(Shr(x, a), b)) == Spread(x, a + b)
    decreases a
  {
    if a == 0 {
      OrZero(Spread(x, b));
    } else {
      var first, second := Spread(x / 2, a - 1), Spread(Shr(x / 2, a - 1), b);
      SpreadJoins(x / 2, a - 1, b);
      OrAssociative(x, first, second);
      assert Shr(x, a) == Shr(x / 2, a - 1);
      assert Spread(x, a) == Or(x, first);
      assert Spread(x, a + b) == Or(x, Spread(x / 2, a - 1 + b));
    }
  }

  /** One step of the smear doubles the number of shifted copies. */
  lemma {:induction false} SpreadDoubles(x: nat, k: nat)
    ensures Or(Spread(x, k), Shr(Spread(x, k), k)) == Spread(x, k + k)
  {
    SpreadShifts(x, k, k);
    SpreadJoins(x, k, k);
  }

  /** All bits up to the top bit of `x`. */
  function Filled(x: nat): (r: nat)
    ensures r >= x
  {
    if x == 0 then 0 else 2 * Filled(x / 2) + 1
  }

  lemma {:induction false} FilledHalves(x: nat)
    ensures Filled(x) / 2 == Filled(x / 2) && Filled(x) % 2 == if x > 0 then 1 else 0
  {}

  lemma {:induction false} OrFilled(x: nat)
    ensures Or(x, Filled(x / 2)) == Filled(x)
  {
    if x > 0 {
      var h := Filled(x / 2);
      OrFilled(x / 2);
      OrHalves(x, h);
      FilledHalves(x / 2);
      FilledHalves(x);
      SameHalves(Or(x, h), Filled(x));
    }
  }

  lemma {:induction false} SpreadFills(x: nat, k: nat)
    requires x < Pow2(k)
    ensures Spread(x, k) == Filled(x)
  {
    if k > 0 {
      SpreadFills(x / 2, k - 1);
      OrFilled(x);
    }
  }

  /** `Filled(x) + 1` is the least power of two above `x`. */
  lemma {:induction false} FilledIsPower(x: nat) returns (k: nat)
    ensures Filled(x) + 1 == Pow2(k)
    ensures x > 0 ==> k > 0 && Pow2(k - 1) <= x
  {
    if x == 0 {
      k := 0;
    } else {
      var h := FilledIsPower(x / 2);
      k := h + 1;
      assert x == 1 ==> h == 0;
    }
  }

  lemma {:induction false} Pow2Monotonic(a: nat, b: nat)
    requires a <= b
    ensures Pow2(a) <= Pow2(b)
    decreases b - a
  {
    if a < b {
      Pow2Monotonic(a + 1, b);
    }
  }

  lemma {:induction false} Pow2Of32()
    ensures Pow2(30) == 0x4000_0000 && Pow2(31) == 0x8000_0000 && Pow2(32) == 0x1_0000_0000
  {
    assert Pow2(10) == 1024;
    assert Pow2(20) == 1024 * 1024;
    assert Pow2(30) == 1024 * 1024 * 1024;
  }

  /** The least power of two that is at least `x` is an `int` exactly when `x` is at most 2^30. */
  lemma {:induction false} PowerFits(x: nat, k: nat)
    requires x <= Pow2(k) && (k > 0 ==> Pow2(k - 1) < x)
    ensures Pow2(k) < 0x8000_0000 <==> x <= 0x4000_0000
  {
    Pow2Of32();
    if k > 30 {
      Pow2Monotonic(30, k - 1);
      Pow2Monotonic(31, k);
    } else {
      Pow2Monotonic(k, 30);
    }
  }

  /** `x | x >> k` of an `int`: the word of a negative number is the complement of that of `-1 - x`. */
  function Smear(x: int, k: nat): int {
    if x >= 0 then Or(x, Shr(x, k)) else -1 - (And(-1 - x, Shr(-1 - x, k)) as int)
  }

  lemma {:induction false} ShrBound(x: nat, k: nat, m: nat)
    requires x < Pow2(m + k)
    ensures Shr(x, k) < Pow2(m)
  {
    if k > 0 {
      ShrBound(x / 2, k - 1, m);
    }
  }

  /** A step on a negative number shifts `k` bits of its complement out. */
  lemma {:induction false} NegativeStep(x: int, k: nat, m: nat)
    requires 0 - Pow2(m + k) <= x < 0
    ensures 0 - Pow2(m) <= Smear(x, k) < 0
  {
    ShrBound(-1 - x, k, m);
  }

  /** Steps that shift all bits of the complement out leave -1. */
  lemma {:induction false} NegativeSteps(x: int, a: nat, b: nat, c: nat, d: nat, e: nat)
    requires 0 - Pow2(a + b + c + d + e) <= x < 0
    ensures Smear(Smear(Smear(Smear(Smear(x, a), b), c), d), e) == -1
  {
    assert Pow2(0) == 1;
    hide Smear, Pow2;
    NegativeStep(x, a, e + d + c + b);
    NegativeStep(Smear(x, a), b, e + d + c);
    NegativeStep(Smear(Smear(x, a), b), c, e + d);
    NegativeStep(Smear(Smear(Smear(x, a), b), c), d, e);
    NegativeStep(Smear(Smear(Smear(Smear(x, a), b), c), d), e, 0);
  }

  /** The smear of any other number fills all its bits. */
  lemma {:induction false} PositiveSmears(x: nat)
    requires x < 0x8000_0000
    ensures Smear(Smear(Smear(Smear(Smear(x, 1), 2), 4), 8), 16) == Filled(x)
  {
    assert x == Spread(x, 1) by { OrAssociative(x, 0, 0); OrZero(x); OrCommutes(x, 0); }
    SpreadDoubles(x, 1);
    SpreadDoubles(x, 2);
    SpreadDoubles(x, 4);
    SpreadDoubles(x, 8);
    SpreadDoubles(x, 16);
    Pow2Of32();
    SpreadFills(x, 32);
  }

  /** `pow2gt`: the least power of two that is at least `x0`, and an `int` while `x0` is at most 2^30; 0 below 1. */
  method Pow2gt(x0: int) returns (r: int, ghost k: nat)
    requires -0x8000_0000 < x0 <= 0x4000_0000
    ensures x0 <= 0 ==> r == 0
    ensures x0 > 0 ==> r == Pow2(k) && x0 <= r <= 0x4000_0000 && forall j: nat :: x0 <= Pow2(j) ==> r <= Pow2(j)
  {
    var x := x0 - 1;
    x := Smear(x, 1);
    x := Smear(x, 2);
    x := Smear(x, 4);
    x := Smear(x, 8);
    x := Smear(x, 16);
    r := x + 1;
    if x0 <= 0 {
      Pow2Of32();
      NegativeSteps(x0 - 1, 1, 2, 4, 8, 16);
      k := 0;
    } else {
      PositiveSmears(x0 - 1);
      hide Smear;
      k := FilledIsPower(x0 - 1);
      Least(x0 - 1, k);
      Pow2Of32();
      assert x0 <= Pow2(30);
    }
  }

  lemma {:induction false} OrCommutes(a: nat, b: nat)
    ensures Or(a, b) == Or(b, a)
    decreases a + b
  {
    if a + b > 0 {
      OrCommutes(a / 2, b / 2);
    }
  }

  lemma {:induction false} Least(x: nat, k: nat)
    requires x > 0 ==> k > 0 && Pow2(k - 1) <= x
    requires x == 0 ==> Pow2(k) == 1
    ensures forall j: nat :: x + 1 <= Pow2(j) ==> Pow2(k) <= Pow2(j)
  {
    forall j: nat | x + 1 <= Pow2(j) ensures Pow2(k) <= Pow2(j) {
      if x > 0 {
        if j <= k - 1 {
          Pow2Monotonic(j, k - 1);
        }
        Pow2Monotonic(k, if j >= k then j else k);
      }
    }
  }
}

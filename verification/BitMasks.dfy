/**
  Masks and shifts that put bit fields together, and the arithmetic they stand for.
 */
module BitMasks {
  import opened WordBits

  /** The left shift by `k` bits, in a word wide enough. */
  function Shl(a: nat, k: nat): nat {
    if k == 0 then a else 2 * Shl(a, k - 1)
  }

  lemma {:induction false} AndHalves(a: nat, b: nat)
    ensures And(a, b) / 2 == And(a / 2, b / 2) && And(a, b) % 2 == if a % 2 == 1 && b % 2 == 1 then 1 else 0
  {}

  /** `high` above `k` bits of `low`. */
  function Field(low: nat, high: nat, k: nat): nat {
    if k == 0 then high else 2 * Field(low / 2, high, k - 1) + low % 2
  }

  lemma {:induction false} FieldSum(low: nat, high: nat, k: nat)
    requires low < Pow2(k)
    ensures Field(low, high, k) == low + Shl(high, k)
  {
    if k > 0 {
      FieldSum(low / 2, high, k - 1);
    }
  }

  lemma {:induction false} ShlIsTimes(a: nat, k: nat)
    ensures Shl(a, k) == a * Pow2(k)
  {
    if k > 0 {
      ShlIsTimes(a, k - 1);
    }
  }

  lemma {:induction false} FieldHalves(low: nat, high: nat, k: nat)
    requires k > 0
    ensures Field(low, high, k) / 2 == Field(low / 2, high, k - 1) && Field(low, high, k) % 2 == low % 2
  {}

  /** The operations work on the two fields apart. */
  lemma {:induction false} AndFields(a: nat, x: nat, b: nat, y: nat, k: nat)
    ensures And(Field(a, x, k), Field(b, y, k)) == Field(And(a, b), And(x, y), k)
  {
    if k > 0 {
      var p, q, r := Field(a, x, k), Field(b, y, k), Field(And(a, b), And(x, y), k);
      AndFields(a / 2, x, b / 2, y, k - 1);
      FieldHalves(a, x, k);
      FieldHalves(b, y, k);
      FieldHalves(And(a, b), And(x, y), k);
      AndHalves(a, b);
      AndHalves(p, q);
      SameHalves(And(p, q), r);
    }
  }

  lemma {:induction false} OrFields(a: nat, x: nat, b: nat, y: nat, k: nat)
    ensures Or(Field(a, x, k), Field(b, y, k)) == Field(Or(a, b), Or(x, y), k)
  {
    if k > 0 {
      var p, q, r := Field(a, x, k), Field(b, y, k), Field(Or(a, b), Or(x, y), k);
      OrFields(a / 2, x, b / 2, y, k - 1);
      FieldHalves(a, x, k);
      FieldHalves(b, y, k);
      FieldHalves(Or(a, b), Or(x, y), k);
      OrHalves(a, b);
      OrHalves(p, q);
      SameHalves(Or(p, q), r);
    }
  }

  lemma {:induction false} AndOnes(a: nat, k: nat)
    requires a < Pow2(k)
    ensures And(a, Pow2(k) - 1) == a
  {
    if k > 0 {
      AndOnes(a / 2, k - 1);
      AndHalves(a, Pow2(k) - 1);
    }
  }

  lemma {:induction false} OrNothing(a: nat)
    ensures Or(a, 0) == a && Or(0, a) == a
  {
    OrZero(a);
    OrCommutes(a, 0);
  }

  lemma {:induction false} FieldsAlone(high: nat, low: nat, k: nat)
    requires low < Pow2(k)
    ensures Field(0, high, k) == Shl(high, k) && Field(low, 0, k) == low
  {
    FieldSum(0, high, k);
    FieldSum(low, 0, k);
    ShlIsTimes(0, k);
  }

  /** A field of zeros below takes what is put there: `a << k | b` is a sum. */
  lemma {:induction false} OrIsSum(a: nat, b: nat, k: nat)
    requires b < Pow2(k)
    ensures Or(Shl(a, k), b) == Shl(a, k) + b
  {
    FieldsAlone(a, b, k);
    FieldSum(b, a, k);
    OrFields(0, a, b, 0, k);
    OrNothing(a);
    OrNothing(b);
  }

  /** A mask of `k` ones keeps the low field. */
  lemma {:induction false} MaskKeepsLow(low: nat, high: nat, k: nat)
    requires low < Pow2(k)
    ensures And(low + Shl(high, k), Pow2(k) - 1) == low
  {
    FieldSum(low, high, k);
    FieldsAlone(0, Pow2(k) - 1, k);
    FieldsAlone(0, low, k);
    AndOnes(low, k);
    AndFields(low, high, Pow2(k) - 1, 0, k);
  }

  lemma {:induction false} SmallPowers()
    ensures Pow2(4) == 16 && Pow2(5) == 32 && Pow2(6) == 64 && Pow2(10) == 1024 && Pow2(12) == 4096
  {}

  /** `u & 0x0F` and `u & 0x1F` */
  lemma {:induction false} LowFour(u: nat)
    ensures And(u, 0x0F) == u % 16
  {
    SmallPowers();
    ShlIsTimes(u / 16, 4);
    MaskKeepsLow(u % 16, u / 16, 4);
  }

  lemma {:induction false} LowFive(u: nat)
    ensures And(u, 0x1F) == u % 32
  {
    SmallPowers();
    ShlIsTimes(u / 32, 5);
    MaskKeepsLow(u % 32, u / 32, 5);
  }

  /** `u & 0x3F` */
  lemma {:induction false} LowSix(u: nat)
    ensures And(u, 0x3F) == u % 64
  {
    SmallPowers();
    ShlIsTimes(u / 64, 6);
    MaskKeepsLow(u % 64, u / 64, 6);
  }

  /** `u & 0x3FF` */
  lemma {:induction false} LowTen(u: nat)
    ensures And(u, 0x3FF) == u % 1024
  {
    SmallPowers();
    ShlIsTimes(u / 1024, 10);
    MaskKeepsLow(u % 1024, u / 1024, 10);
  }

  lemma {:induction false} SetBit(low: nat, high: nat)
    requires low < 64
    ensures Or(Field(low, high, 6), 0x80) == Field(low, Or(high, 2), 6)
  {
    SmallPowers();
    ShlIsTimes(2, 6);
    FieldSum(0, 2, 6);
    OrFields(low, high, 0, 2, 6);
    OrNothing(low);
  }

  lemma {:induction false} KeepBit(low: nat, high: nat)
    requires low < 64 && And(high, 2) == 2
    ensures And(Field(low, high, 6), 0xBF) == 0x80 + low
  {
    SmallPowers();
    ShlIsTimes(2, 6);
    FieldSum(63, 2, 6);
    FieldSum(low, 2, 6);
    AndFields(low, high, 63, 2, 6);
    AndOnes(low, 6);
  }

  /** `a << 10 | b` of two fields of ten bits. */
  lemma {:induction false} TwoTens(a: nat, b: nat)
    requires b < 1024
    ensures Or(Shl(a, 10), b) == a * 1024 + b
  {
    SmallPowers();
    ShlIsTimes(a, 10);
    OrIsSum(a, b, 10);
  }

  /** `(a & 0x3FF) << 10 | (b & 0x3FF)` */
  lemma {:induction false} TenBitFields(a: nat, b: nat)
    ensures Or(Shl(And(a, 0x3FF), 10), And(b, 0x3FF)) == a % 1024 * 1024 + b % 1024
  {
    var x, y := And(a, 0x3FF), And(b, 0x3FF);
    LowTen(a);
    LowTen(b);
    TwoTens(x, y);
  }

  /** `a << 6 | b` of two fields of six bits. */
  lemma {:induction false} TwoSixes(a: nat, b: nat)
    requires b < 64
    ensures Or(Shl(a, 6), b) == a * 64 + b
  {
    SmallPowers();
    ShlIsTimes(a, 6);
    OrIsSum(a, b, 6);
  }

  /** `(a << 12 | b << 6) | c` of three fields of six bits. */
  lemma {:induction false} ThreeSixes(a: nat, b: nat, c: nat)
    requires b < 64 && c < 64
    ensures Or(Or(Shl(a, 12), Shl(b, 6)), c) == a * 4096 + b * 64 + c
  {
    SmallPowers();
    ShlIsTimes(a, 12);
    ShlIsTimes(b, 6);
    OrIsSum(a, Shl(b, 6), 12);
    ShlIsTimes(a * 64 + b, 6);
    OrIsSum(a * 64 + b, c, 6);
  }

  /** `u >> 6` */
  lemma {:induction false} ShiftSix(u: nat)
    ensures Shr(u, 6) == u / 64
  {
    var a, b := u / 2, u / 4;
    var c, d := u / 8, u / 16;
    assert Shr(u, 6) == Shr(a, 5) && a / 2 == b;
    assert Shr(a, 5) == Shr(b, 4) && b / 2 == c;
    assert Shr(b, 4) == Shr(c, 3) && c / 2 == d;
    assert Shr(c, 3) == Shr(d, 2) == Shr(d / 2, 1) == d / 2 / 2;
  }

  /** A lead byte: the mark's ones stand above the bits of `u`. */
  lemma {:induction false} LeadMarks(u: nat)
    ensures u < 32 ==> Or(u, 0xC0) == 0xC0 + u
    ensures u < 16 ==> Or(u, 0xE0) == 0xE0 + u
    ensures u < 8 ==> Or(u, 0xF0) == 0xF0 + u
  {
    SmallPowers();
    ShlIsTimes(3, 6);
    ShlIsTimes(7, 5);
    ShlIsTimes(15, 4);
    if u < 32 {
      OrIsSum(3, u, 6);
      OrCommutes(192, u);
    }
    if u < 16 {
      OrIsSum(7, u, 5);
      OrCommutes(224, u);
    }
    if u < 8 {
      OrIsSum(15, u, 4);
      OrCommutes(240, u);
    }
  }

  /** `(u | 0x80) & 0xBF`: the continuation byte of six bits. */
  lemma {:induction false} Continuation(u: nat)
    ensures And(Or(u, 0x80), 0xBF) == 0x80 + u % 64
  {
    SmallPowers();
    ShlIsTimes(u / 64, 6);
    FieldSum(u % 64, u / 64, 6);
    SetBit(u % 64, u / 64);
    BitOne(u / 64);
    KeepBit(u % 64, Or(u / 64, 2));
  }

  lemma {:induction false} BitOne(h: nat)
    ensures And(Or(h, 2), 2) == 2
  {
    var g := Or(h, 2);
    OrHalves(h, 2);
    OrHalves(h / 2, 1);
    AndHalves(g, 2);
    AndHalves(g / 2, 1);
    assert And(g / 2 / 2, 0) == 0;
  }
}

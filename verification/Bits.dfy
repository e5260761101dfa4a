/** Bit operations on natural numbers, digit by digit, and the arithmetic they amount to. */
module Bits {

  function Power(k: nat): (r: nat)
    ensures r >= 1
  {
    if k == 0 then 1 else 2 * Power(k - 1)
  }

  /** x | y */
  function Or(x: nat, y: nat): (r: nat)
    ensures r >= x && r >= y
  {
    if x == 0 then y else if y == 0 then x
    else 2 * Or(x / 2, y / 2) + (if x % 2 == 1 || y % 2 == 1 then 1 else 0)
  }

  /** x & y */
  function And(x: nat, y: nat): (r: nat)
    ensures r <= x && r <= y
  {
    if x == 0 || y == 0 then 0
    else 2 * And(x / 2, y / 2) + (if x % 2 == 1 && y % 2 == 1 then 1 else 0)
  }

  /** x >> k */
  function Shift(x: nat, k: nat): (r: nat)
    ensures r <= x
    decreases k
  {
    if k == 0 then x else Shift(x / 2, k - 1)
  }

  lemma OrStep(x: nat, y: nat)
    ensures Or(x, y) == 2 * Or(x / 2, y / 2) + (if x % 2 == 1 || y % 2 == 1 then 1 else 0)
  {
  }

  lemma AndStep(x: nat, y: nat)
    ensures And(x, y) == 2 * And(x / 2, y / 2) + (if x % 2 == 1 && y % 2 == 1 then 1 else 0)
  {
  }

  lemma {:induction false} OrCommutes(x: nat, y: nat)
    ensures Or(x, y) == Or(y, x)
  {
    if x > 0 && y > 0 { OrCommutes(x / 2, y / 2); }
  }

  /** x << k */
  function Left(x: nat, k: nat): nat
    decreases k
  {
    if k == 0 then x else 2 * Left(x, k - 1)
  }

  /** A left shift is a multiplication. */
  lemma {:induction false} LeftMultiplies(x: nat, k: nat)
    ensures Left(x, k) == Power(k) * x
    decreases k
  {
    if k > 0 {
      LeftMultiplies(x, k - 1);
      Twice(Power(k - 1), x);
    }
  }

  lemma Twice(p: nat, x: nat)
    ensures 2 * (p * x) == (2 * p) * x
  {
  }

  lemma {:induction false} OrLeft(x: nat, h: nat, k: nat)
    requires x < Power(k)
    ensures Or(x, Left(h, k)) == x + Left(h, k)
    decreases k
  {
    hide Or;
    if k > 0 {
      OrLeft(x / 2, h, k - 1);
      OrStep(x, Left(h, k));
    } else {
      OrZero(Left(h, k));
    }
  }

  lemma OrZero(y: nat)
    ensures Or(0, y) == y
  {
  }

  /** Bits that do not overlap are added. */
  lemma OrApart(x: nat, h: nat, k: nat)
    requires x < Power(k)
    ensures Or(x, Power(k) * h) == x + Power(k) * h
  {
    hide Or, Power, Left;
    LeftMultiplies(h, k);
    OrLeft(x, h, k);
  }

  /** The low k bits. */
  function Low(x: nat, k: nat): nat
    decreases k
  {
    if k == 0 then 0 else 2 * Low(x / 2, k - 1) + x % 2
  }

  /** They are the remainder. */
  lemma {:induction false} LowIs(x: nat, k: nat)
    ensures Low(x, k) == x % Power(k)
    decreases k
  {
    if k > 0 {
      LowIs(x / 2, k - 1);
      HalfRemainder(x, Power(k - 1));
    }
  }

  /** Masking them. */
  lemma {:induction false} AndMask(x: nat, k: nat)
    ensures And(x, Power(k) - 1) == Low(x, k)
    decreases k
  {
    if k > 0 {
      var p := Power(k - 1);
      AndMask(x / 2, k - 1);
      AndStep(x, 2 * p - 1);
      hide And;
      assert (2 * p - 1) / 2 == p - 1;
    }
  }

  lemma HalfRemainder(x: nat, p: nat)
    requires p >= 1
    ensures x % (2 * p) == 2 * (x / 2 % p) + x % 2
  {
    var q, r := x / 2 / p, x / 2 % p;
    assert x / 2 == p * q + r;
    assert x == 2 * p * q + (2 * r + x % 2);
    Remainder(x, 2 * p, q, 2 * r + x % 2);
  }

  lemma Remainder(x: nat, d: nat, q: nat, r: nat)
    requires r < d && x == d * q + r
    ensures x % d == r && x / d == q
  {
    Multiples(d, x / d - q);
    assert d * (x / d - q) == r - x % d;
  }

  lemma Multiples(d: int, k: int)
    requires d >= 0
    ensures k >= 1 ==> d * k >= d
    ensures k <= -1 ==> d * k <= -d
  {
  }

  /** A right shift is a division. */
  lemma {:induction false} ShiftDivides(x: nat, k: nat)
    ensures Shift(x, k) == x / Power(k)
    decreases k
  {
    if k > 0 {
      ShiftDivides(x / 2, k - 1);
      HalfQuotient(x, Power(k - 1));
    }
  }

  lemma HalfQuotient(x: nat, p: nat)
    requires p >= 1
    ensures x / 2 / p == x / (2 * p)
  {
    var q, r := x / 2 / p, x / 2 % p;
    assert x / 2 == p * q + r;
    assert x == 2 * p * q + (2 * r + x % 2);
    Remainder(x, 2 * p, q, 2 * r + x % 2);
  }

  lemma Powers()
    ensures Power(4) == 16 && Power(5) == 32 && Power(6) == 64 && Power(10) == 1024
  {
    assert Power(2) == 4 && Power(4) == 4 * Power(2) && Power(6) == 4 * Power(4);
    assert Power(8) == 4 * Power(6) && Power(10) == 4 * Power(8);
  }

  lemma LowestBit(x: nat, a: nat, b: nat)
    ensures And(Or(x, 2 * a), 2 * b + 1) == 2 * And(Or(x / 2, a), b) + x % 2
  {
    hide Or, And;
    var z := Or(x, 2 * a);
    OrStep(x, 2 * a);
    AndStep(z, 2 * b + 1);
  }

  /** Setting the bit above the next one, which is cleared, and keeping the k below. */
  lemma {:induction false} SetAndKeep(x: nat, k: nat)
    ensures And(Or(x, 2 * Power(k)), 3 * Power(k) - 1) == 2 * Power(k) + Low(x, k)
    decreases k
  {
    hide Or, And;
    if k == 0 {
      SecondBit(x);
    } else {
      SetAndKeep(x / 2, k - 1);
      LowestBit(x, 2 * Power(k - 1), 3 * Power(k - 1) - 1);
    }
  }

  /** Setting bit 7 and keeping all low bits but bit 6. */
  lemma TrailingBits(x: nat)
    ensures And(Or(x, 0x80), 0xBF) == 0x80 + x % 64
  {
    Powers();
    hide Power, Or, And, Low;
    SetAndKeep(x, 6);
    LowIs(x, 6);
  }

  lemma TenBits(x: nat)
    ensures And(x, 0x3FF) == x % 0x400
  {
    Powers();
    hide Power, And, Low;
    AndMask(x, 10);
    LowIs(x, 10);
  }

  lemma SecondBit(x: nat)
    ensures And(Or(x, 2), 2) == 2
  {
    hide Or, And;
    var z := Or(x, 2);
    OrStep(x, 2);
    OrStep(x / 2, 1);
    AndStep(z, 2);
    AndStep(z / 2, 1);
    AndNone(z / 4);
  }

  lemma AndNone(x: nat)
    ensures And(x, 0) == 0
  {
  }
}

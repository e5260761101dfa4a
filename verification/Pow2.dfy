/** pow2gt: the bit operations that round a size up to a power of two. */
module Pow2 {
  import opened Bits

  /** The smallest power of two that is at least n. */
  function PowerAbove(n: nat): (r: nat)
    ensures n <= r
    ensures n >= 1 ==> r < 2 * n
  {
    if n <= 1 then 1 else 2 * PowerAbove((n + 1) / 2)
  }

  /** It is the only power of two from n to 2n - 1. */
  lemma {:induction false} PowerAboveIs(n: nat, k: nat)
    requires 1 <= n <= Power(k) < 2 * n
    ensures Power(k) == PowerAbove(n)
    decreases k
  {
    if k > 0 { PowerAboveIs((n + 1) / 2, k - 1); }
  }

  /** x or-ed with itself shifted right by k. */
  function Fold(x: nat, k: nat): nat {
    Or(x, Shift(x, k))
  }

  /** pow2gt */
  function Pow2gt(x: nat): (r: nat)
    requires x > 0
    ensures r >= x
  {
    Fold(Fold(Fold(Fold(Fold(x - 1, 1), 2), 4), 8), 16) + 1
  }

  /** x has l bits, and the highest m of them are ones. */
  predicate TopOnes(x: nat, l: nat, m: nat) {
    m <= l && Power(l) - Power(l - m) <= x < Power(l)
  }

  lemma OrHalf(x: nat, y: nat)
    ensures Or(x, y) / 2 == Or(x / 2, y / 2)
  {
  }

  /** All low bits are filled in. */
  lemma {:induction false} OrFills(x: nat, l: nat, j: nat)
    requires j <= l && Power(l) - Power(j) <= x < Power(l)
    ensures Or(x, Power(j) - 1) == Power(l) - 1
    decreases j
  {
    if j > 0 {
      hide Or;
      var a, b := Power(l - 1), Power(j - 1);
      HalfBounds(x, a, b);
      OrFills(x / 2, l - 1, j - 1);
      OrOdd(x, b - 1);
    } else {
      OrNone(x);
    }
  }

  lemma OrNone(x: nat)
    ensures Or(x, 0) == x
  {
  }

  lemma HalfBounds(x: nat, a: nat, b: nat)
    requires 2 * a - 2 * b <= x < 2 * a
    ensures a - b <= x / 2 < a
  {
  }

  /** Or with an odd number. */
  lemma OrOdd(x: nat, h: nat)
    ensures Or(x, 2 * h + 1) == 2 * Or(x / 2, h) + 1
  {
  }

  lemma {:induction false} ShiftHalf(x: nat, k: nat)
    ensures Shift(x, k) / 2 == Shift(x / 2, k)
    decreases k
  {
    if k > 0 { ShiftHalf(x / 2, k - 1); }
  }

  /** Ones that outnumber the bits that are left are all that is left. */
  lemma {:induction false} ShiftOnes(x: nat, k: nat, j: nat)
    requires Power(k + j) - Power(k) <= x < Power(k + j)
    ensures Shift(x, k) == Power(j) - 1
    decreases k
  {
    if k > 0 { ShiftOnes(x / 2, k - 1, j); }
  }

  lemma {:induction false} PowerGrows(a: nat, b: nat)
    requires a <= b
    ensures Power(a) <= Power(b)
    decreases b - a
  {
    if a < b { PowerGrows(a + 1, b); }
  }

  /** Folding by m doubles the number of ones at the top. */
  lemma {:induction false} FoldDoubles(x: nat, l: nat, m: nat)
    requires m >= 1 && TopOnes(x, l, m)
    ensures TopOnes(Fold(x, m), l, if 2 * m <= l then 2 * m else l)
    decreases l
  {
    if l > 2 * m {
      FoldDoubles(x / 2, l - 1, m);
      ShiftHalf(x, m);
      OrHalf(x, Shift(x, m));
      assert Fold(x, m) / 2 == Fold(x / 2, m);
    } else {
      FoldFills(x, l, m);
    }
  }

  lemma FoldFills(x: nat, l: nat, m: nat)
    requires m >= 1 && TopOnes(x, l, m) && l <= 2 * m
    ensures Fold(x, m) == Power(l) - 1
  {
    hide Or, Shift;
    PowerGrows(l - m, m);
    ShiftOnes(x, m, l - m);
    OrFills(x, l, l - m);
  }

  lemma {:induction false} BitCount(x: nat) returns (l: nat)
    requires x >= 1
    ensures l >= 1 && TopOnes(x, l, 1)
  {
    if x == 1 {
      l := 1;
    } else {
      l := BitCount(x / 2);
      l := l + 1;
    }
  }

  function Min(a: nat, b: nat): nat {
    if a <= b then a else b
  }

  /** Once all bits are ones, folding changes nothing. */
  lemma {:induction false} OrFull(l: nat, y: nat)
    requires y < Power(l)
    ensures Or(Power(l) - 1, y) == Power(l) - 1
    decreases l
  {
    if l > 0 && y > 0 {
      OrFull(l - 1, y / 2);
      assert (Power(l) - 1) / 2 == Power(l - 1) - 1;
    }
  }

  lemma FoldStep(x: nat, l: nat, m: nat)
    requires m >= 1 && TopOnes(x, l, Min(m, l))
    ensures TopOnes(Fold(x, m), l, Min(2 * m, l))
  {
    if m <= l {
      FoldDoubles(x, l, m);
    } else {
      OrFull(l, Shift(x, m));
    }
  }

  /** For every size up to 2^31 the bit operations give the smallest power of two that is at least the size. */
  lemma Pow2gtIsPowerAbove(x: nat)
    requires 1 <= x <= 0x8000_0000
    ensures Pow2gt(x) == PowerAbove(x)
  {
    if x == 1 { return; }
    var l := BitCount(x - 1);
    LengthBound(x - 1, l);
    hide Fold, Power;
    FoldStep(x - 1, l, 1);
    var a := Fold(x - 1, 1);
    FoldStep(a, l, 2);
    var b := Fold(a, 2);
    FoldStep(b, l, 4);
    var c := Fold(b, 4);
    FoldStep(c, l, 8);
    var d := Fold(c, 8);
    FoldStep(d, l, 16);
    AllOnes(Fold(d, 16), l, x - 1);
    PowerAboveIs(x, l);
  }

  lemma {:induction false} IsPower(n: nat) returns (k: nat)
    ensures PowerAbove(n) == Power(k)
  {
    if n <= 1 {
      k := 0;
    } else {
      k := IsPower((n + 1) / 2);
      k := k + 1;
    }
  }

  lemma PowerLimits(k: nat)
    ensures k <= 30 ==> Power(k) <= 0x4000_0000
    ensures k >= 31 ==> Power(k) >= 0x8000_0000
    ensures k == 31 ==> Power(k) == 0x8000_0000
    ensures k >= 32 ==> Power(k) >= 0x1_0000_0000
  {
    Power31();
    assert Power(31) == 2 * Power(30) && Power(32) == 2 * Power(31);
    hide Power;
    if k <= 30 { PowerGrows(k, 30); }
    if k >= 31 { PowerGrows(31, k); }
    if k >= 32 { PowerGrows(32, k); }
  }

  /** For an argument of type int the result fits an int exactly up to 2^30; above, only the last addition
      leaves the range. */
  lemma Pow2gtFits(x: nat)
    requires 1 <= x <= 0x7FFF_FFFF
    ensures Pow2gt(x) == PowerAbove(x) && Pow2gt(x) - 1 <= 0x7FFF_FFFF
    ensures Pow2gt(x) <= 0x7FFF_FFFF <==> x <= 0x4000_0000
  {
    hide Power, PowerAbove, Pow2gt;
    Pow2gtIsPowerAbove(x);
    var k := IsPower(x);
    PowerLimits(k);
  }

  lemma AllOnes(y: nat, l: nat, x: nat)
    requires TopOnes(y, l, l) && TopOnes(x, l, 1)
    ensures y + 1 == Power(l) && x + 1 <= Power(l) < 2 * (x + 1)
  {
  }

  lemma LengthBound(x: nat, l: nat)
    requires l >= 1 && TopOnes(x, l, 1) && x < 0x8000_0000
    ensures l <= 31
  {
    Power31();
    if l > 31 { PowerGrows(31, l - 1); }
  }

  lemma Power31()
    ensures Power(31) == 0x8000_0000
  {
    assert Power(5) == 32;
    assert Power(10) == 32 * Power(5);
    assert Power(15) == 32 * Power(10);
    assert Power(20) == 32 * Power(15);
    assert Power(25) == 32 * Power(20);
    assert Power(30) == 32 * Power(25);
  }
}

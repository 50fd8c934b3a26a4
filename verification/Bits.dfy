/** The bit tricks of the radiotap parser: masking for alignment and setting one bit. */
module Bits {
  import opened Common

  /** `x & ~m`, bit by bit. */
  function AndNot(x: nat, m: nat): (r: nat)
    decreases x
  {
    if x == 0 then 0 else 2 * AndNot(x / 2, m / 2) + (if x % 2 == 1 && m % 2 == 0 then 1 else 0)
  }

  /** `x & m`, bit by bit. */
  function And(x: nat, m: nat): (r: nat)
    decreases x
  {
    if x == 0 then 0 else 2 * And(x / 2, m / 2) + (if x % 2 == 1 && m % 2 == 1 then 1 else 0)
  }

  /** `x | y`, bit by bit. */
  function Or(x: nat, y: nat): (r: nat)
    decreases x + y
  {
    if x == 0 && y == 0 then 0 else 2 * Or(x / 2, y / 2) + (if x % 2 == 1 || y % 2 == 1 then 1 else 0)
  }

  /** `align`: meant for powers of two. */
  function Align(val: nat, a: nat): (r: nat)
    requires a > 0
  {
    AndNot(val + a - 1, a - 1)
  }

  /** `n | (1 << i)`, bit by bit. */
  function OrBit(n: nat, i: nat): (r: nat) {
    if i == 0 then (if n % 2 == 1 then n else n + 1)
    else 2 * OrBit(n / 2, i - 1) + n % 2
  }

  /** `x >> k`. */
  function ShiftRight(x: nat, k: nat): (r: nat) {
    if k == 0 then x else ShiftRight(x / 2, k - 1)
  }

  lemma ShiftRightTwo(x: nat, k: nat)
    ensures ShiftRight(x, k + 2) == ShiftRight(x / 4, k)
  {
    assert ShiftRight(x, k + 2) == ShiftRight(x / 2, k + 1);
    assert x / 2 / 2 == x / 4;
  }

  lemma {:induction false} AndNotZero(x: nat)
    ensures AndNot(x, 0) == x
    decreases x
  {
    if x > 0 {
      AndNotZero(x / 2);
    }
  }

  lemma DoubledProduct(p: nat, s: nat)
    ensures 2 * p * s == 2 * (p * s)
  {
  }

  lemma AndNotOdd(x: nat, p: nat)
    requires p > 0
    ensures AndNot(x, 2 * p - 1) == 2 * AndNot(x / 2, p - 1)
  {
    assert (2 * p - 1) / 2 == p - 1 && (2 * p - 1) % 2 == 1;
  }

  lemma {:induction false} AndNotMask(x: nat, k: nat)
    ensures AndNot(x, Pow2(k) - 1) == Pow2(k) * ShiftRight(x, k)
    ensures AndNot(x, Pow2(k) - 1) <= x < AndNot(x, Pow2(k) - 1) + Pow2(k)
    decreases k
  {
    if k == 0 {
      AndNotZero(x);
    } else {
      AndNotMask(x / 2, k - 1);
      AndNotOdd(x, Pow2(k - 1));
      DoubledProduct(Pow2(k - 1), ShiftRight(x / 2, k - 1));
    }
  }

  lemma ProductStep(a: nat, i: nat, j: nat)
    requires i < j
    ensures a * i + a <= a * j
  {
    assert a * j == a * i + a * (j - i);
    assert a * (j - i) == a + a * (j - i - 1);
  }

  /** For a power of two, `align` is the least multiple that is not below the value. */
  lemma AlignIsLeastMultiple(val: nat, k: nat, j: nat)
    ensures var a := Pow2(k);
            && Align(val, a) == a * ShiftRight(val + a - 1, k)
            && val <= Align(val, a) < val + a
            && (val <= a * j ==> Align(val, a) <= a * j)
  {
    var a, s := Pow2(k), ShiftRight(val + Pow2(k) - 1, k);
    AndNotMask(val + a - 1, k);
    if j < s {
      ProductStep(a, j, s);
    } else if s < j {
      ProductStep(a, s, j);
    }
  }

  /** A bit above every set bit is added, not merged. */
  lemma {:induction false} OrBitAdds(n: nat, i: nat)
    requires n < Pow2(i)
    ensures OrBit(n, i) == n + Pow2(i)
    decreases i
  {
    if i > 0 {
      OrBitAdds(n / 2, i - 1);
    }
  }

  lemma {:induction false} Pow2Monotone(i: nat, j: nat)
    requires i <= j
    ensures Pow2(i) <= Pow2(j)
    decreases j
  {
    if i < j {
      Pow2Monotone(i, j - 1);
    }
  }

  /** Or with a multiple of a higher power of two is a sum. */
  lemma {:induction false} OrAdds(x: nat, y: nat, k: nat)
    requires y < Pow2(k)
    ensures Or(Pow2(k) * x, y) == Pow2(k) * x + y
    decreases k
  {
    if k == 0 {
      OrZero(x);
    } else {
      DoubledProduct(Pow2(k - 1), x);
      OrAdds(x, y / 2, k - 1);
      OrEven(Pow2(k - 1) * x, y);
    }
  }

  lemma OrEven(x: nat, y: nat)
    ensures Or(2 * x, y) == 2 * Or(x, y / 2) + y % 2
  {
  }

  lemma {:induction false} OrZero(x: nat)
    ensures Or(x, 0) == x
    decreases x
  {
    if x > 0 {
      OrZero(x / 2);
    }
  }

  lemma {:induction false} AndZero(x: nat)
    ensures And(x, 0) == 0
    decreases x
  {
    if x > 0 {
      AndZero(x / 2);
    }
  }

  lemma AndKeepsBit(x: nat, m: nat)
    ensures And(x, 2 * m + 1) == 2 * And(x / 2, m) + x % 2
  {
    assert (2 * m + 1) / 2 == m;
  }

  lemma AndDropsBit(x: nat, m: nat)
    ensures And(x, 2 * m) == 2 * And(x / 2, m)
  {
    assert (2 * m) / 2 == m;
  }

  lemma AndKeepsTwo(x: nat, m: nat)
    ensures And(x, 4 * m + 3) == 4 * And(x / 4, m) + x % 4
  {
    hide And;
    AndKeepsBit(x, 2 * m + 1);
    AndKeepsBit(x / 2, m);
    assert x / 2 / 2 == x / 4;
  }

  lemma AndDropsTwo(x: nat, m: nat)
    ensures And(x, 4 * m) == 4 * And(x / 4, m)
  {
    hide And;
    AndDropsBit(x, 2 * m);
    AndDropsBit(x / 2, m);
    assert x / 2 / 2 == x / 4;
  }

  /** `b & 0x8f` keeps the low four bits and the top one. */
  lemma KeepEnds(b: byte)
    ensures And(b, 0x8f) == b % 16 + 128 * (b / 128)
  {
    AndKeepsTwo(b, 35);
    AndKeepsTwo(b / 4, 8);
    AndDropsTwo(b / 16, 2);
    AndDropsBit(b / 64, 1);
    AndKeepsBit(b / 128, 0);
    AndZero(b / 256);
    assert b / 4 / 4 == b / 16 && b / 16 / 4 == b / 64 && b / 64 / 2 == b / 128;
  }

  /** `b & 0xc7` keeps the low three bits and the top two. */
  lemma KeepOuter(b: byte)
    ensures And(b, 0xc7) == b % 8 + 64 * (b / 64)
  {
    AndKeepsTwo(b, 49);
    AndKeepsBit(b / 4, 24);
    AndDropsTwo(b / 8, 6);
    AndDropsBit(b / 32, 3);
    AndKeepsTwo(b / 64, 0);
    AndZero(b / 256);
    assert b / 4 / 2 == b / 8 && b / 8 / 4 == b / 32 && b / 32 / 2 == b / 64;
  }
}

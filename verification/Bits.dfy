/** Powers of two, binary logarithms and bitwise OR of natural numbers. */
module Bits {

  function Max(a: nat, b: nat): nat { if a < b then b else a }
  function Min(a: nat, b: nat): nat { if a < b then a else b }

  function Log2(n: nat): nat
    requires n > 0
  {
    if n == 1 then 0 else 1 + Log2(n / 2)
  }

  function Pow2(n: nat): (r: nat)
    ensures r > 0
  {
    if n == 0 then 1 else 2 * Pow2(n - 1)
  }

  lemma {:induction false} Log2Bounds(n: nat)
    requires n > 0
    ensures Pow2(Log2(n)) <= n < Pow2(Log2(n) + 1)
    decreases n
  {
    if n == 1 {
      assert Log2(n) == 0 && Pow2(1) == 2 * Pow2(0);
    } else {
      Log2Bounds(n / 2);
    }
  }

  lemma {:induction false} Pow2Grows(a: nat, b: nat)
    requires a <= b
    ensures Pow2(a) <= Pow2(b) && (a < b ==> 2 * Pow2(a) <= Pow2(b)) && a < Pow2(a)
    decreases b
  {
    if a < b {
      Pow2Grows(a, b - 1);
    } else if a > 0 {
      Pow2Grows(a - 1, a - 1);
    }
  }

  lemma Log2IsUnique(n: nat, k: nat)
    requires n > 0 && Pow2(k) <= n < Pow2(k + 1)
    ensures Log2(n) == k
  {
    Log2Bounds(n);
    if Log2(n) < k {
      Pow2Grows(Log2(n) + 1, k);
    } else if k < Log2(n) {
      Pow2Grows(k + 1, Log2(n));
    }
  }

  lemma SmallPowers()
    ensures Pow2(0) == 1 && Pow2(1) == 2 && Pow2(2) == 4 && Pow2(3) == 8 && Pow2(4) == 16
  {
    assert Pow2(4) == 2 * Pow2(3) == 4 * Pow2(2) == 8 * Pow2(1) == 16 * Pow2(0);
  }

  lemma {:induction false} Pow2Sum(a: nat, b: nat)
    ensures Pow2(a + b) == Pow2(a) * Pow2(b)
    decreases a
  {
    if a > 0 {
      Pow2Sum(a - 1, b);
      assert Pow2(a + b) == 2 * Pow2(a - 1 + b) == 2 * (Pow2(a - 1) * Pow2(b)) == Pow2(a) * Pow2(b);
    }
  }

  lemma Pow2Of64()
    ensures Pow2(64) == 0x1_0000_0000_0000_0000
  {
    SmallPowers();
    Pow2Sum(4, 4);
    Pow2Sum(8, 8);
    Pow2Sum(16, 16);
    Pow2Sum(32, 32);
  }

  // ----- bits -----

  function Or(a: nat, b: nat): nat
    decreases a + b
  {
    if a == 0 then b
    else if b == 0 then a
    else 2 * Or(a / 2, b / 2) + (if a % 2 == 1 || b % 2 == 1 then 1 else 0)
  }

  predicate HasBit(n: nat, i: nat)
    decreases i
  {
    if i == 0 then n % 2 == 1 else HasBit(n / 2, i - 1)
  }

  lemma {:induction false} NoBitsInZero(i: nat)
    ensures !HasBit(0, i)
    decreases i
  {
    if i > 0 {
      NoBitsInZero(i - 1);
    }
  }

  lemma {:induction false} BitsOfOr(a: nat, b: nat, i: nat)
    ensures HasBit(Or(a, b), i) <==> HasBit(a, i) || HasBit(b, i)
    decreases i
  {
    if a == 0 || b == 0 {
      NoBitsInZero(i);
    } else {
      var half := Or(a / 2, b / 2);
      assert Or(a, b) == 2 * half + (if a % 2 == 1 || b % 2 == 1 then 1 else 0);
      assert Or(a, b) / 2 == half;
      if i > 0 {
        BitsOfOr(a / 2, b / 2, i - 1);
      }
    }
  }

  lemma {:induction false} BitsOfPow2(k: nat, i: nat)
    ensures HasBit(Pow2(k), i) <==> i == k
    decreases i
  {
    if i > 0 {
      if k == 0 {
        NoBitsInZero(i - 1);
      } else {
        BitsOfPow2(k - 1, i - 1);
      }
    }
  }

  lemma {:induction false} SameBitsSameNumber(a: nat, b: nat)
    requires forall i: nat :: HasBit(a, i) == HasBit(b, i)
    ensures a == b
    decreases a + b
  {
    if a > 0 || b > 0 {
      assert HasBit(a, 0) == HasBit(b, 0);
      forall i: nat
        ensures HasBit(a / 2, i) == HasBit(b / 2, i)
      {
        assert HasBit(a, i + 1) == HasBit(b, i + 1);
      }
      SameBitsSameNumber(a / 2, b / 2);
    }
  }
}

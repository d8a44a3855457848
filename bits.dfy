/** Bitwise arithmetic on unbounded naturals, the way JavaScript's BigInt
    operators `&`, `|`, `<<` and `>>` behave on non-negative values.
    A natural is read as its binary expansion: `Bit(x, k)` is bit k. */
module Bits {

  /** 2 to the n. */
  function Pow2(n: nat): (r: nat)
    ensures r >= 1
  {
    if n == 0 then 1 else 2 * Pow2(n - 1)
  }

  /** Bit k of x (bit 0 is the least significant). */
  predicate Bit(x: nat, k: nat)
  {
    if k == 0 then x % 2 == 1 else Bit(x / 2, k - 1)
  }

  /** `a & b` on non-negative BigInts. */
  function And(a: nat, b: nat): nat
  {
    if a == 0 || b == 0 then 0
    else 2 * And(a / 2, b / 2) + (if a % 2 == 1 && b % 2 == 1 then 1 else 0)
  }

  /** `a | b` on non-negative BigInts. */
  function Or(a: nat, b: nat): nat
  {
    if a == 0 then b
    else if b == 0 then a
    else 2 * Or(a / 2, b / 2) + (if a % 2 == 1 || b % 2 == 1 then 1 else 0)
  }

  lemma {:induction false} Pow2Add(a: nat, b: nat)
    ensures Pow2(a + b) == Pow2(a) * Pow2(b)
  {
    if a > 0 {
      Pow2Add(a - 1, b);
    }
  }

  /** The powers of two that the grid's 16-bit rows and 64-bit pieces use. */
  lemma Pow2Values()
    ensures Pow2(15) == 0x8000 && Pow2(16) == 0x10000
    ensures Pow2(32) == 0x1_0000_0000 && Pow2(48) == 0x1_0000_0000_0000
    ensures Pow2(63) == 0x8000_0000_0000_0000 && Pow2(64) == 0x1_0000_0000_0000_0000
  {
    assert Pow2(1) == 2;
    Pow2Step(1, 1, 2, 2);
    Pow2Step(1, 2, 2, 4);
    Pow2Step(4, 3, 16, 8);
    Pow2Step(8, 7, 0x100, 0x80);
    Pow2Step(8, 8, 0x100, 0x100);
    Pow2Step(16, 16, 0x10000, 0x10000);
    Pow2Step(32, 16, 0x1_0000_0000, 0x10000);
    Pow2Step(48, 15, 0x1_0000_0000_0000, 0x8000);
    Pow2Step(32, 32, 0x1_0000_0000, 0x1_0000_0000);
  }

  /** One step of the table above: from known powers a and b to a + b. */
  lemma Pow2Step(a: nat, b: nat, pa: nat, pb: nat)
    requires Pow2(a) == pa && Pow2(b) == pb
    ensures Pow2(a + b) == pa * pb
  {
    Pow2Add(a, b);
  }

  lemma {:induction false} BitZero(k: nat)
    ensures !Bit(0, k)
  {
    if k > 0 {
      BitZero(k - 1);
    }
  }

  /** A set bit k means x is at least 2^k; so x < 2^n has no bit at or above n. */
  lemma {:induction false} BitBound(x: nat, k: nat)
    requires Bit(x, k)
    ensures Pow2(k) <= x
  {
    if k > 0 {
      BitBound(x / 2, k - 1);
    }
  }

  /** x != 0 exactly when some bit of x is set. */
  lemma {:induction false} NonzeroIffBit(x: nat)
    ensures x != 0 ==> exists k: nat :: Bit(x, k)
    ensures (exists k: nat :: Bit(x, k)) ==> x != 0
  {
    if x == 0 {
      forall k: nat ensures !Bit(x, k) {
        BitZero(k);
      }
    } else if x % 2 == 1 {
      assert Bit(x, 0);
    } else {
      NonzeroIffBit(x / 2);
      var k: nat :| Bit(x / 2, k);
      assert Bit(x, k + 1);
    }
  }

  /** 2^n has exactly bit n set. */
  lemma {:induction false} BitPow2(n: nat, k: nat)
    ensures Bit(Pow2(n), k) <==> k == n
  {
    if n == 0 {
      if k > 0 {
        BitZero(k - 1);
      }
    } else if k > 0 {
      BitPow2(n - 1, k - 1);
    }
  }

  /** 2^n - 1 has exactly the bits below n set. */
  lemma {:induction false} BitAllOnes(n: nat, k: nat)
    ensures Bit(Pow2(n) - 1, k) <==> k < n
  {
    if n == 0 {
      BitZero(k);
    } else if k > 0 {
      assert (Pow2(n) - 1) / 2 == Pow2(n - 1) - 1;
      BitAllOnes(n - 1, k - 1);
    }
  }

  /** Placing a above n low bits b: the low bits are b's, the high bits are a's. */
  lemma {:induction false} BitOfSum(a: nat, b: nat, n: nat, k: nat)
    requires b < Pow2(n)
    ensures Bit(a * Pow2(n) + b, k) <==> if k < n then Bit(b, k) else Bit(a, k - n)
  {
    if n > 0 {
      var q := a * Pow2(n - 1);
      assert a * Pow2(n) == 2 * q;
      assert (a * Pow2(n) + b) / 2 == q + b / 2;
      if k > 0 {
        BitOfSum(a, b / 2, n - 1, k - 1);
      }
    }
  }

  /** BitOfSum for a value x already known to be a * 2^n + b. */
  lemma BitOfSumAt(a: nat, b: nat, n: nat, k: nat, x: nat)
    requires b < Pow2(n) && x == a * Pow2(n) + b
    ensures Bit(x, k) <==> if k < n then Bit(b, k) else Bit(a, k - n)
  {
    BitOfSum(a, b, n, k);
  }

  /** `x << 1`: every bit moves one place up and bit 0 becomes clear. */
  lemma BitOfDouble(x: nat, k: nat)
    ensures Bit(2 * x, k) <==> k > 0 && Bit(x, k - 1)
  {
    if k > 0 {
      assert (2 * x) / 2 == x;
    }
  }

  lemma {:induction false} Pow2Monotone(m: nat, n: nat)
    requires m <= n
    ensures Pow2(m) <= Pow2(n)
  {
    if m < n {
      Pow2Monotone(m, n - 1);
    }
  }

  /** A value below 2^(n+1) whose bit n is clear is below 2^n. */
  lemma {:induction false} ClearTopBit(x: nat, n: nat)
    requires x < Pow2(n + 1) && !Bit(x, n)
    ensures x < Pow2(n)
  {
    if n > 0 {
      ClearTopBit(x / 2, n - 1);
    }
  }

  /** `&` keeps exactly the bits set in both operands. */
  lemma {:induction false} AndBits(a: nat, b: nat, k: nat)
    ensures Bit(And(a, b), k) <==> Bit(a, k) && Bit(b, k)
  {
    if a == 0 || b == 0 {
      BitZero(k);
    } else if k > 0 {
      AndBits(a / 2, b / 2, k - 1);
    }
  }

  /** `a & b` is nonzero exactly when a and b share a set bit. */
  lemma AndNonzeroIff(a: nat, b: nat)
    ensures And(a, b) != 0 ==> exists k: nat :: Bit(a, k) && Bit(b, k)
    ensures (exists k: nat :: Bit(a, k) && Bit(b, k)) ==> And(a, b) != 0
  {
    NonzeroIffBit(And(a, b));
    forall k: nat ensures Bit(And(a, b), k) <==> Bit(a, k) && Bit(b, k) {
      AndBits(a, b, k);
    }
  }

  /** A bit set in both operands makes `a & b` nonzero. */
  lemma AndSharedBit(a: nat, b: nat, k: nat)
    requires Bit(a, k) && Bit(b, k)
    ensures And(a, b) != 0
  {
    AndBits(a, b, k);
    NonzeroIffBit(And(a, b));
  }

  /** `(1 << k) & v` is nonzero exactly when bit k of v is set. */
  lemma AndPow2(k: nat, v: nat)
    ensures And(Pow2(k), v) != 0 <==> Bit(v, k)
  {
    AndNonzeroIff(Pow2(k), v);
    forall j: nat ensures Bit(Pow2(k), j) <==> j == k {
      BitPow2(k, j);
    }
  }

  /** OR-ing 2^n into a value below 2^n adds it. */
  lemma {:induction false} OrPow2Above(a: nat, n: nat)
    requires a < Pow2(n)
    ensures Or(a, Pow2(n)) == a + Pow2(n)
  {
    if n > 0 && a != 0 {
      OrPow2Above(a / 2, n - 1);
    }
  }
}

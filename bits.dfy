/**
 * PHP's integer bit operators on non-negative integers: `&`, `|`, `^`, and
 * shifts by a constant (`<<` is a multiplication by a power of two and `>>`
 * a floor division by one, as long as no 64-bit overflow occurs).
 */
module Bits {

  /** 2^k. */
  function Pow2(k: nat): (r: nat)
    ensures r >= 1
  {
    if k == 0 then 1 else 2 * Pow2(k - 1)
  }

  lemma {:induction false} Pow2Add(a: nat, b: nat)
    ensures Pow2(a + b) == Pow2(a) * Pow2(b)
  {
    if a > 0 {
      Pow2Add(a - 1, b);
      assert Pow2(a + b) == 2 * Pow2(a - 1 + b);
    }
  }

  /** The two powers of two the limb arithmetic is built on. */
  lemma Pow2Constants()
    ensures Pow2(30) == 0x4000_0000 && Pow2(31) == 0x8000_0000
  {
    assert Pow2(2) == 4;
    Pow2Add(2, 2);
    Pow2Add(4, 4);
    Pow2Add(8, 8);
    Pow2Add(8, 4);
    Pow2Add(12, 2);
    Pow2Add(16, 14);
    assert Pow2(31) == 2 * Pow2(30);
  }

  lemma Pow2Mono(a: nat, b: nat)
    requires a <= b
    ensures Pow2(a) <= Pow2(b)
  {
    Pow2Add(a, b - a);
  }

  /** PHP `a & b`, one bit at a time from the least significant. */
  function And(a: nat, b: nat): nat
  {
    if a == 0 || b == 0 then 0
    else 2 * And(a / 2, b / 2) + (if a % 2 == 1 && b % 2 == 1 then 1 else 0)
  }

  /** PHP `a | b`. */
  function Or(a: nat, b: nat): nat
  {
    if a == 0 then b
    else if b == 0 then a
    else 2 * Or(a / 2, b / 2) + (if a % 2 == 1 || b % 2 == 1 then 1 else 0)
  }

  /** PHP `a ^ b`. */
  function Xor(a: nat, b: nat): nat
  {
    if a == 0 then b
    else if b == 0 then a
    else 2 * Xor(a / 2, b / 2) + (if a % 2 != b % 2 then 1 else 0)
  }

  /** Bit k of a. */
  function Bit(a: nat, k: nat): bool
  {
    if k == 0 then a % 2 == 1 else Bit(a / 2, k - 1)
  }

  /** Dividing by 2^k, or taking the remainder, one bit at a time. */
  lemma Pow2Step(a: nat, k: nat)
    requires k > 0
    ensures a / Pow2(k) == (a / 2) / Pow2(k - 1)
    ensures a % Pow2(k) == 2 * ((a / 2) % Pow2(k - 1)) + a % 2
  {
    var p := Pow2(k - 1);
    assert Pow2(k) == 2 * p;
    var q := (a / 2) / p;
    var r := (a / 2) % p;
    assert a / 2 == q * p + r;
    assert a == q * (2 * p) + (2 * r + a % 2);
    DivModUnique(a, 2 * p, q, 2 * r + a % 2);
  }

  lemma MulNonneg(a: int, b: int)
    requires a >= 0 && b >= 0
    ensures a * b >= 0
  {
  }

  /** Dividing a non-negative number gives a non-negative quotient and a remainder no larger than it. */
  lemma DivModNonneg(a: int, m: int)
    requires m > 0
    ensures a >= 0 ==> 0 <= a / m && 0 <= a % m <= a
  {
    if a >= 0 {
      var q, r := a / m, a % m;
      assert a == q * m + r;
      if q < 0 {
        MulNonneg(-q, m);
      } else {
        MulNonneg(q, m);
      }
    }
  }

  /** A non-negative quotient is zero exactly when the dividend is below the divisor. */
  lemma DivZero(a: int, m: int)
    requires a >= 0 && m > 0
    ensures a / m == 0 <==> a < m
  {
    if a < m {
      DivModUnique(a, m, 0, a);
    } else {
      var q, r := a / m, a % m;
      assert a == q * m + r;
    }
  }

  /** Quotient and remainder are unique: the basis of every division argument here. */
  lemma DivModUnique(a: int, m: int, q: int, r: int)
    requires m > 0 && 0 <= r < m && a == q * m + r
    ensures a / m == q && a % m == r
  {
    var q0, r0 := a / m, a % m;
    assert (q - q0) * m == r0 - r;
    if q > q0 {
      MulNonneg(q - q0 - 1, m);
    } else if q < q0 {
      MulNonneg(q0 - q - 1, m);
    }
  }

  /** Masking with 2^k − 1 keeps the low k bits. */
  lemma {:induction false} AndLowMask(a: nat, k: nat)
    ensures And(a, Pow2(k) - 1) == a % Pow2(k)
  {
    if k == 0 {
      assert Pow2(0) == 1;
    } else if a == 0 {
      DivModUnique(0, Pow2(k), 0, 0);
    } else {
      AndLowMask(a / 2, k - 1);
      AndLowMaskStep(a, k);
    }
  }

  lemma AndLowMaskStep(a: nat, k: nat)
    requires k > 0 && a > 0 && And(a / 2, Pow2(k - 1) - 1) == (a / 2) % Pow2(k - 1)
    ensures And(a, Pow2(k) - 1) == a % Pow2(k)
  {
    var p := Pow2(k - 1);
    var m := Pow2(k) - 1;
    assert m == 2 * (p - 1) + 1 && m != 0;
    calc {
      And(a, m);
      2 * And(a / 2, m / 2) + (if a % 2 == 1 && m % 2 == 1 then 1 else 0);
      { assert m / 2 == p - 1 && m % 2 == 1; }
      2 * And(a / 2, p - 1) + a % 2;
      2 * ((a / 2) % p) + a % 2;
      { Pow2Step(a, k); }
      a % Pow2(k);
    }
  }

  /** Or-ing a value below 2^k with a multiple of 2^k adds them. */
  lemma {:induction false} OrDisjoint(a: nat, c: nat, k: nat)
    requires a < Pow2(k)
    ensures Or(a, c * Pow2(k)) == a + c * Pow2(k)
  {
    var b := c * Pow2(k);
    if a == 0 || b == 0 {
    } else {
      var h := c * Pow2(k - 1);
      assert b == 2 * h by {
        assert Pow2(k) == 2 * Pow2(k - 1);
      }
      OrDisjoint(a / 2, c, k - 1);
    }
  }

  /** The bit test `a & 2^k` of a value below 2^(k+1): set exactly when a >= 2^k. */
  lemma {:induction false} AndTopBit(a: nat, k: nat)
    requires a < Pow2(k + 1)
    ensures And(a, Pow2(k)) != 0 <==> a >= Pow2(k)
  {
    if k == 0 {
      assert Pow2(1) == 2;
      if a == 1 {
        assert And(1, 1) == 2 * And(0, 0) + 1;
      }
    } else {
      assert Pow2(k + 1) == 2 * Pow2(k) && Pow2(k) == 2 * Pow2(k - 1);
      if a == 0 {
      } else {
        AndTopBit(a / 2, k - 1);
        assert And(a, Pow2(k)) == 2 * And(a / 2, Pow2(k - 1));
      }
    }
  }

  /** `&` is commutative; the bit of the result at k is the conjunction of the operands' bits. */
  lemma {:induction false} AndBits(a: nat, b: nat, k: nat)
    ensures Bit(And(a, b), k) <==> Bit(a, k) && Bit(b, k)
  {
    if a == 0 || b == 0 {
      ZeroBits(k);
    } else if k == 0 {
    } else {
      AndBits(a / 2, b / 2, k - 1);
      assert And(a, b) / 2 == And(a / 2, b / 2);
    }
  }

  lemma {:induction false} OrBits(a: nat, b: nat, k: nat)
    ensures Bit(Or(a, b), k) <==> Bit(a, k) || Bit(b, k)
  {
    if a == 0 {
      ZeroBits(k);
    } else if b == 0 {
      ZeroBits(k);
    } else if k == 0 {
    } else {
      OrBits(a / 2, b / 2, k - 1);
      assert Or(a, b) / 2 == Or(a / 2, b / 2);
    }
  }

  lemma {:induction false} XorBits(a: nat, b: nat, k: nat)
    ensures Bit(Xor(a, b), k) <==> Bit(a, k) != Bit(b, k)
  {
    if a == 0 {
      ZeroBits(k);
    } else if b == 0 {
      ZeroBits(k);
    } else if k == 0 {
    } else {
      XorBits(a / 2, b / 2, k - 1);
      assert Xor(a, b) / 2 == Xor(a / 2, b / 2);
    }
  }

  /** `|` is symmetric, and or-ing with zero changes nothing. */
  lemma {:induction false} OrSymmetric(a: nat, b: nat)
    ensures Or(a, b) == Or(b, a)
    ensures Or(a, 0) == a && Or(0, a) == a
  {
    if a != 0 && b != 0 {
      OrSymmetric(a / 2, b / 2);
    }
  }

  /** Or and xor of two values below 2^k stay below 2^k. */
  lemma {:induction false} OrBound(a: nat, b: nat, k: nat)
    requires a < Pow2(k) && b < Pow2(k)
    ensures Or(a, b) < Pow2(k) && Xor(a, b) < Pow2(k)
  {
    if a != 0 && b != 0 {
      assert k > 0;
      assert Pow2(k) == 2 * Pow2(k - 1);
      OrBound(a / 2, b / 2, k - 1);
    }
  }

  lemma ZeroBits(k: nat)
    ensures !Bit(0, k)
  {
  }

  /** An or is zero exactly when both operands are. */
  lemma {:induction false} OrZero(a: nat, b: nat)
    ensures Or(a, b) == 0 <==> a == 0 && b == 0
  {
    if a != 0 && b != 0 {
      OrZero(a / 2, b / 2);
    }
  }

  /** A xor is zero exactly when the operands are equal. */
  lemma {:induction false} XorZero(a: nat, b: nat)
    ensures Xor(a, b) == 0 <==> a == b
  {
    if a != 0 && b != 0 {
      XorZero(a / 2, b / 2);
    }
  }
}

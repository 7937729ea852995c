/**
 * `modPow` of Oxygen_Math_BigInteger in its internal mode: the dispatch on
 * the sign of the exponent, the range of the base and the small exponents
 * 0, 1 and 2, in front of the Barrett sliding window.
 */
module BigModPow {

  import opened Bits
  import opened Limbs
  import opened BigInteger
  import opened ModExp
  import LimbMul
  import BigInverse
  import Wrappers

  // ---------------------------------------------------------------------
  // Powers and residues
  // ---------------------------------------------------------------------

  /** A power depends only on the residue of its base. */
  lemma {:induction false} ExpOfResidue(b: int, k: nat, n: int)
    requires n > 0
    ensures Exp(b % n, k) % n == Exp(b, k) % n
  {
    if k > 0 {
      ExpOfResidue(b, k - 1, n);
      calc {
        Exp(b % n, k) % n;
        ((b % n) * Exp(b % n, k - 1)) % n;
        { MulMod(b % n, Exp(b % n, k - 1), n); ModOfMod(b, n); }
        ((b % n) * (Exp(b % n, k - 1) % n)) % n;
        ((b % n) * (Exp(b, k - 1) % n)) % n;
        { MulMod(b, Exp(b, k - 1), n); }
        (b * Exp(b, k - 1)) % n;
      }
    }
  }

  lemma Rearrange(a: int, b: int, p: int, q: int)
    ensures (a * b) * (p * q) == (a * p) * (b * q)
  {
    calc {
      (a * b) * (p * q);
      a * (b * (p * q));
      a * (p * (b * q));
      (a * p) * (b * q);
    }
  }

  /** The power of a product is the product of the powers. */
  lemma {:induction false} ExpProduct(a: int, b: int, k: nat)
    ensures Exp(a * b, k) == Exp(a, k) * Exp(b, k)
  {
    if k > 0 {
      ExpProduct(a, b, k - 1);
      Rearrange(a, b, Exp(a, k - 1), Exp(b, k - 1));
    }
  }

  /** Every power of 1 is 1, and every positive power of 0 is 0. */
  lemma {:induction false} ExpOfUnit(k: nat)
    ensures Exp(1, k) == 1
    ensures k > 0 ==> Exp(0, k) == 0
  {
    if k > 0 {
      ExpOfUnit(k - 1);
    }
  }

  /**
   * The power of an inverse is an inverse of the power: when s·a ≡ 1, for
   * any positive k, (sᵏ mod n)·aᵏ ≡ 1 (mod n).
   */
  lemma InversePower(s: int, a: int, k: nat, n: int)
    requires n > 0 && k > 0 && (s * a) % n == 1 % n
    ensures ((Exp(s, k) % n) * Exp(a, k)) % n == 1 % n
  {
    var p, q := Exp(s, k), Exp(a, k);
    assert ((p % n) * q) % n == (p * q) % n by {
      MulMod(p % n, q, n);
      ModOfMod(p, n);
      MulMod(p, q, n);
    }
    ExpProduct(s, a, k);
    ExpOfResidue(s * a, k, n);
    UnitPower(k, n);
  }

  /** (1 mod n)ᵏ mod n = 1 mod n for positive k, including n = 1. */
  lemma UnitPower(k: nat, n: int)
    requires n > 0 && k > 0
    ensures Exp(1 % n, k) % n == 1 % n
  {
    ExpOfUnit(k);
    if n == 1 {
      assert 1 % n == 0;
    } else {
      assert 1 % n == 1;
    }
  }

  // ---------------------------------------------------------------------
  // modPow
  // ---------------------------------------------------------------------

  /**
   * The part of `modPow` that runs once the exponent is non-negative and
   * the base lies in [0, m]: 1 for the exponent 0, a remainder for the
   * exponents 1 and 2, and the sliding window for the others.
   */
  method ReducedPower(self: BigInt, e: BigInt, m: BigInt) returns (r: BigInt)
    requires Valid(self) && Valid(e) && Valid(m) && IntOf(m) > 0
    requires 0 <= IntOf(self) <= IntOf(m) && IntOf(e) >= 0
    ensures Valid(r)
    ensures IntOf(e) == 0 ==> r == One
    ensures IntOf(e) > 0 ==> IntOf(r) == Exp(IntOf(self), IntOf(e)) % IntOf(m)
  {
    ghost var x, k, mv := IntOf(self), IntOf(e), IntOf(m);
    ValZeroIffEmpty(e.value);
    ValZeroIffEmpty(m.value);
    NegativeFlag(self);
    NegativeFlag(m);
    if |e.value| == 0 {
      return One;
    }
    if e.value == [1] {
      assert k == 1 && Exp(x, k) == x;
      var _, residue := BigInteger.Divide(self, m);
      return residue;
    }
    if e.value == [2] {
      assert k == 2 && Exp(x, k) == x * x;
      var square := LimbMul.Square(self.value);
      ValZeroIffEmpty(square);
      var _, residue := BigInteger.Divide(BigInt(square, false), m);
      return residue;
    }
    var power := SlidingWindow(self.value, e.value, m.value);
    ValZeroIffEmpty(power);
    r := BigInt(power, false);
  }

  /**
   * `modPow`: for a non-negative exponent e, selfᵉ mod |n|, except that the
   * exponent 0 gives 1 whatever n is; for a negative exponent, the power of
   * the inverse of self modulo |n|, or None when self has no inverse.
   */
  method ModPow(self: BigInt, e: BigInt, n: BigInt) returns (r: Wrappers.Option<BigInt>)
    requires Valid(self) && Valid(e) && Valid(n) && IntOf(n) != 0
    ensures IntOf(e) >= 0 ==> r.Some? && Valid(r.value)
    ensures IntOf(e) == 0 ==> r == Wrappers.Some(One)
    ensures IntOf(e) > 0 ==> IntOf(r.value) == Exp(IntOf(self), IntOf(e)) % IntOf(Abs(n))
    ensures IntOf(e) < 0 ==> (r.Some? <==> BigInverse.Coprime(IntOf(self), IntOf(Abs(n))))
    ensures IntOf(e) < 0 && r.Some? ==>
      Valid(r.value) && 0 <= IntOf(r.value) < IntOf(Abs(n))
      && (IntOf(r.value) * Exp(IntOf(self), -IntOf(e))) % IntOf(Abs(n)) == 1 % IntOf(Abs(n))
    decreases (if e.negative then 2 else 0) + (if self.negative || IntOf(self) > Signed(n.value, false) then 1 else 0)
  {
    var m := Abs(n);
    ghost var x, k, mv := IntOf(self), IntOf(e), IntOf(m);
    NegativeFlag(self);
    NegativeFlag(e);
    NegativeFlag(n);
    var sign := BigInteger.Compare(e, Zero);
    if sign < 0 {
      var positive := Abs(e);
      var inverse := BigInverse.ModInverse(self, m);
      if inverse.None? {
        return Wrappers.None;
      }
      r := ModPow(inverse.value, positive, m);
      InversePower(IntOf(inverse.value), x, -k, mv);
      return r;
    }
    var below := BigInteger.Compare(self, Zero);
    var above := BigInteger.Compare(self, m);
    if below < 0 || above > 0 {
      var _, residue := BigInteger.Divide(self, m);
      NegativeFlag(residue);
      r := ModPow(residue, e, m);
      if k > 0 {
        ExpOfResidue(x, k, mv);
      }
      return r;
    }
    var power := ReducedPower(self, e, m);
    r := Wrappers.Some(power);
  }
}

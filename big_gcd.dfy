/**
 * `extendedGCD` (the binary extended GCD of HAC 14.61) and `modInverse`
 * (HAC 14.64) of Oxygen_Math_BigInteger in its internal mode.
 */
module BigInverse {

  import opened Bits
  import opened Limbs
  import opened BigInteger
  import ModExp
  import opened Wrappers

  /** t is a positive divisor of a. */
  predicate Divides(t: int, a: int)
  {
    t > 0 && a % t == 0
  }

  /** The only positive common divisor of a and n is 1. */
  ghost predicate Coprime(a: int, n: int)
  {
    forall t :: Divides(t, a) && Divides(t, n) ==> t == 1
  }

  // ---------------------------------------------------------------------
  // Divisibility and parity facts
  // ---------------------------------------------------------------------

  lemma DividesCombination(t: int, a: int, b: int, k: int, l: int)
    requires Divides(t, a) && Divides(t, b)
    ensures Divides(t, k * a + l * b)
  {
    var qa, qb := a / t, b / t;
    assert k * a + l * b == (k * qa + l * qb) * t by {
      assert a == qa * t && b == qb * t;
    }
    DivModUnique(k * a + l * b, t, k * qa + l * qb, 0);
  }

  lemma DividesSelfAndZero(t: int)
    requires t > 0
    ensures Divides(t, t) && Divides(t, 0)
  {
    DivModUnique(t, t, 1, 0);
  }

  lemma DividesNegation(t: int, a: int)
    requires t > 0
    ensures Divides(t, a) <==> Divides(t, -a)
  {
    if Divides(t, a) {
      DividesCombination(t, a, a, -1, 0);
    }
    if Divides(t, -a) {
      DividesCombination(t, -a, -a, -1, 0);
    }
  }

  lemma DividesScaled(t: int, a: int, g: int)
    requires Divides(t, a) && g > 0
    ensures Divides(g * t, g * a)
  {
    var q := a / t;
    assert g * a == q * (g * t) by {
      assert a == q * t;
    }
    DivModUnique(g * a, g * t, q, 0);
  }

  lemma DividesOne(t: int)
    requires Divides(t, 1)
    ensures t == 1
  {
    if t > 1 {
      DivModUnique(1, t, 0, 1);
    }
  }

  lemma AddParity(p: int, q: int)
    ensures (p + q) % 2 == ((p % 2) + (q % 2)) % 2
  {
    ModExp.ModMultiple((p % 2) + (q % 2), p / 2 + q / 2, 2);
  }

  /**
   * The halving step of HAC 14.61: when a·x + b·y = u is even and x or y is
   * odd, a and b are even, or a + y and b − x are.
   */
  lemma AdjustedEven(a: int, b: int, x: int, y: int, u: int)
    requires a * x + b * y == u && u % 2 == 0 && (x % 2 == 1 || y % 2 == 1)
    ensures a % 2 == 1 || b % 2 == 1 ==> (a + y) % 2 == 0 && (b - x) % 2 == 0
    ensures (a + y) * x + (b - x) * y == u
  {
    ModExp.MulMod(a, x, 2);
    ModExp.MulMod(b, y, 2);
    AddParity(a * x, b * y);
    AddParity(a, y);
    AddParity(b, -x);
    AddParity(x, -x);
  }

  lemma HalfCombination(a: int, b: int, x: int, y: int, u: int)
    requires a % 2 == 0 && b % 2 == 0 && a * x + b * y == u
    ensures u % 2 == 0 && (a / 2) * x + (b / 2) * y == u / 2
  {
    var ha, hb := a / 2, b / 2;
    assert u == 2 * (ha * x + hb * y) by {
      assert a == 2 * ha && b == 2 * hb;
    }
    DivModUnique(u, 2, ha * x + hb * y, 0);
  }

  // ---------------------------------------------------------------------
  // extendedGCD
  // ---------------------------------------------------------------------

  /**
   * One of the two inner loops of `extendedGCD`: while u is even, halve it
   * and keep a·x + b·y = u by halving a and b, after adding y to a and
   * subtracting x from b when either is odd. Every divisor of the new u
   * divides the old one.
   */
  method RemoveTwos(u0: BigInt, a0: BigInt, b0: BigInt, x: BigInt, y: BigInt)
    returns (u: BigInt, a: BigInt, b: BigInt)
    requires Valid(u0) && Valid(a0) && Valid(b0) && Valid(x) && Valid(y)
    requires IntOf(u0) > 0 && (IntOf(x) % 2 == 1 || IntOf(y) % 2 == 1)
    requires IntOf(a0) * IntOf(x) + IntOf(b0) * IntOf(y) == IntOf(u0)
    ensures Valid(u) && Valid(a) && Valid(b)
    ensures 0 < IntOf(u) <= IntOf(u0) && IntOf(u) % 2 == 1
    ensures IntOf(a) * IntOf(x) + IntOf(b) * IntOf(y) == IntOf(u)
    ensures forall t :: Divides(t, IntOf(u)) ==> Divides(t, IntOf(u0))
  {
    u, a, b := u0, a0, b0;
    IsOddIsParity(u);
    while !IsOdd(u)
      invariant Valid(u) && Valid(a) && Valid(b)
      invariant 0 < IntOf(u) <= IntOf(u0)
      invariant IsOdd(u) <==> IntOf(u) % 2 == 1
      invariant IntOf(a) * IntOf(x) + IntOf(b) * IntOf(y) == IntOf(u)
      invariant forall t :: Divides(t, IntOf(u)) ==> Divides(t, IntOf(u0))
      decreases IntOf(u)
    {
      ghost var before := IntOf(u);
      AdjustedEven(IntOf(a), IntOf(b), IntOf(x), IntOf(y), before);
      u := Halve(u);
      forall t | Divides(t, IntOf(u))
        ensures Divides(t, before)
      {
        DividesCombination(t, IntOf(u), IntOf(u), 1, 1);
      }
      IsOddIsParity(a);
      IsOddIsParity(b);
      if IsOdd(a) || IsOdd(b) {
        a := Add(a, y);
        b := Subtract(b, x);
      }
      HalfCombination(IntOf(a), IntOf(b), IntOf(x), IntOf(y), before);
      a := Halve(a);
      b := Halve(b);
      IsOddIsParity(u);
    }
  }

  /** The result of a Bézout combination is divisible by every common divisor. */
  lemma BezoutGreatest(g: int, x: int, y: int, s: int, t0: int)
    requires s * x + t0 * y == g
    ensures forall t :: Divides(t, x) && Divides(t, y) ==> Divides(t, g)
  {
    forall t | Divides(t, x) && Divides(t, y)
      ensures Divides(t, g)
    {
      DividesCombination(t, x, y, s, t0);
    }
  }

  lemma ScaleBezout(c: int, d: int, x: int, y: int, v: int, g: int)
    requires c * x + d * y == v
    ensures c * (g * x) + d * (g * y) == g * v
  {
  }

  lemma DoubleHalf(g: int, x: int, g2: int, h: int)
    requires x % 2 == 0 && g2 == 2 * g && h == x / 2
    ensures g2 * h == g * x
  {
    assert x == 2 * h;
  }

  /**
   * The first loop of `extendedGCD`: while both operands are even, halve
   * both and double g.
   */
  method CommonTwos(self: BigInt, n: BigInt) returns (xs: BigInt, ys: BigInt, g: BigInt)
    requires Valid(self) && Valid(n) && IntOf(self) >= 0 && IntOf(n) > 0
    ensures Valid(xs) && Valid(ys) && Valid(g)
    ensures IntOf(xs) >= 0 && IntOf(ys) > 0 && IntOf(g) > 0
    ensures IntOf(g) * IntOf(xs) == IntOf(self) && IntOf(g) * IntOf(ys) == IntOf(n)
    ensures IntOf(xs) % 2 == 1 || IntOf(ys) % 2 == 1
  {
    ys := n;
    xs := self;
    g := One;
    IsOddIsParity(xs);
    IsOddIsParity(ys);
    while !(IsOdd(xs) || IsOdd(ys))
      invariant Valid(xs) && Valid(ys) && Valid(g)
      invariant IntOf(xs) >= 0 && IntOf(ys) > 0 && IntOf(g) > 0
      invariant IntOf(g) * IntOf(xs) == IntOf(self) && IntOf(g) * IntOf(ys) == IntOf(n)
      invariant IsOdd(xs) <==> IntOf(xs) % 2 == 1
      invariant IsOdd(ys) <==> IntOf(ys) % 2 == 1
      decreases IntOf(ys)
    {
      ghost var x0, y0, g0 := IntOf(xs), IntOf(ys), IntOf(g);
      xs := Halve(xs);
      ys := Halve(ys);
      g := Double(g);
      DoubleHalf(g0, x0, IntOf(g), IntOf(xs));
      DoubleHalf(g0, y0, IntOf(g), IntOf(ys));
      IsOddIsParity(xs);
      IsOddIsParity(ys);
    }
  }

  lemma SubtractBezout(a: int, b: int, c: int, d: int, x: int, y: int, u: int, v: int)
    requires a * x + b * y == u && c * x + d * y == v
    ensures (a - c) * x + (b - d) * y == u - v
  {
  }

  /** The state of the main loop of `extendedGCD`. */
  predicate LoopState(u: BigInt, v: BigInt, a: BigInt, b: BigInt, c: BigInt, d: BigInt, xs: BigInt, ys: BigInt)
  {
    Valid(u) && Valid(v) && Valid(a) && Valid(b) && Valid(c) && Valid(d) && Valid(xs) && Valid(ys)
    && IntOf(u) >= 0 && IntOf(v) > 0
    && IntOf(a) * IntOf(xs) + IntOf(b) * IntOf(ys) == IntOf(u)
    && IntOf(c) * IntOf(xs) + IntOf(d) * IntOf(ys) == IntOf(v)
  }

  /**
   * The subtraction of a pass of the main loop, on the larger of the two
   * values p ≥ q: p − q with its coefficients. Every common divisor of
   * p − q and q divides p.
   */
  method SubtractSmaller(p0: BigInt, pa0: BigInt, pb0: BigInt, q: BigInt, qa: BigInt, qb: BigInt, xs: BigInt, ys: BigInt)
    returns (p: BigInt, pa: BigInt, pb: BigInt)
    requires Valid(p0) && Valid(pa0) && Valid(pb0) && Valid(q) && Valid(qa) && Valid(qb)
    requires IntOf(p0) >= IntOf(q)
    requires IntOf(pa0) * IntOf(xs) + IntOf(pb0) * IntOf(ys) == IntOf(p0)
    requires IntOf(qa) * IntOf(xs) + IntOf(qb) * IntOf(ys) == IntOf(q)
    ensures Valid(p) && Valid(pa) && Valid(pb)
    ensures IntOf(p) == IntOf(p0) - IntOf(q)
    ensures IntOf(pa) * IntOf(xs) + IntOf(pb) * IntOf(ys) == IntOf(p)
    ensures forall t :: Divides(t, IntOf(p)) && Divides(t, IntOf(q)) ==> Divides(t, IntOf(p0))
  {
    p := Subtract(p0, q);
    pa := Subtract(pa0, qa);
    pb := Subtract(pb0, qb);
    SubtractBezout(IntOf(pa0), IntOf(pb0), IntOf(qa), IntOf(qb), IntOf(xs), IntOf(ys), IntOf(p0), IntOf(q));
    forall t | Divides(t, IntOf(p)) && Divides(t, IntOf(q))
      ensures Divides(t, IntOf(p0))
    {
      DividesCombination(t, IntOf(p), IntOf(q), 1, 1);
    }
  }

  /**
   * One pass of the main loop of `extendedGCD`: remove the factors of two
   * from u and from v, then subtract the smaller from the larger (u − v
   * when u ≥ v). Every common divisor of the new pair divides the old pair.
   */
  method EuclidStep(u0: BigInt, v0: BigInt, a0: BigInt, b0: BigInt, c0: BigInt, d0: BigInt, xs: BigInt, ys: BigInt)
    returns (u: BigInt, v: BigInt, a: BigInt, b: BigInt, c: BigInt, d: BigInt)
    requires LoopState(u0, v0, a0, b0, c0, d0, xs, ys) && IntOf(u0) > 0
    requires IntOf(xs) % 2 == 1 || IntOf(ys) % 2 == 1
    ensures LoopState(u, v, a, b, c, d, xs, ys)
    ensures IntOf(u) + IntOf(v) < IntOf(u0) + IntOf(v0)
    ensures forall t :: Divides(t, IntOf(u)) && Divides(t, IntOf(v)) ==> Divides(t, IntOf(u0)) && Divides(t, IntOf(v0))
  {
    u, a, b := RemoveTwos(u0, a0, b0, xs, ys);
    v, c, d := RemoveTwos(v0, c0, d0, xs, ys);
    var cmp := BigInteger.Compare(u, v);
    if cmp >= 0 {
      u, a, b := SubtractSmaller(u, a, b, v, c, d, xs, ys);
    } else {
      v, c, d := SubtractSmaller(v, c, d, u, a, b, xs, ys);
    }
  }

  /**
   * `extendedGCD` for x ≥ 0 and n > 0 (on zero operands the loops never
   * end): strip the common factors of two into g, then run the binary
   * extended Euclidean loop. The result is the greatest common divisor
   * with coefficients proving it.
   */
  method ExtendedGCD(self: BigInt, n: BigInt) returns (gcd: BigInt, x: BigInt, y: BigInt)
    requires Valid(self) && Valid(n) && IntOf(self) >= 0 && IntOf(n) > 0
    ensures Valid(gcd) && Valid(x) && Valid(y)
    ensures Divides(IntOf(gcd), IntOf(self)) && Divides(IntOf(gcd), IntOf(n))
    ensures IntOf(x) * IntOf(self) + IntOf(y) * IntOf(n) == IntOf(gcd)
    ensures forall t :: Divides(t, IntOf(self)) && Divides(t, IntOf(n)) ==> Divides(t, IntOf(gcd))
  {
    var xs, ys, g := CommonTwos(self, n);
    var u, v := xs, ys;
    var a, b, c, d := One, Zero, Zero, One;
    while |u.value| > 0
      invariant LoopState(u, v, a, b, c, d, xs, ys)
      invariant forall t :: Divides(t, IntOf(u)) && Divides(t, IntOf(v)) ==> Divides(t, IntOf(xs)) && Divides(t, IntOf(ys))
      decreases IntOf(u) + IntOf(v)
    {
      ValZeroIffEmpty(u.value);
      u, v, a, b, c, d := EuclidStep(u, v, a, b, c, d, xs, ys);
    }
    ValZeroIffEmpty(u.value);
    DividesSelfAndZero(IntOf(v));
    DividesScaled(IntOf(v), IntOf(xs), IntOf(g));
    DividesScaled(IntOf(v), IntOf(ys), IntOf(g));
    gcd := Multiply(g, v);
    x, y := c, d;
    ScaleBezout(IntOf(c), IntOf(d), IntOf(xs), IntOf(ys), IntOf(v), IntOf(g));
    BezoutGreatest(IntOf(gcd), IntOf(self), IntOf(n), IntOf(x), IntOf(y));
  }

  // ---------------------------------------------------------------------
  // modInverse
  // ---------------------------------------------------------------------

  lemma InverseResidue(s: int, a: int, t0: int, m: int)
    requires m > 0 && s * a + t0 * m == 1
    ensures (s * a) % m == 1 % m && ((s + m) * a) % m == 1 % m
  {
    ModExp.ModMultiple(1, -t0, m);
    assert s * a == -t0 * m + 1;
    assert (s + m) * a == (a - t0) * m + 1;
    ModExp.ModMultiple(1, a - t0, m);
  }

  /** An inverse modulo m exists only for a coprime to m. */
  lemma InverseCoprime(s: int, a: int, m: int)
    requires m > 0 && (s * a) % m == 1 % m
    ensures Coprime(a, m)
  {
    forall t | Divides(t, a) && Divides(t, m)
      ensures t == 1
    {
      var k := (s * a) / m;
      assert s * a == k * m + 1 % m;
      if m == 1 {
        assert t == 1 by {
          assert m % t == 0;
          DividesOne(t);
        }
      } else {
        DivModUnique(1, m, 0, 1);
        DividesCombination(t, a, m, s, -k);
        assert s * a + (-k) * m == 1;
        DividesOne(t);
      }
    }
  }

  lemma NegatedInverse(i: int, a: int, m: int)
    requires m > 0 && (i * a) % m == 1 % m
    ensures ((m - i) * (-a)) % m == 1 % m
  {
    assert (m - i) * (-a) == (-a) * m + i * a;
    ModExp.ModMultiple(i * a, -a, m);
  }

  lemma CoprimeNegation(a: int, m: int)
    ensures Coprime(a, m) <==> Coprime(-a, m)
  {
    forall t | t > 0
      ensures Divides(t, a) <==> Divides(t, -a)
    {
      DividesNegation(t, a);
    }
  }

  /**
   * `modInverse`: n is taken by absolute value; a negative value is
   * inverted through its absolute value and the result subtracted from n;
   * otherwise the extended GCD decides, and a negative coefficient is moved
   * up by n. There is an inverse exactly when the value is coprime to |n|.
   */
  method ModInverse(self: BigInt, n: BigInt) returns (r: Option<BigInt>)
    requires Valid(self) && Valid(n) && IntOf(n) != 0
    ensures r.Some? <==> Coprime(IntOf(self), IntOf(Abs(n)))
    ensures r.Some? ==> Valid(r.value) && (IntOf(r.value) * IntOf(self)) % IntOf(Abs(n)) == 1 % IntOf(Abs(n))
    decreases if self.negative then 1 else 0
  {
    var m := Abs(n);
    ghost var a, mv := IntOf(self), IntOf(m);
    var sign := BigInteger.Compare(self, Zero);
    if sign < 0 {
      var temp := Abs(self);
      var inverse := ModInverse(temp, m);
      CoprimeNegation(a, mv);
      if inverse.None? {
        return None;
      }
      var difference := Subtract(m, inverse.value);
      NegatedInverse(IntOf(inverse.value), -a, mv);
      return Some(difference);
    }
    var gcd, x, y := ExtendedGCD(self, m);
    if !BigInteger.Equals(gcd, One) {
      assert !Coprime(a, mv) by {
        assert Divides(IntOf(gcd), a) && Divides(IntOf(gcd), mv) && IntOf(gcd) != 1;
      }
      return None;
    }
    InverseResidue(IntOf(x), a, IntOf(y), mv);
    var c := BigInteger.Compare(x, Zero);
    if c < 0 {
      x := Add(x, m);
    }
    InverseCoprime(IntOf(x), a, mv);
    return Some(x);
  }
}

/**
 * `_barrett`, `_regularBarrett` and the array slices they work with: the
 * modular reduction that `modPow` applies after every multiplication
 * (HAC 14.42, with "folding" for moduli of five limbs or more).
 *
 * The reduction caches its Barrett factors per modulus; a cached factor is
 * the same value recomputed, so the model recomputes it.
 */
module LimbBarrett {
  import opened Bits
  import opened Limbs
  import opened LimbAdd
  import opened LimbMul
  import opened LimbShift
  import opened LimbDiv

  // ---------------------------------------------------------------------
  // array_slice on limb arrays

  /** `array_slice($x, $k)`: the limbs from position k on, i.e. x divided by Base^k. */
  function Above(x: seq<int>, k: nat): (r: seq<int>)
    requires Digits(x)
    ensures Digits(r) && Val(r) == Val(x) / Pow(k)
    ensures Normal(x) ==> Normal(r)
  {
    DropLimbs(x, k);
    if k <= |x| then x[k..] else []
  }

  /**
   * `array_slice($x, 0, $k)`: the low k limbs, i.e. x modulo Base^k. The
   * slice keeps any zero limbs at its top.
   */
  function Below(x: seq<int>, k: nat): (r: seq<int>)
    requires Digits(x)
    ensures Digits(r) && Val(r) == Val(x) % Pow(k)
    ensures k <= |x| ==> r == x[..k]
    ensures k > |x| ==> r == x
  {
    var r := if k <= |x| then x[..k] else x;
    LowLimbs(x, k);
    r
  }

  lemma LowLimbs(x: seq<int>, k: nat)
    requires Digits(x)
    ensures Val(if k <= |x| then x[..k] else x) == Val(x) % Pow(k)
  {
    ValBound(x);
    if k <= |x| {
      var lo, hi, p := Val(x[..k]), Val(x[k..]), Pow(k);
      ValSplit(x, k);
      ValBound(x[..k]);
      assert Val(x) == hi * p + lo by {
        assert p * hi == hi * p;
      }
      DivModUnique(Val(x), p, hi, lo);
    } else {
      PowMono(|x|, k);
      DivModUnique(Val(x), Pow(k), 0, Val(x));
    }
  }

  /** Base^e as a limb array: e zero limbs and a one, as `_array_repeat` builds it. */
  lemma PowerLimbs(e: nat)
    ensures Normal(Zeros(e) + [1]) && Val(Zeros(e) + [1]) == Pow(e)
  {
    ValZerosThen(e, [1]);
    ValOneLimb(1);
  }

  /**
   * The Barrett factors of a modulus: `divide` of Base^e by n, giving
   * floor(Base^e / n) and Base^e mod n.
   */
  method PowerQuotient(n: seq<int>, e: nat) returns (mu: seq<int>, m1: seq<int>)
    requires Normal(n) && |n| > 0
    ensures Normal(mu) && Normal(m1) && Val(n) > 0
    ensures Val(mu) == Pow(e) / Val(n) && Val(m1) == Pow(e) % Val(n)
  {
    var lhs := Zeros(e) + [1];
    PowerLimbs(e);
    var muNeg;
    mu, muNeg, m1 := Divide(lhs, false, n, false);
  }

  // ---------------------------------------------------------------------
  // The quotient estimate of HAC 14.42

  lemma MulLeCancel(a: int, b: int, p: int)
    requires p > 0 && a * p <= b * p
    ensures a <= b
  {
    assert a * p < (b + 1) * p;
    MulLtCancel(a, b + 1, p);
  }

  lemma MulAssoc(a: int, b: int, c: int)
    ensures (a * b) * c == a * (b * c) == (a * c) * b
  {
  }

  /**
   * floor(floor(X / P) * floor(P·R / N) / R) never exceeds X / N: the
   * estimate only ever undershoots.
   */
  lemma EstimateAtMost(X: int, N: int, P: int, R: int, q1: int, mu: int, q: int)
    requires P >= 1 && R >= 1 && N >= 1 && X >= 0
    requires q1 == X / P && mu == (P * R) / N && q == (q1 * mu) / R
    ensures 0 <= q && q * N <= X
  {
    FloorDivBounds(X, P);
    FloorDivBounds(P * R, N);
    MulNonneg(q1, mu);
    FloorDivBounds(q1 * mu, R);
    MulNonneg(q, R);
    MulLe(q * R, q1 * mu, N, N);
    MulLe(q1, q1, mu * N, P * R);
    MulLe(q1 * P, X, R, R);
    MulAssoc(q, R, N);
    MulAssoc(q1, mu, N);
    MulAssoc(q1, P, R);
    assert (q * N) * R <= X * R;
    MulLeCancel(q * N, X, R);
  }

  lemma MulLtStrict(a: int, b: int, p: int)
    requires p > 0 && a < b
    ensures a * p < b * p
  {
    MulLe(0, b - a - 1, p, p);
    assert (b - a) * p == b * p - a * p;
  }

  /** Multiplying by a non-negative factor keeps an inequality. */
  lemma ScaleLe(c: int, a: int, b: int)
    requires c >= 0 && a <= b
    ensures c * a <= c * b
  {
    MulNonneg(c, b - a);
    assert c * (b - a) == c * b - c * a;
  }

  lemma Distribute(c: int, a: int, b: int, d: int)
    ensures c * (a - b + d) == c * a - c * b + c * d
  {
  }

  lemma ScaleFloor(q1: int, PR: int, N: int, mN: int)
    requires q1 >= 0 && mN >= PR - N + 1
    ensures q1 * mN >= q1 * PR - q1 * N + q1
  {
    ScaleLe(q1, PR - N + 1, mN);
    Distribute(q1, PR, N, 1);
  }

  lemma ScaleDividend(q1: int, P: int, R: int, X: int)
    requires R >= 0 && q1 * P >= X - P + 1
    ensures q1 * (P * R) >= R * X - P * R + R
  {
    ScaleLe(R, X - P + 1, q1 * P);
    Distribute(R, X, P, 1);
    MulAssoc(q1, P, R);
  }

  lemma ScaleBelow(q1: int, N: int, R: int)
    requires N >= 0 && q1 <= R - 1
    ensures q1 * N <= N * R - N
  {
    ScaleLe(N, q1, R - 1);
    Distribute(N, R, 1, 0);
  }

  /** The lower bound of q1·mu·N that the floor steps leave. */
  lemma EstimateProductLower(X: int, N: int, P: int, R: int, q1: int, mN: int)
    requires P >= 1 && R >= 1 && N >= P && q1 >= 0 && q1 < R
    requires q1 * P >= X - P + 1 && mN >= P * R - N + 1
    ensures q1 * mN > R * X - 2 * (N * R)
  {
    ScaleFloor(q1, P * R, N, mN);
    ScaleDividend(q1, P, R, X);
    ScaleBelow(q1, N, R);
    MulLe(P, N, R, R);
  }

  /**
   * When X < P·R and N >= P the estimate falls short of X / N by at most
   * two, so X − q·N < 3·N.
   */
  lemma EstimateAtLeast(X: int, N: int, P: int, R: int, q1: int, mu: int, q: int)
    requires P >= 1 && R >= 1 && N >= P && X >= 0 && X < P * R
    requires q1 == X / P && mu == (P * R) / N && q == (q1 * mu) / R
    ensures X < (q + 3) * N
  {
    FloorDivBounds(X, P);
    FloorDivBounds(P * R, N);
    MulNonneg(q1, mu);
    FloorDivBounds(q1 * mu, R);
    assert q1 < R by {
      assert q1 * P < R * P;
      MulLtCancel(q1, R, P);
    }
    assert q1 * P >= X - P + 1 && mu * N >= P * R - N + 1;
    EstimateProductLower(X, N, P, R, q1, mu * N);
    MulLtStrict(q1 * mu, (q + 1) * R, N);
    MulAssoc(q1, mu, N);
    MulAssoc(q + 1, R, N);
    Distribute(R, X, 2 * N, 0);
    assert (X - 2 * N) * R < ((q + 1) * N) * R;
    MulLtCancel(X - 2 * N, (q + 1) * N, R);
  }

  /**
   * The quotient estimate q̂3 of HAC 14.42 for a k-limb modulus:
   * floor(floor(X / Base^(k−1)) · floor(Base^2k / N) / Base^(k+1)).
   */
  function BarrettEstimate(X: int, N: int, k: nat): int
    requires N > 0 && k >= 1
  {
    ((X / Pow(k - 1)) * (Pow(2 * k) / N)) / Pow(k + 1)
  }

  lemma PowSplit(k: nat)
    requires k >= 1
    ensures Pow(2 * k) == Pow(k - 1) * Pow(k + 1) && Pow(k + 1) == Base * Pow(k)
  {
    PowAdd(k - 1, k + 1);
  }

  /**
   * The estimate step of `_regularBarrett`: drop the low k−1 limbs of x,
   * multiply by the Barrett factor, drop the low k+1 limbs of the product.
   */
  method BarrettQuotient(x: seq<int>, n: seq<int>, mu: seq<int>) returns (q: seq<int>)
    requires Normal(x) && Normal(n) && |n| > 0 && |x| <= 2 * |n|
    requires Normal(mu) && Val(n) > 0 && Val(mu) == Pow(2 * |n|) / Val(n)
    ensures Normal(q) && |q| <= |n| + 1
    ensures Val(q) == BarrettEstimate(Val(x), Val(n), |n|)
    ensures Val(q) * Val(n) <= Val(x) < (Val(q) + 3) * Val(n)
  {
    var k := |n|;
    var q1 := Above(x, k - 1);
    var q2 := MultiplyMagnitudes(q1, mu);
    q := Above(q2, k + 1);
    ValBound(x);
    ValNormalLower(n);
    BarrettChain(|x|, k, Val(x), Val(n), Val(q1), Val(mu), Val(q2), Val(q));
    NormalLength(q, k + 1);
    NormalLength(q, k + 1);
  }

  /** The bounds of the estimate for a k-limb modulus and an operand below Base^2k. */
  /** The three steps of the quotient estimate, on values. */
  lemma BarrettChain(lenX: nat, k: nat, X: int, N: int, Q1: int, MU: int, Q2: int, Q: int)
    requires k >= 1 && lenX <= 2 * k && 0 <= X < Pow(lenX) && N >= Pow(k - 1)
    requires MU == Pow(2 * k) / N && Q1 == X / Pow(k - 1) && Q2 == Q1 * MU && Q == Q2 / Pow(k + 1)
    ensures Q == BarrettEstimate(X, N, k) && Q < Pow(k + 1)
    ensures Q * N <= X < (Q + 3) * N
  {
    PowMono(lenX, 2 * k);
    EstimateWithin(X, N, k, Q1, MU, Q);
  }

  lemma EstimateWithin(X: int, N: int, k: nat, q1: int, mu: int, q: int)
    requires k >= 1 && 0 <= X < Pow(2 * k) && N >= Pow(k - 1)
    requires q1 == X / Pow(k - 1) && mu == Pow(2 * k) / N && q == (q1 * mu) / Pow(k + 1)
    ensures q == BarrettEstimate(X, N, k)
    ensures 0 <= q < Pow(k + 1) && q * N <= X < (q + 3) * N
  {
    PowSplit(k);
    var P, R := Pow(k - 1), Pow(k + 1);
    EstimateAtMost(X, N, P, R, q1, mu, q);
    EstimateAtLeast(X, N, P, R, q1, mu, q);
    ScaleLe(q, P, N);
    assert q * P < R * P;
    MulLtCancel(q, R, P);
  }

  // ---------------------------------------------------------------------
  // _regularBarrett

  /** Subtracting a multiple of m leaves the residue modulo m unchanged. */
  lemma ResidueAfterMultiple(a: int, q: int, m: int)
    requires m > 0
    ensures (a - q * m) % m == a % m
  {
    DivMod(a, m);
    DivModUnique(a - q * m, m, a / m - q, a % m);
  }

  /**
   * The low parts of a and b modulo m differ by a − b when that difference
   * lies in [0, m), after adding m back when the low part of a is smaller.
   */
  lemma LowDifference(a: int, b: int, m: int)
    requires m > 0 && 0 <= a - b < m
    ensures a % m >= b % m ==> a % m - b % m == a - b
    ensures a % m < b % m ==> a % m - b % m + m == a - b
  {
    DivMod(a, m);
    DivMod(b, m);
    var k := a / m - b / m;
    assert k * m == (a - b) - (a % m - b % m) by {
      assert a - b == k * m + (a % m - b % m);
    }
    if a % m >= b % m {
      assert k * m < 1 * m;
      MulLtCancel(k, 1, m);
      assert -1 * m < k * m;
      MulLtCancel(-1, k, m);
    } else {
      assert 0 * m < k * m;
      MulLtCancel(0, k, m);
      assert k * m < 2 * m;
      MulLtCancel(k, 2, m);
    }
  }

  /**
   * The remainder estimate of `_regularBarrett`: the low k+1 limbs of x
   * less the low k+1 limbs of q̂3·n (from `_multiplyLower`), with
   * Base^(k+1) added first when the first is smaller. It is exactly
   * x − q̂3·n. `result` is the slice of x's low k+1 limbs, required trimmed.
   */
  method EstimateRemainder(x: seq<int>, n: seq<int>, result: seq<int>) returns (r: seq<int>, rNeg: bool)
    requires Normal(x) && Normal(n) && |n| > 0 && |x| <= 2 * |n|
    requires Normal(result) && Val(result) == Val(x) % Pow(|n| + 1)
    ensures Normal(r) && (rNeg ==> |r| == 0) && Val(n) > 0
    ensures Val(r) == Val(x) - BarrettEstimate(Val(x), Val(n), |n|) * Val(n)
    ensures 0 <= Val(r) < 3 * Val(n)
  {
    var k := |n|;
    var mu, m1 := PowerQuotient(n, 2 * k);
    var q := BarrettQuotient(x, n, mu);
    var temp, tempNeg := MultiplyLower(q, false, n, false, k + 1);
    ghost var X, N, m := Val(x), Val(n), Pow(k + 1);
    ghost var D := X - Val(q) * N;
    assert 3 * N < m by {
      ValBound(n);
      PowSplit(k);
    }
    assert Normal(temp) && !tempNeg;
    assert Val(temp) == (Val(q) * N) % m;
    EstimateGap(X, Val(q), N, m);
    LowDifference(X, Val(q) * N, m);
    r, rNeg := LowLimbsDifference(result, temp, k, D);
  }

  /**
   * The end of the Barrett estimate: the low k+1 limbs of x minus those of
   * q·n, with Base^(k+1) added first when the subtraction would go below
   * zero. When the true difference d lies in [0, Base^(k+1)), this is d.
   */
  method LowLimbsDifference(result: seq<int>, temp: seq<int>, k: nat, ghost d: int) returns (r: seq<int>, rNeg: bool)
    requires Normal(result) && Normal(temp) && 0 <= d < Pow(k + 1)
    requires Val(result) >= Val(temp) ==> Val(result) - Val(temp) == d
    requires Val(result) < Val(temp) ==> Val(result) - Val(temp) + Pow(k + 1) == d
    ensures Normal(r) && (rNeg ==> |r| == 0) && Val(r) == d
  {
    var c := Compare(result, false, temp, false);
    OrderIsSignedOrder(result, false, temp, false);
    var lhs := result;
    if c < 0 {
      var corrector := Zeros(k + 1) + [1];
      PowerLimbs(k + 1);
      var lhsNeg;
      lhs, lhsNeg := AddLimbs(result, false, corrector, false);
      assert Val(lhs) == Val(result) + Pow(k + 1);
    }
    assert Normal(lhs);
    assert Val(lhs) - Val(temp) == d;
    NormalCountSound(lhs, temp);
    r, rNeg := SubtractLimbs(lhs, false, temp, false);
    if |lhs| == 0 {
      ValZeroIffEmpty(lhs);
      ValZeroIffEmpty(temp);
    } else {
      assert Signed(lhs, false) - Signed(temp, false) == d;
    }
  }

  /** An estimate q with q·N <= X < (q+3)·N leaves a difference below 3·N, so below m. */
  lemma EstimateGap(X: int, q: int, N: int, m: int)
    requires q * N <= X < (q + 3) * N && 3 * N < m
    ensures 0 <= X - q * N < 3 * N && X - q * N < m
  {
    assert (q + 3) * N == q * N + 3 * N;
  }

  /**
   * The closing loop of `_barrett`: subtract n while the remainder compares
   * at least n. The result is the residue.
   */
  method SubtractWhileAtLeast(r0: seq<int>, neg0: bool, n: seq<int>) returns (r: seq<int>)
    requires Normal(r0) && (neg0 ==> |r0| == 0) && Normal(n) && |n| > 0
    ensures Normal(r) && Val(n) > 0 && Val(r) == Val(r0) % Val(n)
  {
    ValZeroIffEmpty(n);
    ValBound(n);
    ValBound(r0);
    ghost var N := Val(n);
    r := r0;
    var neg := neg0;
    var c := Compare(r, neg, n, false);
    while c >= 0
      invariant Normal(r) && (neg ==> |r| == 0) && Val(r) % N == Val(r0) % N
      invariant c == Order(r, neg, n, false)
      decreases Val(r)
    {
      OrderIsSignedOrder(r, false, n, false);
      NormalCountSound(r, n);
      ghost var before := Val(r);
      r, neg := SubtractLimbs(r, neg, n, false);
      ResidueAfterMultiple(before, 1, N);
      ValBound(r);
      c := Compare(r, neg, n, false);
    }
    ValBound(r);
    if !neg {
      OrderIsSignedOrder(r, false, n, false);
    }
    DivModUnique(Val(r), N, 0, Val(r));
  }

  /** The residue that a loop stopping at `<= n` leaves: n in place of a non-zero multiple's 0. */
  function InclusiveResidue(v: int, m: int): int
    requires m > 0
  {
    if v > 0 && v % m == 0 then m else v % m
  }

  /** The inclusive residue is a residue of v, at most m. */
  lemma InclusiveResidueMod(v: int, m: int)
    requires m > 0
    ensures InclusiveResidue(v, m) % m == v % m && 0 <= InclusiveResidue(v, m) <= m
  {
    DivMod(v, m);
    DivModUnique(v % m, m, 0, v % m);
    DivModUnique(m, m, 1, 0);
  }

  /**
   * The closing loop of `_regularBarrett` as written: subtract n only while
   * the remainder compares greater than n. A remainder equal to n is kept.
   */
  method SubtractWhileAbove(r0: seq<int>, neg0: bool, n: seq<int>) returns (r: seq<int>)
    requires Normal(r0) && (neg0 ==> |r0| == 0) && Normal(n) && |n| > 0
    ensures Normal(r) && Val(r0) >= 0
    ensures Val(n) > 0 && Val(r) == InclusiveResidue(Val(r0), Val(n))
  {
    ValZeroIffEmpty(n);
    ValBound(n);
    ValBound(r0);
    ghost var N := Val(n);
    r := r0;
    var neg := neg0;
    var c := Compare(r, neg, n, false);
    while c > 0
      invariant Normal(r) && (neg ==> |r| == 0)
      invariant Val(r) >= 0 && InclusiveResidue(Val(r), N) == InclusiveResidue(Val(r0), N)
      invariant c == Order(r, neg, n, false)
      decreases Val(r)
    {
      OrderIsSignedOrder(r, false, n, false);
      NormalCountSound(r, n);
      ghost var before := Val(r);
      r, neg := SubtractLimbs(r, neg, n, false);
      ResidueAfterMultiple(before, 1, N);
      ValBound(r);
      c := Compare(r, neg, n, false);
    }
    if !neg {
      OrderIsSignedOrder(r, false, n, false);
    }
    if Val(r) < N {
      DivModUnique(Val(r), N, 0, Val(r));
    } else {
      DivModUnique(Val(r), N, 1, 0);
    }
  }

  /**
   * `_regularBarrett` with the two corrections the model uses: the slice of
   * the low k+1 limbs is trimmed before it is compared, and the closing loop
   * runs while the remainder is at least n. The result is x mod n.
   */
  method RegularBarrett(x: seq<int>, n: seq<int>) returns (r: seq<int>)
    requires Normal(x) && Normal(n) && |n| > 0
    ensures Normal(r) && Val(n) > 0 && Val(r) == Val(x) % Val(n)
  {
    if |x| > 2 * |n| {
      var q, qNeg;
      q, qNeg, r := Divide(x, false, n, false);
      return;
    }
    var result := Trim(Below(x, |n| + 1));
    var diff, diffNeg := EstimateRemainder(x, n, result);
    ResidueAfterMultiple(Val(x), BarrettEstimate(Val(x), Val(n), |n|), Val(n));
    r := SubtractWhileAtLeast(diff, diffNeg, n);
  }

  /**
   * `_regularBarrett` as written, on inputs whose low k+1 limbs end in a
   * non-zero limb (otherwise the untrimmed slice can be misordered; see
   * `UntrimmedSliceExample`). Its closing loop stops at `<= n`, so an
   * estimate that lands on a non-zero multiple of n returns n instead of 0.
   */
  method RegularBarrettAsWritten(x: seq<int>, n: seq<int>) returns (r: seq<int>)
    requires Normal(x) && Normal(n) && |n| > 0
    requires |x| > 2 * |n| || |x| <= |n| + 1 || x[|n|] != 0
    ensures Normal(r)
    ensures Val(n) > 0 && |x| > 2 * |n| ==> Val(r) == Val(x) % Val(n)
    ensures Val(n) > 0 && |x| <= 2 * |n| ==>
      Val(r) == InclusiveResidue(Val(x) - BarrettEstimate(Val(x), Val(n), |n|) * Val(n), Val(n))
    ensures Val(n) > 0 && Val(r) % Val(n) == Val(x) % Val(n) && Val(r) <= Val(n)
  {
    ValZeroIffEmpty(n);
    if |x| > 2 * |n| {
      var q, qNeg;
      q, qNeg, r := Divide(x, false, n, false);
      DivModUnique(Val(r), Val(n), 0, Val(r));
      return;
    }
    var result := Below(x, |n| + 1);
    var diff, diffNeg := EstimateRemainder(x, n, result);
    r := SubtractWhileAbove(diff, diffNeg, n);
    ResidueAfterMultiple(Val(x), BarrettEstimate(Val(x), Val(n), |n|), Val(n));
    InclusiveResidueMod(Val(diff), Val(n));
  }

  lemma SmallPowers()
    ensures Pow(0) == 1 && Pow(1) == Base && Pow(2) == Base * Base
    ensures Pow(3) == Base * Base * Base && Pow(4) == Base * Base * Base * Base
  {
  }

  /**
   * `_regularBarrett(3, 3)`: the estimate q̂3 is 0, the remainder 3 equals n
   * and the loop guard `> 0` keeps it, so the as-written reduction returns 3
   * where 3 mod 3 is 0; the corrected one returns 0.
   */
  method RegularBarrettExamples() returns (asWritten: seq<int>, corrected: seq<int>)
    ensures Val(asWritten) == 3 && Val([3]) % Val([3]) == 0
    ensures corrected == []
  {
    ValOneLimb(3);
    SmallPowers();
    assert BarrettEstimate(3, 3, 1) == 0 by {
      assert (Pow(2) / 3) * 3 < Pow(2);
    }
    asWritten := RegularBarrettAsWritten([3], [3]);
    corrected := RegularBarrett([3], [3]);
    ValZeroIffEmpty(corrected);
  }

  /**
   * The operands of the untrimmed-slice case: x = 2·Base^3 = 2^94 (the
   * square of 2^47) and n = 2^30·Base = 2^61.
   */
  lemma SliceOperands()
    ensures Normal([0, 0, 0, 2]) && Val([0, 0, 0, 2]) == 2 * Pow(3)
    ensures Normal([0, Msb]) && Val([0, Msb]) == Msb * Base
  {
    ValOneLimb(2);
    ValOneLimb(Msb);
    assert [0, 0, 0, 2][1..] == [0, 0, 2];
    assert [0, 0, 2][1..] == [0, 2];
    assert [0, 2][1..] == [2];
    assert [0, Msb][1..] == [Msb];
  }

  /**
   * `_regularBarrett` as written on x = 2^94, n = 2^61: the estimate is
   * exact, so the low three limbs of q̂3·n are all zero and `_multiplyLower`
   * returns no limbs. `_subtract` then returns the untrimmed slice [0, 0, 0]
   * unchanged; `_compare` ranks it above n by its limb count although its
   * value is 0, and the closing `_subtract` — whose borrow needs the
   * opposite order — runs its borrow past the top limb.
   */
  method UntrimmedSliceExample() returns (slice: seq<int>, temp: seq<int>, diff: seq<int>, c: int)
    ensures slice == [0, 0, 0] && temp == [] && diff == slice
    ensures c > 0 && Val(diff) < Val([0, Msb]) && !CountSound(diff, [0, Msb])
  {
    var x, n := [0, 0, 0, 2], [0, Msb];
    SliceOperands();
    SmallPowers();
    var mu, m1 := PowerQuotient(n, 4);
    var q := BarrettQuotient(x, n, mu);
    assert Val(q) == 0x2_0000_0000 by {
      assert Val(x) / Pow(1) == 2 * Base * Base;
      assert Pow(4) / Val(n) == 0x8000_0000_0000_0000;
    }
    var tempNeg;
    temp, tempNeg := MultiplyLower(q, false, n, false, 3);
    assert Val(temp) == 0 by {
      assert (Val(q) * Val(n)) % Pow(3) == 0;
    }
    ValZeroIffEmpty(temp);
    slice := Below(x, 3);
    var diffNeg;
    diff, diffNeg := SubtractLimbs(slice, false, temp, false);
    ValOfZeros(diff);
    c := Compare(diff, false, n, false);
  }

  // ---------------------------------------------------------------------
  // _barrett

  /**
   * Folding: with Base^c = u·n + m1, the low c limbs plus m1 times the
   * limbs above them is congruent to x modulo n.
   */
  lemma FoldCongruent(X: int, lsd: int, msd: int, pc: int, u: int, m1: int, N: int)
    requires N > 0 && pc > 0 && lsd == X % pc && msd == X / pc && pc == u * N + m1
    ensures (lsd + msd * m1) % N == X % N
  {
    var k := msd * u;
    var folded := lsd + msd * m1;
    assert folded == X - k * N by {
      FoldSplit(X, lsd, msd, pc, u, m1, N);
    }
    ResidueAfterMultiple(X, k, N);
  }

  /** X = lsd + msd·pc with pc = u·N + m1 is lsd + msd·m1 plus (msd·u)·N. */
  lemma FoldSplit(X: int, lsd: int, msd: int, pc: int, u: int, m1: int, N: int)
    requires pc > 0 && lsd == X % pc && msd == X / pc && pc == u * N + m1
    ensures lsd + msd * m1 == X - (msd * u) * N
  {
    DivMod(X, pc);
    calc {
      X;
      msd * pc + lsd;
      msd * (u * N + m1) + lsd;
      { MulAssoc(msd, u, N); }
      (msd * u) * N + msd * m1 + lsd;
    }
  }

  /**
   * `_barrett`: x mod n. Operands longer than twice the modulus go to
   * `divide`, moduli under five limbs to `_regularBarrett`. Otherwise the
   * limbs above position k + k/2 are folded down through Base^(k+k/2) mod n;
   * an odd-length modulus then goes to `_regularBarrett`, an even one takes
   * a Barrett estimate with half-length factors and subtracts n while the
   * remainder is at least n.
   */
  method Barrett(x: seq<int>, n: seq<int>) returns (r: seq<int>)
    requires Normal(x) && Normal(n) && |n| > 0
    ensures Normal(r) && Val(n) > 0 && Val(r) == Val(x) % Val(n)
  {
    var k := |n|;
    if |x| > 2 * k {
      var q, qNeg;
      q, qNeg, r := Divide(x, false, n, false);
      return;
    }
    if k < 5 {
      r := RegularBarrett(x, n);
      return;
    }
    var cutoff := k + k / 2;
    var u, m1 := PowerQuotient(n, cutoff);
    var folded := Fold(x, n, cutoff, m1);
    if k % 2 == 1 {
      r := RegularBarrett(folded, n);
      return;
    }
    r := HalfEstimate(folded, n, u);
  }

  /**
   * The folding step of `_barrett`: the low `cutoff` limbs (trimmed) plus
   * the limbs above them times Base^cutoff mod n.
   */
  method Fold(x: seq<int>, n: seq<int>, cutoff: nat, m1: seq<int>) returns (folded: seq<int>)
    requires Normal(x) && Normal(n) && |n| > 0 && Normal(m1)
    requires Val(n) > 0 && Val(m1) == Pow(cutoff) % Val(n)
    ensures Normal(folded) && Val(folded) % Val(n) == Val(x) % Val(n)
  {
    var lsd := Trim(Below(x, cutoff));
    var msd := Above(x, cutoff);
    var product := MultiplyMagnitudes(msd, m1);
    var foldedNeg;
    folded, foldedNeg := AddLimbs(lsd, false, product, false);
    DivMod(Pow(cutoff), Val(n));
    FoldCongruent(Val(x), Val(lsd), Val(msd), Pow(cutoff), Pow(cutoff) / Val(n), Val(m1), Val(n));
  }

  /**
   * The even-length branch of `_barrett`: the estimate
   * floor(floor(y / Base^(k−1)) · u / Base^(k/2+1)) with u = floor(Base^(k+k/2) / n)
   * never exceeds y / n, so y less that multiple of n is a non-negative
   * number congruent to y, which the closing loop reduces below n.
   */
  method HalfEstimate(folded: seq<int>, n: seq<int>, u: seq<int>) returns (r: seq<int>)
    requires Normal(folded) && Normal(n) && |n| > 0 && Normal(u)
    requires Val(n) > 0 && Val(u) == Pow(|n| + |n| / 2) / Val(n)
    ensures Normal(r) && Val(r) == Val(folded) % Val(n)
  {
    var k := |n|;
    ghost var N := Val(n);
    var t := Above(folded, k - 1);
    t := MultiplyMagnitudes(t, u);
    t := Above(t, k / 2 + 1);
    ghost var q := Val(t);
    assert q * N <= Val(folded) by {
      PowAdd(k - 1, k / 2 + 1);
      ValBound(folded);
      EstimateAtMost(Val(folded), N, Pow(k - 1), Pow(k / 2 + 1), Val(folded) / Pow(k - 1), Val(u), q);
    }
    t := MultiplyMagnitudes(t, n);
    NormalCountSound(folded, t);
    var diff, diffNeg := SubtractLimbs(folded, false, t, false);
    if |folded| == 0 {
      ValZeroIffEmpty(t);
    }
    ResidueAfterMultiple(Val(folded), q, N);
    r := SubtractWhileAtLeast(diff, diffNeg, n);
  }
}

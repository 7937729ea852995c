/**
 * Multiplication of limb arrays: `_regularMultiply` (schoolbook),
 * `_karatsuba`, `_multiply`, the squaring family `_baseSquare`,
 * `_karatsubaSquare`, `_square`, and the truncated `_multiplyLower` used by
 * Barrett reduction.
 */
module LimbMul {
  import opened Bits
  import opened Limbs
  import opened LimbAdd

  // ---------------------------------------------------------------------
  // Arithmetic facts used by the row loops
  // ---------------------------------------------------------------------

  lemma DigitProduct(a: int, b: int)
    requires IsDigit(a) && IsDigit(b)
    ensures 0 <= a * b <= MaxDigit * MaxDigit
  {
    MulNonneg(a, b);
    MulNonneg(a, MaxDigit - b);
    MulNonneg(MaxDigit - a, MaxDigit);
  }

  /** A row step never produces a carry of Base or more. */
  lemma RowCarryBound(p: int, a: int, b: int, carry: int)
    requires IsDigit(p) && IsDigit(a) && IsDigit(b) && IsDigit(carry)
    ensures 0 <= p + a * b + carry < Base * Base
  {
    DigitProduct(a, b);
  }

  /** The arithmetic of one row step, over plain integers. */
  lemma RowStepArith(v: int, pkv: int, base: int, lo: int, xj: int, f: int,
                     carry: int, c: int, low: int, pi: int, pj: int)
    requires v + carry * (pi * pj) == base + lo * f * pi
    requires low + Base * c == pkv + xj * f + carry
    ensures v + (low - pkv) * (pi * pj) + c * (Base * (pi * pj)) == base + (lo + xj * pj) * f * pi
  {
    var pk := pi * pj;
    calc {
      v + (low - pkv) * pk + c * (Base * pk);
      v + (low + Base * c - pkv) * pk;
      v + (xj * f + carry) * pk;
      v + carry * pk + xj * f * pk;
      base + lo * f * pi + xj * f * (pi * pj);
      base + (lo + xj * pj) * f * pi;
    }
  }

  /**
   * One step of a row: limb x[j] times the factor f, plus the carry, is
   * added at position i + j.
   */
  lemma RowStep(p: seq<int>, base: int, x: seq<int>, f: int, i: nat, j: nat,
                carry: int, c: int, low: int)
    requires j < |x| && i + j < |p|
    requires Val(p) + carry * Pow(i + j) == base + Val(x[..j]) * f * Pow(i)
    requires low + Base * c == p[i + j] + x[j] * f + carry
    ensures Val(p[i + j := low]) + c * Pow(i + j + 1) == base + Val(x[..j + 1]) * f * Pow(i)
  {
    ValUpdate(p, i + j, low);
    PowAdd(i, j);
    ValPrefixStep(x, j);
    RowStepArith(Val(p), p[i + j], base, Val(x[..j]), x[j], f, carry, c, low, Pow(i), Pow(j));
  }

  /** The arithmetic of `RowRest`, over plain integers. */
  lemma RowRestArith(lhs: int, base: int, carry: int, lo: int, rest: int, f: int, pi: int, pj: int)
    requires lhs + carry * (pi * pj) == base + lo * f * pi
    ensures lhs + (carry + rest * f) * (pi * pj) == base + (lo + pj * rest) * f * pi
  {
  }

  /**
   * What is left of a row when it stops at position k = i + j: the unwritten
   * carry and the unprocessed limbs x[j..], in units of Base^k.
   */
  lemma RowRest(x: seq<int>, f: int, i: nat, j: nat, lhs: int, base: int, carry: int)
    requires j <= |x|
    requires lhs + carry * Pow(i + j) == base + Val(x[..j]) * f * Pow(i)
    ensures lhs + (carry + Val(x[j..]) * f) * Pow(i + j) == base + Val(x) * f * Pow(i)
  {
    ValSplit(x, j);
    PowAdd(i, j);
    RowRestArith(lhs, base, carry, Val(x[..j]), Val(x[j..]), f, Pow(i), Pow(j));
  }

  /** Rescales a quantity counted in units of Base^k to units of Base^stop. */
  lemma Rescale(q: int, stop: nat, k: nat)
    requires stop <= k
    ensures Pow(stop) * (q * Pow(k - stop)) == q * Pow(k)
  {
    PowAdd(stop, k - stop);
    var a, b := Pow(stop), Pow(k - stop);
    assert a * (q * b) == q * (a * b);
  }

  // ---------------------------------------------------------------------
  // The rows of the schoolbook product
  // ---------------------------------------------------------------------

  /**
   * The first row (i = 0) of `_regularMultiply` and `_multiplyLower`: every
   * limb of x * d is written, and the final carry only when its position is
   * below `stop`. What is not written is `dropped`, in units of Base^stop.
   */
  method FirstRow(x: seq<int>, d: int, len: nat, stop: nat) returns (p: seq<int>, ghost dropped: int)
    requires Digits(x) && IsDigit(d) && |x| < len
    ensures |p| == len && Digits(p)
    ensures forall k :: |x| < k < len ==> p[k] == 0
    ensures |x| >= stop ==> p[|x|] == 0
    ensures Val(p) + Pow(stop) * dropped == Val(x) * d
    ensures |x| < stop ==> dropped == 0
    ensures dropped >= 0
  {
    p := Zeros(len);
    ValOfZeros(p);
    var carry := 0;
    var j := 0;
    while j < |x|
      invariant 0 <= j <= |x| && |p| == len && Digits(p)
      invariant IsDigit(carry)
      invariant forall k :: j <= k < len ==> p[k] == 0
      invariant Val(p) + carry * Pow(0 + j) == 0 + Val(x[..j]) * d * Pow(0)
    {
      RowCarryBound(p[j], x[j], d, carry);
      var temp := x[j] * d + carry;
      var c := temp / Base;
      var low := temp - Base * c;
      RowStep(p, 0, x, d, 0, j, carry, c, low);
      p := p[j := low];
      carry := c;
      j := j + 1;
    }
    assert x[..j] == x;
    if j < stop {
      ValUpdate(p, j, carry);
      p := p[j := carry];
      dropped := 0;
    } else {
      Rescale(carry, stop, j);
      dropped := carry * Pow(j - stop);
      MulNonneg(carry, Pow(j - stop));
    }
  }

  /**
   * A later row (i >= 1): adds x * d at limb position i, writing only
   * positions below `stop`; the rest of the row is `dropped`, in units of
   * Base^stop.
   */
  method AddRow(p0: seq<int>, x: seq<int>, d: int, i: nat, stop: nat) returns (p: seq<int>, ghost dropped: int)
    requires Digits(p0) && Digits(x) && IsDigit(d)
    requires i + |x| < |p0| && (i + |x| < stop ==> p0[i + |x|] == 0)
    ensures |p| == |p0| && Digits(p)
    ensures forall k :: 0 <= k < |p| && (k < i || k > i + |x| || k >= stop) ==> p[k] == p0[k]
    ensures Val(p) + Pow(stop) * dropped == Val(p0) + Val(x) * d * Pow(i)
    ensures i + |x| < stop ==> dropped == 0
    ensures dropped >= 0
  {
    p := p0;
    var carry := 0;
    var j, k := 0, i;
    while j < |x| && k < stop
      invariant 0 <= j <= |x| && k == i + j && |p| == |p0| && Digits(p)
      invariant IsDigit(carry)
      invariant forall m :: 0 <= m < |p| && (m < i || m >= k || m >= stop) ==> p[m] == p0[m]
      invariant Val(p) + carry * Pow(i + j) == Val(p0) + Val(x[..j]) * d * Pow(i)
    {
      RowCarryBound(p[k], x[j], d, carry);
      var temp := p[k] + x[j] * d + carry;
      var c := temp / Base;
      var low := temp - Base * c;
      RowStep(p, Val(p0), x, d, i, j, carry, c, low);
      p := p[k := low];
      carry := c;
      j, k := j + 1, k + 1;
    }
    if k < stop {
      assert j == |x| && x[..j] == x;
      ValUpdate(p, k, carry);
      p := p[k := carry];
      dropped := 0;
    } else {
      RowRest(x, d, i, j, Val(p), Val(p0), carry);
      ValBound(x[j..]);
      MulNonneg(Val(x[j..]), d);
      Rescale(carry + Val(x[j..]) * d, stop, k);
      dropped := (carry + Val(x[j..]) * d) * Pow(k - stop);
      MulNonneg(carry + Val(x[j..]) * d, Pow(k - stop));
    }
  }

  // ---------------------------------------------------------------------
  // _regularMultiply
  // ---------------------------------------------------------------------

  lemma Distribute(a: int, lo: int, d: int, p: int)
    ensures a * lo + a * d * p == a * (lo + d * p)
  {
  }

  /**
   * The row loops shared by `_regularMultiply` and `_multiplyLower` (a is
   * the longer operand): no limb at or above `stop` is written after the
   * first row, and what is not written is `dropped`, in units of Base^stop.
   */
  method Rows(a: seq<int>, b: seq<int>, stop: nat) returns (product: seq<int>, ghost dropped: int)
    requires Digits(a) && Digits(b) && 0 < |b| <= |a|
    ensures |product| == |a| + |b| && Digits(product) && dropped >= 0
    ensures Val(product) + Pow(stop) * dropped == Val(a) * Val(b)
    ensures |a| <= stop ==> forall k :: stop <= k < |product| ==> product[k] == 0
    ensures |a| + |b| <= stop ==> dropped == 0
  {
    var len := |a| + |b|;
    ghost var more;
    product, dropped := FirstRow(a, b[0], len, stop);
    ValPrefixStep(b, 0);
    var i := 1;
    while i < |b|
      invariant 1 <= i <= |b| && |product| == len && Digits(product) && dropped >= 0
      invariant forall k :: i + |a| <= k < len ==> product[k] == 0
      invariant |a| <= stop ==> forall k :: stop <= k < len ==> product[k] == 0
      invariant len <= stop ==> dropped == 0
      invariant Val(product) + Pow(stop) * dropped == Val(a) * Val(b[..i])
    {
      product, more := AddRow(product, a, b[i], i, stop);
      ValPrefixStep(b, i);
      Distribute(Val(a), Val(b[..i]), b[i], Pow(i));
      dropped := dropped + more;
      i := i + 1;
    }
    assert b[..i] == b;
  }

  /** Schoolbook multiplication: the untrimmed |x| + |y| limbs of x * y. */
  method RegularMultiply(x: seq<int>, y: seq<int>) returns (product: seq<int>)
    requires Digits(x) && Digits(y)
    ensures Digits(product)
    ensures |x| == 0 || |y| == 0 ==> product == []
    ensures |x| > 0 && |y| > 0 ==> |product| == |x| + |y|
    ensures Val(product) == Val(x) * Val(y)
  {
    if |x| == 0 || |y| == 0 {
      return [];
    }
    var a, b := x, y;
    if |a| < |b| {
      a, b := y, x;
    }
    ghost var dropped;
    product, dropped := Rows(a, b, |a| + |b|);
  }

  // ---------------------------------------------------------------------
  // _karatsuba
  // ---------------------------------------------------------------------

  /** A normal array below Base^k has at most k limbs. */
  lemma NormalLength(s: seq<int>, k: nat)
    requires Normal(s) && Val(s) < Pow(k)
    ensures |s| <= k
  {
    if |s| > k {
      ValNormalLower(s);
      PowMono(k, |s| - 1);
    }
  }

  /** The sum of the two halves fits in one limb more than the high half. */
  lemma HalfSumLength(s: seq<int>, hi: seq<int>, lo: seq<int>)
    requires Normal(s) && Digits(hi) && Digits(lo) && |lo| <= |hi|
    requires Val(s) == Val(hi) + Val(lo)
    ensures |s| <= |hi| + 1
  {
    ValBound(hi);
    ValBound(lo);
    PowMono(|lo|, |hi|);
    NormalLength(s, |hi| + 1);
  }

  /** The Karatsuba identity, with p = Base^m. */
  lemma KaratsubaIdentity(r: int, x: int, y: int, x0: int, x1: int, y0: int, y1: int,
                          a: int, b: int, z1: int, z2: int, z0: int, d: int, p: int)
    requires x == x0 + p * x1 && y == y0 + p * y1
    requires a == x1 + x0 && b == y1 + y0
    requires z2 == x1 * y1 && z0 == x0 * y0 && z1 == a * b && d == z1 - z2 - z0
    requires r == p * p * z2 + p * d + z0
    ensures r == x * y
  {
  }

  lemma MiddleTermNonneg(a: int, b: int, x0: int, x1: int, y0: int, y1: int)
    requires x0 >= 0 && x1 >= 0 && y0 >= 0 && y1 >= 0
    requires a == x1 + x0 && b == y1 + y0
    ensures a * b >= x1 * y1 + x0 * y0
  {
    MulNonneg(x1, y0);
    MulNonneg(x0, y1);
  }

  /**
   * The middle coefficient of Karatsuba: z1 - (z2 + z0), computed with
   * `_add` and `_subtract` as the source does. It is never negative, so a
   * negative flag can only come with an empty magnitude.
   */
  method MiddleTerm(z1: seq<int>, z2: seq<int>, z0: seq<int>) returns (d: seq<int>, dNeg: bool)
    requires Digits(z1) && Digits(z2) && Digits(z0) && |z2| > 0 && |z0| > 0
    requires Val(z1) >= Val(z2) + Val(z0)
    ensures Digits(d) && Val(d) == Val(z1) - Val(z2) - Val(z0)
    ensures dNeg ==> |d| == 0
  {
    var t, _ := AddLimbs(z2, false, z0, false);
    AtLeastNormalCountSound(z1, t);
    d, dNeg := SubtractLimbs(z1, false, t, false);
    ValBound(d);
    if dNeg {
      ValZeroIffEmpty(t);
      ValZeroIffEmpty(d);
    }
  }

  /**
   * The final assembly of Karatsuba: z2 shifted by 2m limbs, plus the middle
   * term shifted by m limbs, plus z0.
   */
  method Assemble(z2: seq<int>, d: seq<int>, dNeg: bool, z0: seq<int>, m: nat) returns (r: seq<int>)
    requires Digits(z2) && Digits(d) && Digits(z0) && |z0| > 0 && m > 0
    requires dNeg ==> |d| == 0
    ensures Digits(r) && |r| > 0
    ensures Val(r) == Pow(m) * Pow(m) * Val(z2) + Pow(m) * Val(d) + Val(z0)
  {
    var z2s := Zeros(2 * m) + z2;
    var ds := Zeros(m) + d;
    ValZerosThen(2 * m, z2);
    ValZerosThen(m, d);
    PowAdd(m, m);
    ValBound(z2s);
    ValBound(ds);
    assert Val(z2s) == Pow(m) * Pow(m) * Val(z2);
    assert Signed(ds, dNeg) == Pow(m) * Val(d);
    ghost var top := Val(z2s) + Val(ds);
    var xy, xyNeg := AddLimbs(z2s, false, ds, dNeg);
    assert Signed(xy, xyNeg) == top;
    assert xyNeg ==> |xy| == 0 by {
      if xyNeg {
        ValBound(xy);
        ValZeroIffEmpty(xy);
      }
    }
    ValBound(z0);
    var rNeg;
    r, rNeg := AddLimbs(xy, xyNeg, z0, false);
    ValBound(r);
    if |xy| > 0 {
      ValZeroIffEmpty(xy);
    }
  }

  /**
   * Karatsuba multiplication of two digit arrays (which may carry
   * most-significant zero limbs, as the low halves do). The result is x * y
   * and is nonempty whenever both operands are.
   */
  method Karatsuba(x: seq<int>, y: seq<int>) returns (r: seq<int>)
    requires Digits(x) && Digits(y)
    ensures Digits(r)
    ensures Val(r) == Val(x) * Val(y)
    ensures |x| > 0 && |y| > 0 ==> |r| > 0
    decreases |x| + |y|
  {
    var m := if |x| / 2 < |y| / 2 then |x| / 2 else |y| / 2;
    if m < KaratsubaCutoff {
      r := RegularMultiply(x, y);
      return;
    }
    var x1, x0 := x[m..], x[..m];
    var y1, y0 := y[m..], y[..m];
    ValBound(x0); ValBound(x1); ValBound(y0); ValBound(y1);

    var z2 := Karatsuba(x1, y1);
    var z0 := Karatsuba(x0, y0);

    var s1, _ := AddLimbs(x1, false, x0, false);
    var s2, _ := AddLimbs(y1, false, y0, false);
    HalfSumLength(s1, x1, x0);
    HalfSumLength(s2, y1, y0);
    var z1 := Karatsuba(s1, s2);
    MiddleTermNonneg(Val(s1), Val(s2), Val(x0), Val(x1), Val(y0), Val(y1));
    var d, dNeg := MiddleTerm(z1, z2, z0);
    r := Assemble(z2, d, dNeg, z0, m);

    ValSplit(x, m);
    ValSplit(y, m);
    KaratsubaIdentity(Val(r), Val(x), Val(y), Val(x0), Val(x1), Val(y0), Val(y1),
                      Val(s1), Val(s2), Val(z1), Val(z2), Val(z0), Val(d), Pow(m));
  }

  // ---------------------------------------------------------------------
  // _multiply
  // ---------------------------------------------------------------------

  lemma SignedProduct(a: int, b: int, aNeg: bool, bNeg: bool)
    ensures (if aNeg then -a else a) * (if bNeg then -b else b) == (if aNeg != bNeg then -(a * b) else a * b)
  {
  }

  /**
   * `_multiply`: a zero operand gives an empty, positive product; otherwise
   * the trimmed product of the schoolbook or the Karatsuba path, with sign
   * xNeg != yNeg. Both paths yield the same limbs: the only normal array
   * of value |x| * |y|.
   */
  method Multiply(x: seq<int>, xNeg: bool, y: seq<int>, yNeg: bool) returns (r: seq<int>, rNeg: bool)
    requires Digits(x) && Digits(y)
    ensures Val(x) * Val(y) >= 0 && r == ToLimbs(Val(x) * Val(y))
    ensures rNeg <==> |x| > 0 && |y| > 0 && xNeg != yNeg
    ensures Signed(r, rNeg) == Signed(x, xNeg) * Signed(y, yNeg)
  {
    ValBound(x);
    ValBound(y);
    MulNonneg(Val(x), Val(y));
    if |x| == 0 || |y| == 0 {
      r, rNeg := [], false;
    } else {
      var full;
      if (if |x| < |y| then |x| else |y|) < 2 * KaratsubaCutoff {
        full := RegularMultiply(x, y);
      } else {
        full := Karatsuba(x, y);
      }
      r := Trim(full);
      rNeg := xNeg != yNeg;
      NormalIsToLimbs(r);
    }
    SignedLimbsProduct(x, xNeg, y, yNeg, r, rNeg);
  }

  /** `_multiply` as its internal callers use it, with both signs clear: the normal product. */
  method MultiplyMagnitudes(x: seq<int>, y: seq<int>) returns (r: seq<int>)
    requires Digits(x) && Digits(y)
    ensures Normal(r) && Val(r) == Val(x) * Val(y)
  {
    var rNeg;
    r, rNeg := Multiply(x, false, y, false);
  }

  /** The limbs of |x|·|y| with the sign xNeg != yNeg stand for the signed product. */
  lemma SignedLimbsProduct(x: seq<int>, xNeg: bool, y: seq<int>, yNeg: bool, r: seq<int>, rNeg: bool)
    requires Digits(x) && Digits(y) && Val(x) * Val(y) >= 0 && r == ToLimbs(Val(x) * Val(y))
    requires rNeg <==> |x| > 0 && |y| > 0 && xNeg != yNeg
    ensures Signed(r, rNeg) == Signed(x, xNeg) * Signed(y, yNeg)
  {
    SignedProduct(Val(x), Val(y), xNeg, yNeg);
  }

  // ---------------------------------------------------------------------
  // _baseSquare
  // ---------------------------------------------------------------------

  /** Writing low at position k and carrying c adds `add` at position k. */
  lemma CellStep(p: seq<int>, k: nat, low: int, c: int, add: int)
    requires k < |p| && low + Base * c == p[k] + add
    ensures Val(p[k := low]) + c * Pow(k + 1) == Val(p) + add * Pow(k)
  {
    ValUpdate(p, k, low);
    var pk := Pow(k);
    assert Pow(k + 1) == Base * pk;
    assert c * (Base * pk) == (Base * c) * pk;
    MulSub(low + Base * c, p[k], pk);
  }

  /**
   * How one row of `_baseSquare` moves the running value: with l the value
   * of the limbs squared so far, w the next limb in place and t the whole
   * value, l^2 + 2 l (t - l) grows by w^2 + 2 w (t - l - w).
   */
  lemma SquareRowIdentity(l: int, w: int, t: int)
    ensures l * l + 2 * l * (t - l) + (w * w + 2 * w * (t - (l + w)))
         == (l + w) * (l + w) + 2 * (l + w) * (t - (l + w))
  {
  }

  lemma DiagonalScale(vi: int, p: int, p2: int)
    requires p2 == p * p
    ensures vi * vi * p2 == (vi * p) * (vi * p)
  {
  }

  lemma CrossScale(a: int, b: int, vi: int, p: int)
    ensures a * (2 * vi) * p - b * (2 * vi) * p == 2 * (vi * p) * (a - b)
  {
  }

  /** The limb shape between two rows of `_baseSquare`: only position `top` may exceed a digit. */
  predicate SquareShape(sq: seq<int>, top: nat)
  {
    top < |sq| && sq[top] >= 0
    && (forall k :: 0 <= k < |sq| && k != top ==> IsDigit(sq[k]))
    && (forall k :: top < k < |sq| ==> sq[k] == 0)
  }

  /** One cell of `_baseSquare`: the new limb is a digit and the carry is not negative. */
  lemma SquareCell(old_: int, add: int, carry: int)
    requires old_ >= 0 && add >= 0 && carry >= 0
    ensures (old_ + add + carry) / Base >= 0
    ensures IsDigit(old_ + add + carry - Base * ((old_ + add + carry) / Base))
  {
  }

  lemma DoubledCross(vj: int, vi: int)
    requires vj >= 0 && vi >= 0
    ensures 2 * vj * vi == vj * (2 * vi) && 2 * vj * vi >= 0
  {
    MulNonneg(vj, vi);
  }

  /**
   * The inner loop of row i of `_baseSquare`: the doubled cross terms
   * 2 v[j] v[i] for j > i, added from position 2i + 1 on.
   */
  method CrossTerms(sq1: seq<int>, v: seq<int>, i: nat, carry0: int, ghost base: int)
    returns (sq: seq<int>, carry: int)
    requires Digits(v) && i < |v| && |sq1| == 2 * |v| && carry0 >= 0
    requires forall m :: 0 <= m < |sq1| && (m <= 2 * i || m != i + |v| - 1) ==> IsDigit(sq1[m])
    requires sq1[i + |v| - 1] >= 0
    requires Val(sq1) + carry0 * Pow(i + (i + 1)) == base + Val(v[..i + 1]) * (2 * v[i]) * Pow(i)
    ensures |sq| == |sq1| && carry >= 0
    ensures forall m :: 0 <= m < i + |v| ==> IsDigit(sq[m])
    ensures forall m :: i + |v| <= m < |sq| ==> sq[m] == sq1[m]
    ensures Val(sq) + carry * Pow(i + |v|) == base + Val(v) * (2 * v[i]) * Pow(i)
  {
    var max := |v| - 1;
    sq, carry := sq1, carry0;
    var j, k := i + 1, 2 * i + 1;
    while j <= max
      invariant i + 1 <= j <= |v| && k == i + j && |sq| == |sq1| && carry >= 0
      invariant forall m :: 0 <= m < |sq| && (m < k || m != i + max) ==> IsDigit(sq[m])
      invariant sq[i + max] >= 0
      invariant forall m :: k <= m < |sq| ==> sq[m] == sq1[m]
      invariant Val(sq) + carry * Pow(i + j) == base + Val(v[..j]) * (2 * v[i]) * Pow(i)
    {
      DoubledCross(v[j], v[i]);
      var cross := 2 * v[j] * v[i];
      var temp := sq[k] + cross + carry;
      SquareCell(sq[k], cross, carry);
      var c := temp / Base;
      var low := temp - Base * c;
      RowStep(sq, base, v, 2 * v[i], i, j, carry, c, low);
      sq := sq[k := low];
      carry := c;
      j, k := j + 1, k + 1;
    }
    assert v[..j] == v;
  }

  /**
   * Row i of `_baseSquare`: the diagonal term v[i]^2 at position 2i, then the
   * cross terms, then the carry at i + |v|.
   */
  method SquareRow(sq0: seq<int>, v: seq<int>, i: nat) returns (sq: seq<int>)
    requires Digits(v) && i < |v| && |sq0| == 2 * |v|
    requires SquareShape(sq0, i + |v| - 1)
    ensures |sq| == |sq0| && SquareShape(sq, i + |v|)
    ensures Val(sq) == Val(sq0) + (v[i] * Pow(i)) * (v[i] * Pow(i)) + 2 * (v[i] * Pow(i)) * (Val(v) - Val(v[..i + 1]))
  {
    var max := |v| - 1;
    var i2 := 2 * i;
    MulNonneg(v[i], v[i]);
    var temp := sq0[i2] + v[i] * v[i];
    SquareCell(sq0[i2], v[i] * v[i], 0);
    var carry := temp / Base;
    CellStep(sq0, i2, temp - Base * carry, carry, v[i] * v[i]);
    sq := sq0[i2 := temp - Base * carry];
    ghost var base := Val(sq0) + v[i] * v[i] * Pow(2 * i) - Val(v[..i + 1]) * (2 * v[i]) * Pow(i);
    sq, carry := CrossTerms(sq, v, i, carry, base);
    ValUpdate(sq, i + max + 1, carry);
    sq := sq[i + max + 1 := carry];
    PowAdd(i, i);
    DiagonalScale(v[i], Pow(i), Pow(2 * i));
    CrossScale(Val(v), Val(v[..i + 1]), v[i], Pow(i));
  }

  /** The top limb is a digit when the value fits in the array. */
  lemma TopDigit(s: seq<int>)
    requires |s| > 0 && s[|s| - 1] >= 0 && Val(s) < Pow(|s|)
    requires forall k :: 0 <= k < |s| - 1 ==> IsDigit(s[k])
    ensures Digits(s)
  {
    var n := |s| - 1;
    ValSplit(s, n);
    ValBound(s[..n]);
    assert s[n..] == [s[n]];
    assert Val(s[n..]) == s[n];
    assert Pow(n + 1) == Base * Pow(n);
  }

  /** `_baseSquare`: the untrimmed 2|v| limbs of v * v (nothing for an empty v). */
  method BaseSquare(v: seq<int>) returns (sq: seq<int>)
    requires Digits(v)
    ensures Digits(sq)
    ensures |v| == 0 ==> sq == []
    ensures |v| > 0 ==> |sq| == 2 * |v|
    ensures Val(sq) == Val(v) * Val(v)
  {
    if |v| == 0 {
      return [];
    }
    var max := |v| - 1;
    sq := Zeros(2 * |v|);
    ValOfZeros(sq);
    var i := 0;
    while i <= max
      invariant 0 <= i <= |v| && |sq| == 2 * |v|
      invariant SquareShape(sq, i + max)
      invariant Val(sq) == Val(v[..i]) * Val(v[..i]) + 2 * Val(v[..i]) * (Val(v) - Val(v[..i]))
    {
      ghost var s := Val(sq);
      sq := SquareRow(sq, v, i);
      ValPrefixStep(v, i);
      SquareRowIdentity(Val(v[..i]), v[i] * Pow(i), Val(v));
      i := i + 1;
    }
    assert v[..i] == v;
    Completed(Val(v[..i]), Val(v));
    ValBound(v);
    PowAdd(|v|, |v|);
    SquareBelow(Val(v), Pow(|v|));
    TopDigit(sq);
  }

  lemma Completed(l: int, t: int)
    requires l == t
    ensures l * l + 2 * l * (t - l) == t * t
  {
  }

  lemma SquareBelow(a: int, p: int)
    requires 0 <= a < p
    ensures a * a < p * p
  {
    MulNonneg(a, p - a);
    MulNonneg(p - a, p);
  }

  // ---------------------------------------------------------------------
  // _karatsubaSquare and _square
  // ---------------------------------------------------------------------

  /** Karatsuba squaring; like `Karatsuba` with both operands equal. */
  method KaratsubaSquare(v: seq<int>) returns (r: seq<int>)
    requires Digits(v)
    ensures Digits(r)
    ensures Val(r) == Val(v) * Val(v)
    ensures |v| > 0 ==> |r| > 0
    decreases |v|
  {
    var m := |v| / 2;
    if m < KaratsubaCutoff {
      r := BaseSquare(v);
      return;
    }
    var x1, x0 := v[m..], v[..m];
    ValBound(x0); ValBound(x1);

    var z2 := KaratsubaSquare(x1);
    var z0 := KaratsubaSquare(x0);

    var s, _ := AddLimbs(x1, false, x0, false);
    HalfSumLength(s, x1, x0);
    var z1 := KaratsubaSquare(s);
    MiddleTermNonneg(Val(s), Val(s), Val(x0), Val(x1), Val(x0), Val(x1));
    var d, dNeg := MiddleTerm(z1, z2, z0);
    r := Assemble(z2, d, dNeg, z0, m);

    ValSplit(v, m);
    KaratsubaIdentity(Val(r), Val(v), Val(v), Val(x0), Val(x1), Val(x0), Val(x1),
                      Val(s), Val(s), Val(z1), Val(z2), Val(z0), Val(d), Pow(m));
  }

  /**
   * `_square`: the trimmed square by the base or the Karatsuba method; both
   * give the only normal array of value x^2.
   */
  method Square(x: seq<int>) returns (r: seq<int>)
    requires Digits(x)
    ensures Val(x) * Val(x) >= 0 && r == ToLimbs(Val(x) * Val(x))
  {
    ValBound(x);
    MulNonneg(Val(x), Val(x));
    var full;
    if |x| < 2 * KaratsubaCutoff {
      full := BaseSquare(x);
    } else {
      full := KaratsubaSquare(x);
    }
    r := Trim(full);
    NormalIsToLimbs(r);
  }

  // ---------------------------------------------------------------------
  // _multiplyLower
  // ---------------------------------------------------------------------

  /** Division by a positive m is unique. */
  /** A value whose limbs from `stop` on are zero is below Base^stop. */
  lemma BelowStop(p: seq<int>, stop: nat)
    requires Digits(p) && forall k :: stop <= k < |p| ==> p[k] == 0
    ensures 0 <= Val(p) < Pow(stop)
  {
    ValBound(p);
    if |p| <= stop {
      PowMono(|p|, stop);
    } else {
      ValSplit(p, stop);
      ValOfZeros(p[stop..]);
      ValBound(p[..stop]);
    }
  }

  /**
   * `_multiplyLower`: the schoolbook product computed only up to limb
   * `stop`, trimmed, with sign xNeg != yNeg. Only the first row writes
   * limbs beyond `stop`, so the result agrees with x * y modulo Base^stop,
   * and equals x * y mod Base^stop when neither operand is longer than
   * `stop` limbs.
   */
  method MultiplyLower(x: seq<int>, xNeg: bool, y: seq<int>, yNeg: bool, stop: nat)
    returns (r: seq<int>, rNeg: bool)
    requires Digits(x) && Digits(y)
    ensures Normal(r)
    ensures Val(x) * Val(y) >= 0 && Val(r) % Pow(stop) == (Val(x) * Val(y)) % Pow(stop)
    ensures |x| <= stop && |y| <= stop ==> Val(r) == (Val(x) * Val(y)) % Pow(stop)
    ensures rNeg <==> |x| > 0 && |y| > 0 && xNeg != yNeg
  {
    ValBound(x);
    ValBound(y);
    MulNonneg(Val(x), Val(y));
    if |x| == 0 || |y| == 0 {
      DivModUnique(0, Pow(stop), 0, 0);
      return [], false;
    }
    var a, b := x, y;
    if |a| < |b| {
      a, b := y, x;
    }
    var product;
    ghost var dropped;
    product, dropped := Rows(a, b, stop);
    ghost var xy := Val(x) * Val(y);
    assert Val(product) + Pow(stop) * dropped == xy by {
      Commute(Val(x), Val(y));
    }
    r := Trim(product);
    rNeg := xNeg != yNeg;
    assert Val(r) % Pow(stop) == xy % Pow(stop) by {
      ValBound(product);
      LowerAgrees(Val(r), xy, Pow(stop), dropped);
    }
    if |x| <= stop && |y| <= stop {
      assert Val(r) == xy % Pow(stop) by {
        BelowStop(product, stop);
        DivModUnique(xy, Pow(stop), dropped, Val(r));
      }
    }
  }

  lemma Commute(a: int, b: int)
    ensures a * b == b * a
  {
  }

  lemma LowerAgrees(v: int, full: int, p: int, dropped: int)
    requires p > 0 && v >= 0 && v + p * dropped == full
    ensures v % p == full % p
  {
    DivModUnique(v, p, v / p, v % p);
    DivModUnique(full, p, v / p + dropped, v % p);
  }
}

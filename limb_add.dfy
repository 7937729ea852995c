/**
 * `_add` and `_subtract` of Oxygen_Math_BigInteger: signed addition and
 * subtraction of limb arrays. The carry loops consume two limbs per step
 * (base 2^62 sums), then an odd tail limb, then propagate the carry or borrow.
 */
module LimbAdd {
  import opened Bits
  import opened Limbs

  function Abs(z: int): nat
  {
    if z < 0 then -z else z
  }

  lemma PowStep2(i: nat)
    ensures Pow(i + 2) == Pow(i) * Base * Base
  {
    PowAdd(i, 2);
    assert Pow(2) == Base * Base by {
      assert Pow(1) == Base * Pow(0);
    }
  }

  /** One two-limb step of the carry loop keeps the running sum exact. */
  lemma CarryStep2(v: seq<int>, x: seq<int>, y: seq<int>, i: nat, carry: int, c: int, lo: int, hi: int)
    requires i + 1 < |v| && i + 1 < |x| && i + 1 < |y|
    requires Val(v[..i]) + carry * Pow(i) == Val(x[..i]) + Val(y[..i])
    requires lo + Base * hi == (x[i] + Base * x[i + 1]) + (y[i] + Base * y[i + 1]) + carry - c * MaxDigit2
    ensures Val(v[i := lo][i + 1 := hi][..i + 2]) + c * Pow(i + 2) == Val(x[..i + 2]) + Val(y[..i + 2])
  {
    var w := v[i := lo][i + 1 := hi];
    assert w[..i] == v[..i];
    ValPrefixStep2(w, i);
    ValPrefixStep2(x, i);
    ValPrefixStep2(y, i);
    PowStep2(i);
    var p := Pow(i);
    assert MaxDigit2 == Base * Base;
    calc {
      Val(w[..i + 2]) + c * Pow(i + 2);
      Val(v[..i]) + p * (lo + Base * hi) + c * (p * Base * Base);
      Val(v[..i]) + p * ((x[i] + Base * x[i + 1]) + (y[i] + Base * y[i + 1]) + carry);
      Val(v[..i]) + carry * p + p * (x[i] + Base * x[i + 1]) + p * (y[i] + Base * y[i + 1]);
    }
  }

  /** One two-limb step of the borrow loop keeps the running difference exact. */
  lemma BorrowStep2(v: seq<int>, x: seq<int>, y: seq<int>, i: nat, carry: int, c: int, lo: int, hi: int)
    requires i + 1 < |v| && i + 1 < |x| && i + 1 < |y|
    requires Val(v[..i]) - carry * Pow(i) == Val(x[..i]) - Val(y[..i])
    requires lo + Base * hi == (x[i] + Base * x[i + 1]) - (y[i] + Base * y[i + 1]) - carry + c * MaxDigit2
    ensures Val(v[i := lo][i + 1 := hi][..i + 2]) - c * Pow(i + 2) == Val(x[..i + 2]) - Val(y[..i + 2])
  {
    var w := v[i := lo][i + 1 := hi];
    assert w[..i] == v[..i];
    ValPrefixStep2(w, i);
    ValPrefixStep2(x, i);
    ValPrefixStep2(y, i);
    PowStep2(i);
    var p := Pow(i);
    assert MaxDigit2 == Base * Base;
    calc {
      Val(w[..i + 2]) - c * Pow(i + 2);
      Val(v[..i]) + p * (lo + Base * hi) - c * (p * Base * Base);
      Val(v[..i]) + p * ((x[i] + Base * x[i + 1]) - (y[i] + Base * y[i + 1]) - carry);
      Val(v[..i]) - carry * p + p * (x[i] + Base * x[i + 1]) - p * (y[i] + Base * y[i + 1]);
    }
  }

  /** The odd tail limb of the carry loop. */
  lemma CarryStep1(v: seq<int>, x: seq<int>, y: seq<int>, i: nat, carry: int, c: int, d: int)
    requires i < |v| && i < |x| && i < |y|
    requires Val(v[..i]) + carry * Pow(i) == Val(x[..i]) + Val(y[..i])
    requires d == x[i] + y[i] + carry - c * Base
    ensures Val(v[i := d][..i + 1]) + c * Pow(i + 1) == Val(x[..i + 1]) + Val(y[..i + 1])
  {
    var w := v[i := d];
    assert w[..i] == v[..i];
    ValPrefixStep(w, i);
    ValPrefixStep(x, i);
    ValPrefixStep(y, i);
    var p := Pow(i);
    assert Pow(i + 1) == Base * p;
    calc {
      Val(w[..i + 1]) + c * Pow(i + 1);
      Val(v[..i]) + d * p + c * (Base * p);
      Val(v[..i]) + (x[i] + y[i] + carry) * p;
      Val(v[..i]) + carry * p + x[i] * p + y[i] * p;
    }
  }

  /** The odd tail limb of the borrow loop. */
  lemma BorrowStep1(v: seq<int>, x: seq<int>, y: seq<int>, i: nat, carry: int, c: int, d: int)
    requires i < |v| && i < |x| && i < |y|
    requires Val(v[..i]) - carry * Pow(i) == Val(x[..i]) - Val(y[..i])
    requires d == x[i] - y[i] - carry + c * Base
    ensures Val(v[i := d][..i + 1]) - c * Pow(i + 1) == Val(x[..i + 1]) - Val(y[..i + 1])
  {
    var w := v[i := d];
    assert w[..i] == v[..i];
    ValPrefixStep(w, i);
    ValPrefixStep(x, i);
    ValPrefixStep(y, i);
    var p := Pow(i);
    assert Pow(i + 1) == Base * p;
    calc {
      Val(w[..i + 1]) - c * Pow(i + 1);
      Val(v[..i]) + d * p - c * (Base * p);
      Val(v[..i]) + (x[i] - y[i] - carry) * p;
      Val(v[..i]) - carry * p + x[i] * p - y[i] * p;
    }
  }

  lemma PowStep(i: nat)
    ensures Pow(i + 1) == Base * Pow(i)
  {
  }

  /** Splitting `sum` into a low limb and the part above it, as `$sum >> 31` does. */
  lemma SplitSum(sum: int)
    requires 0 <= sum < Base * Base
    ensures 0 <= sum / Base < Base && 0 <= sum - Base * (sum / Base) < Base
  {
  }

  /** The odd limb `_add` handles after its two-limb loop when the shorter length is odd. */
  method AddOddLimb(v: seq<int>, x: seq<int>, y: seq<int>, i: nat, carry: int) returns (value: seq<int>, c: int)
    requires i < |v| && i < |x| && i < |y|
    requires Digits(v) && IsDigit(x[i]) && IsDigit(y[i]) && 0 <= carry <= 1
    requires Val(v[..i]) + carry * Pow(i) == Val(x[..i]) + Val(y[..i])
    ensures Digits(value) && |value| == |v| && value[i + 1..] == v[i + 1..]
    ensures 0 <= c <= 1
    ensures Val(value[..i + 1]) + c * Pow(i + 1) == Val(x[..i + 1]) + Val(y[..i + 1])
  {
    var sum := x[i] + y[i] + carry;
    c := if sum >= Base then 1 else 0;
    var d := if c == 1 then sum - Base else sum;
    CarryStep1(v, x, y, i, carry, c, d);
    value := v[i := d];
  }

  /** The odd limb `_subtract` handles after its two-limb loop when y's length is odd. */
  method SubtractOddLimb(v: seq<int>, x: seq<int>, y: seq<int>, i: nat, carry: int) returns (value: seq<int>, c: int)
    requires i < |v| && i < |x| && i < |y| && v[i] == x[i]
    requires Digits(v) && IsDigit(x[i]) && IsDigit(y[i]) && 0 <= carry <= 1
    requires Val(v[..i]) - carry * Pow(i) == Val(x[..i]) - Val(y[..i])
    ensures Digits(value) && |value| == |v| && value[i + 1..] == v[i + 1..]
    ensures 0 <= c <= 1
    ensures Val(value[..i + 1]) - c * Pow(i + 1) == Val(x[..i + 1]) - Val(y[..i + 1])
  {
    var sum := v[i] - y[i] - carry;
    c := if sum < 0 then 1 else 0;
    var d := if c == 1 then sum + Base else sum;
    BorrowStep1(v, x, y, i, carry, c, d);
    value := v[i := d];
  }

  /**
   * After the carry loop of `_add`: the prefix holds the sum of the shorter
   * operand and the longer one's prefix, the rest is the longer operand's
   * tail plus the zero limb, so the array and the carry hold the full sum.
   */
  lemma AddLoopDone(value: seq<int>, short: seq<int>, long: seq<int>, i: nat, carry: int)
    requires i == |short| <= |long| && i <= |value|
    requires value[i..] == long[i..] + [0]
    requires Val(value[..i]) + carry * Pow(i) == Val(short[..i]) + Val(long[..i])
    ensures Val(value) + carry * Pow(i) == Val(short) + Val(long)
  {
    var high := Pow(i) * Val(long[i..]);
    assert Val(value) == Val(value[..i]) + high by {
      ValSplit(value, i);
      ValAppend(long[i..], 0);
    }
    assert Val(long) == Val(long[..i]) + high by {
      ValSplit(long, i);
    }
    assert short[..i] == short;
  }

  /**
   * The two-limb loop of `_add`: limbs 2k and 2k+1 of both operands are
   * summed as one base-2^62 digit while both have them, and written over the
   * corresponding limbs of `v`.
   */
  method AddPairs(x: seq<int>, y: seq<int>, size: nat, v: seq<int>) returns (value: seq<int>, carry: int, i: nat)
    requires Digits(x) && Digits(y) && Digits(v)
    requires size <= |x| && size <= |y| && size <= |v|
    ensures i <= size <= i + 1
    ensures |value| == |v| && value[i..] == v[i..] && Digits(value)
    ensures 0 <= carry <= 1
    ensures Val(value[..i]) + carry * Pow(i) == Val(x[..i]) + Val(y[..i])
  {
    value := v;
    carry := 0;
    i := 0;
    var j := 1;
    while j < size
      invariant j == i + 1 && 0 <= i <= size
      invariant |value| == |v| && value[i..] == v[i..]
      invariant Digits(value)
      invariant 0 <= carry <= 1
      invariant Val(value[..i]) + carry * Pow(i) == Val(x[..i]) + Val(y[..i])
    {
      var sum := x[j] * Base + x[i] + y[j] * Base + y[i] + carry;
      var c := if sum >= MaxDigit2 then 1 else 0;
      sum := if c == 1 then sum - MaxDigit2 else sum;
      SplitSum(sum);
      var temp := sum / Base;
      var lo := sum - Base * temp;
      CarryStep2(value, x, y, i, carry, c, lo, temp);
      ghost var before := value;
      value := value[i := lo][j := temp];
      assert value[i + 2..] == before[i + 2..];
      carry := c;
      i, j := i + 2, j + 2;
    }
  }

  /**
   * The same-sign branch of `_add`: the longer operand, extended by a zero
   * limb, receives the sum two limbs at a time, then the odd tail limb, then
   * the carry, and is trimmed.
   */
  method AddMagnitudes(x: seq<int>, y: seq<int>) returns (r: seq<int>)
    requires Digits(x) && Digits(y) && |x| > 0 && |y| > 0
    ensures Normal(r)
    ensures Val(r) == Val(x) + Val(y)
  {
    var size: nat;
    var value: seq<int>;
    if |x| < |y| {
      size, value := |x|, y;
    } else {
      size, value := |y|, x;
    }
    ghost var longer := value;
    value := value + [0];
    ghost var extended := value;
    var carry, i;
    value, carry, i := AddPairs(x, y, size, value);
    if i + 1 == size {
      value, carry := AddOddLimb(value, x, y, i, carry);
      i := i + 1;
    }
    assert i == size && value[i..] == extended[i..];
    ExtendedTail(longer, i);
    if |x| < |y| {
      AddLoopDone(value, x, y, i, carry);
    } else {
      AddLoopDone(value, y, x, i, carry);
    }
    value := PropagateCarry(value, i, carry);
    r := Trim(value);
  }

  lemma ExtendedTail(s: seq<int>, i: nat)
    requires i <= |s|
    ensures (s + [0])[i..] == s[i..] + [0]
  {
  }

  /** After the borrow loop of `_subtract`, the array and the borrow hold the difference. */
  lemma SubtractLoopDone(value: seq<int>, x: seq<int>, y: seq<int>, i: nat, carry: int)
    requires i == |y| <= |x| == |value|
    requires value[i..] == x[i..]
    requires Val(value[..i]) - carry * Pow(i) == Val(x[..i]) - Val(y[..i])
    ensures Val(value) - carry * Pow(i) == Val(x) - Val(y)
  {
    var high := Pow(i) * Val(x[i..]);
    assert Val(value) == Val(value[..i]) + high by {
      ValSplit(value, i);
    }
    assert Val(x) == Val(x[..i]) + high by {
      ValSplit(x, i);
    }
    assert y[..i] == y;
  }

  /** A borrow cannot run past the top limb while the difference is not negative. */
  lemma BorrowStaysInside(value: seq<int>, i: nat, diff: int)
    requires Digits(value) && diff >= 0 && Val(value) - Pow(i) == diff
    ensures i < |value|
  {
    ValBound(value);
    if i >= |value| {
      PowMono(|value|, i);
    }
  }

  /**
   * The carry propagation of `_add`: limbs equal to MaxDigit become zero
   * until one can take the carry. The zero top limb always can.
   */
  method PropagateCarry(v: seq<int>, i: nat, carry: int) returns (value: seq<int>)
    requires Digits(v) && i < |v| && v[|v| - 1] == 0 && 0 <= carry <= 1
    ensures Digits(value) && |value| == |v|
    ensures Val(value) == Val(v) + carry * Pow(i)
  {
    value := v;
    if carry == 0 {
      return;
    }
    var k := i;
    ghost var last := |v| - 1;
    while value[k] == MaxDigit
      invariant k <= last
      invariant Digits(value) && |value| == last + 1 && value[last] == 0
      invariant Val(value) + Pow(k) == Val(v) + Pow(i)
      decreases last - k
    {
      ValUpdate(value, k, 0);
      value := value[k := 0];
      k := k + 1;
    }
    ValUpdate(value, k, value[k] + 1);
    value := value[k := value[k] + 1];
  }

  /**
   * The borrow propagation of `_subtract`: zero limbs become MaxDigit until
   * a nonzero limb absorbs the borrow; one exists because the difference is
   * not negative.
   */
  method PropagateBorrow(v: seq<int>, i: nat, carry: int) returns (value: seq<int>)
    requires Digits(v) && 0 <= carry <= 1 && Val(v) - carry * Pow(i) >= 0
    ensures Digits(value) && |value| == |v|
    ensures Val(value) == Val(v) - carry * Pow(i)
  {
    value := v;
    if carry == 0 {
      return;
    }
    var k := i;
    ghost var diff := Val(v) - Pow(i);
    BorrowStaysInside(value, k, diff);
    while value[k] == 0
      invariant Digits(value) && |value| == |v|
      invariant Val(value) - Pow(k) == diff
      invariant k < |value|
      decreases |value| - k
    {
      ValUpdate(value, k, MaxDigit);
      value := value[k := MaxDigit];
      k := k + 1;
      BorrowStaysInside(value, k, diff);
    }
    ValUpdate(value, k, value[k] - 1);
    value := value[k := value[k] - 1];
  }

  /**
   * The two-limb loop of `_subtract`: limbs 2k and 2k+1 of y are subtracted
   * from those of x as one base-2^62 digit while y has them.
   */
  method SubtractPairs(x: seq<int>, y: seq<int>) returns (value: seq<int>, carry: int, i: nat)
    requires Digits(x) && Digits(y) && |y| <= |x|
    ensures i <= |y| <= i + 1
    ensures |value| == |x| && value[i..] == x[i..] && Digits(value)
    ensures 0 <= carry <= 1
    ensures Val(value[..i]) - carry * Pow(i) == Val(x[..i]) - Val(y[..i])
  {
    value := x;
    carry := 0;
    i := 0;
    var j := 1;
    while j < |y|
      invariant j == i + 1 && 0 <= i <= |y|
      invariant |value| == |x| && value[i..] == x[i..]
      invariant Digits(value)
      invariant 0 <= carry <= 1
      invariant Val(value[..i]) - carry * Pow(i) == Val(x[..i]) - Val(y[..i])
    {
      var sum := x[j] * Base + x[i] - y[j] * Base - y[i] - carry;
      var c := if sum < 0 then 1 else 0;
      sum := if c == 1 then sum + MaxDigit2 else sum;
      SplitSum(sum);
      var temp := sum / Base;
      var lo := sum - Base * temp;
      BorrowStep2(value, x, y, i, carry, c, lo, temp);
      ghost var before := value;
      value := value[i := lo][j := temp];
      assert value[i + 2..] == before[i + 2..];
      carry := c;
      i, j := i + 2, j + 2;
    }
  }

  /**
   * The magnitude part of `_subtract` once |x| >= |y| and x > y: the
   * two-limb loop, the odd tail limb, the borrow, and a trim.
   */
  method SubtractMagnitudes(x: seq<int>, y: seq<int>) returns (r: seq<int>)
    requires Digits(x) && Digits(y) && 0 < |y| <= |x| && Val(x) >= Val(y)
    ensures Normal(r)
    ensures Val(r) == Val(x) - Val(y)
  {
    var value, carry, i := SubtractPairs(x, y);
    if i + 1 == |y| {
      value, carry := SubtractOddLimb(value, x, y, i, carry);
      i := i + 1;
    }
    SubtractLoopDone(value, x, y, i, carry);
    value := PropagateBorrow(value, i, carry);
    r := Trim(value);
  }

  /**
   * `_add`: signed sum of two limb arrays. An empty operand returns the
   * other one unchanged. Operands of different signs are subtracted by
   * magnitude, and identical arrays give a zero whose sign is positive;
   * otherwise the result is trimmed.
   */
  method AddLimbs(x: seq<int>, xNeg: bool, y: seq<int>, yNeg: bool) returns (r: seq<int>, rNeg: bool)
    requires Digits(x) && Digits(y)
    requires xNeg != yNeg ==> CountSound(x, y)
    ensures Digits(r)
    ensures Signed(r, rNeg) == Signed(x, xNeg) + Signed(y, yNeg)
    ensures xNeg == yNeg ==> rNeg == xNeg && Val(r) == Val(x) + Val(y)
    ensures |x| == 0 ==> r == y && rNeg == yNeg
    ensures |x| > 0 && |y| == 0 ==> r == x && rNeg == xNeg
    ensures |x| > 0 && |y| > 0 ==> Normal(r)
    ensures Canonical(x, xNeg) && Canonical(y, yNeg) ==> Canonical(r, rNeg)
    decreases if xNeg != yNeg then 1 else 0
  {
    if |x| == 0 {
      return y, yNeg;
    } else if |y| == 0 {
      return x, xNeg;
    }
    if xNeg != yNeg {
      if x == y {
        return [], false;
      }
      var temp, _ := SubtractLimbs(x, false, y, false);
      var c := Compare(x, false, y, false);
      ValZeroIffEmpty(temp);
      if Canonical(x, xNeg) && Canonical(y, yNeg) {
        ValInjective(x, y);
      }
      return temp, if c > 0 then xNeg else yNeg;
    }
    r := AddMagnitudes(x, y);
    rNeg := xNeg;
    ValBound(x);
    ValBound(y);
    ValZeroIffEmpty(r);
    if Normal(x) {
      ValNormalLower(x);
    }
  }

  /**
   * `_subtract`: signed difference of two limb arrays. An empty first
   * operand returns the second with its sign flipped, an empty second
   * operand returns the first. Operands of different signs are added by
   * magnitude; operands that `_compare` finds equal give a positive zero;
   * otherwise the larger magnitude is reduced by the smaller, the sign flips
   * when the operands were swapped, and the result is trimmed.
   */
  method SubtractLimbs(x: seq<int>, xNeg: bool, y: seq<int>, yNeg: bool) returns (r: seq<int>, rNeg: bool)
    requires Digits(x) && Digits(y)
    requires xNeg == yNeg ==> CountSound(x, y)
    ensures Digits(r)
    ensures Signed(r, rNeg) == Signed(x, xNeg) - Signed(y, yNeg)
    ensures |x| > 0 ==> Val(r) == Abs(Signed(x, xNeg) - Signed(y, yNeg))
    ensures |x| == 0 ==> r == y && rNeg == !yNeg
    ensures |x| > 0 && |y| == 0 ==> r == x && rNeg == xNeg
    ensures |x| > 0 && !xNeg && !yNeg && Val(x) >= Val(y) ==> !rNeg || |r| == 0
    ensures |x| > 0 && |y| > 0 ==> Normal(r)
    ensures Canonical(x, xNeg) && Canonical(y, yNeg) && |x| > 0 ==> Canonical(r, rNeg)
    decreases if xNeg != yNeg then 1 else 0
  {
    ValBound(x);
    ValBound(y);
    if |x| == 0 {
      return y, !yNeg;
    } else if |y| == 0 {
      return x, xNeg;
    }
    if xNeg != yNeg {
      r, rNeg := AddLimbs(x, false, y, false);
      rNeg := xNeg;
      ValZeroIffEmpty(r);
      if Normal(x) {
        ValNormalLower(x);
      }
      return;
    }
    var diff := Compare(x, xNeg, y, yNeg);
    if Normal(x) && Normal(y) {
      OrderIsSignedOrder(x, false, y, false);
    }
    if diff == 0 {
      return [], false;
    }
    var a, b, neg := x, y, xNeg;
    if (!xNeg && diff < 0) || (xNeg && diff > 0) {
      a, b, neg := y, x, !xNeg;
    }
    r := SubtractMagnitudes(a, b);
    rNeg := neg;
    ValZeroIffEmpty(r);
  }
}

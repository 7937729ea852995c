/**
 * The digit arrays of Oxygen_Math_BigInteger in its internal mode with the
 * 64-bit configuration: magnitudes are little-endian arrays of base-2^31
 * digits ("limbs"), paired with a separate sign flag.
 */
module Limbs {

  import opened Bits

  /** The 64-bit configuration of the internal mode. */
  const Base: int := 0x8000_0000
  const MaxDigit: int := 0x7FFF_FFFF
  const Msb: int := 0x4000_0000
  const MaxDigit2: int := 0x4000_0000_0000_0000
  const KaratsubaCutoff: int := 25

  /** Base^k. */
  function Pow(k: nat): (r: nat)
    ensures r >= 1
  {
    if k == 0 then 1 else Base * Pow(k - 1)
  }

  /** The value of a little-endian limb array: the sum of limb[i] * Base^i. */
  function Val(s: seq<int>): int
  {
    if |s| == 0 then 0 else s[0] + Base * Val(s[1..])
  }

  /** The value of a magnitude together with its sign flag. */
  function Signed(s: seq<int>, negative: bool): int
  {
    if negative then -Val(s) else Val(s)
  }

  predicate IsDigit(d: int)
  {
    0 <= d < Base
  }

  predicate Digits(s: seq<int>)
  {
    forall i :: 0 <= i < |s| ==> IsDigit(s[i])
  }

  /** What `_trim` establishes: digits only, and no most-significant zero limb. */
  predicate Normal(s: seq<int>)
  {
    Digits(s) && (|s| == 0 || s[|s| - 1] != 0)
  }

  /** A normal magnitude whose zero is never flagged negative. */
  predicate Canonical(s: seq<int>, negative: bool)
  {
    Normal(s) && (|s| == 0 ==> !negative)
  }

  function Zeros(k: nat): (r: seq<int>)
    ensures |r| == k && forall i :: 0 <= i < k ==> r[i] == 0
  {
    seq(k, _ => 0)
  }

  function Sign(z: int): int
  {
    if z > 0 then 1 else if z < 0 then -1 else 0
  }

  // ---------------------------------------------------------------------
  // Facts about Pow and Val

  lemma {:induction false} PowAdd(a: nat, b: nat)
    ensures Pow(a + b) == Pow(a) * Pow(b)
    decreases a
  {
    if a > 0 {
      PowAdd(a - 1, b);
      assert Pow(a + b) == Base * Pow(a - 1 + b);
    }
  }

  lemma PowMono(a: nat, b: nat)
    requires a <= b
    ensures Pow(a) <= Pow(b)
  {
    PowAdd(a, b - a);
  }

  lemma {:induction false} ValConcat(a: seq<int>, b: seq<int>)
    ensures Val(a + b) == Val(a) + Pow(|a|) * Val(b)
    decreases |a|
  {
    if |a| > 0 {
      assert (a + b)[1..] == a[1..] + b;
      ValConcat(a[1..], b);
      var p := Pow(|a| - 1);
      calc {
        Val(a + b);
        a[0] + Base * Val(a[1..] + b);
        a[0] + Base * (Val(a[1..]) + p * Val(b));
        a[0] + Base * Val(a[1..]) + (Base * p) * Val(b);
        Val(a) + Pow(|a|) * Val(b);
      }
    } else {
      assert a + b == b;
    }
  }

  lemma {:induction false} ValAppend(s: seq<int>, d: int)
    ensures Val(s + [d]) == Val(s) + d * Pow(|s|)
    decreases |s|
  {
    if |s| == 0 {
      assert s + [d] == [d];
      assert [d][1..] == [];
    } else {
      var t := s + [d];
      assert t[1..] == s[1..] + [d];
      ValAppend(s[1..], d);
      var q := Pow(|s| - 1);
      assert Val(t) == s[0] + Base * (Val(s[1..]) + d * q);
      assert Base * (d * q) == d * (Base * q);
    }
  }

  lemma ValSplit(s: seq<int>, i: nat)
    requires i <= |s|
    ensures Val(s) == Val(s[..i]) + Pow(i) * Val(s[i..])
  {
    assert s == s[..i] + s[i..];
    ValConcat(s[..i], s[i..]);
  }

  /** One more limb of a prefix. */
  lemma ValPrefixStep(s: seq<int>, i: nat)
    requires i < |s|
    ensures Val(s[..i + 1]) == Val(s[..i]) + s[i] * Pow(i)
  {
    assert s[..i + 1] == s[..i] + [s[i]];
    ValAppend(s[..i], s[i]);
  }

  /** Two more limbs of a prefix, as `_add` and `_subtract` consume them. */
  lemma ValPrefixStep2(s: seq<int>, i: nat)
    requires i + 1 < |s|
    ensures Val(s[..i + 2]) == Val(s[..i]) + Pow(i) * (s[i] + Base * s[i + 1])
  {
    ValPrefixStep(s, i);
    ValPrefixStep(s, i + 1);
    assert Pow(i + 1) == Base * Pow(i) by { PowAdd(i, 1); }
  }

  /** Overwriting limb i changes the value by the difference times Base^i. */
  lemma ValUpdate(s: seq<int>, i: nat, d: int)
    requires i < |s|
    ensures Val(s[i := d]) == Val(s) + (d - s[i]) * Pow(i)
  {
    var t := s[i := d];
    ValSplit(s, i + 1);
    ValSplit(t, i + 1);
    assert t[i + 1..] == s[i + 1..];
    assert t[..i] == s[..i];
    ValPrefixStep(s, i);
    ValPrefixStep(t, i);
    MulSub(d, s[i], Pow(i));
  }

  lemma {:induction false} ValOfZeros(s: seq<int>)
    requires forall i :: 0 <= i < |s| ==> s[i] == 0
    ensures Val(s) == 0
    decreases |s|
  {
    if |s| > 0 {
      ValOfZeros(s[1..]);
    }
  }

  lemma ValZerosThen(k: nat, s: seq<int>)
    ensures Val(Zeros(k) + s) == Pow(k) * Val(s)
  {
    ValConcat(Zeros(k), s);
    ValOfZeros(Zeros(k));
  }

  lemma ValThenZeros(s: seq<int>, k: nat)
    ensures Val(s + Zeros(k)) == Val(s)
  {
    ValConcat(s, Zeros(k));
    ValOfZeros(Zeros(k));
  }

  lemma {:induction false} ValBound(s: seq<int>)
    requires Digits(s)
    ensures 0 <= Val(s) < Pow(|s|)
    decreases |s|
  {
    if |s| > 0 {
      ValBound(s[1..]);
    }
  }

  lemma ValNormalLower(s: seq<int>)
    requires Normal(s) && |s| > 0
    ensures Val(s) >= Pow(|s| - 1)
  {
    var k := |s| - 1;
    ValSplit(s, k);
    ValBound(s[..k]);
    assert s[k..] == [s[k]];
    assert Val(s[k..]) == s[k] + Base * Val([]);
  }

  /** A normal magnitude is zero exactly when it has no limbs. */
  lemma ValZeroIffEmpty(s: seq<int>)
    requires Normal(s)
    ensures Val(s) == 0 <==> |s| == 0
  {
    if |s| > 0 {
      ValNormalLower(s);
    }
  }

  /** Among normal magnitudes, the longer one is the larger. */
  lemma LongerIsLarger(x: seq<int>, y: seq<int>)
    requires Normal(x) && Normal(y) && |x| > |y|
    ensures Val(x) > Val(y)
  {
    ValNormalLower(x);
    ValBound(y);
    PowMono(|y|, |x| - 1);
  }

  /** Two normal magnitudes with the same value are the same array. */
  lemma {:induction false} NormalUnique(x: seq<int>, y: seq<int>)
    requires Normal(x) && Normal(y) && Val(x) == Val(y)
    ensures x == y
    decreases |x|
  {
    if |x| > |y| {
      LongerIsLarger(x, y);
    } else if |y| > |x| {
      LongerIsLarger(y, x);
    } else if |x| > 0 {
      ValBound(x[1..]);
      ValBound(y[1..]);
      assert x[0] == y[0] && Val(x[1..]) == Val(y[1..]);
      assert Normal(x[1..]) && Normal(y[1..]);
      NormalUnique(x[1..], y[1..]);
      assert x == [x[0]] + x[1..];
      assert y == [y[0]] + y[1..];
    }
  }

  /** The value map is injective on normal magnitudes. */
  lemma ValInjective(x: seq<int>, y: seq<int>)
    requires Normal(x) && Normal(y)
    ensures Val(x) == Val(y) <==> x == y
  {
    if Val(x) == Val(y) {
      NormalUnique(x, y);
    }
  }

  /**
   * The canonical limb array of a natural number: its base-2^31 digits,
   * least significant first, with no most-significant zero.
   */
  function ToLimbs(n: nat): (s: seq<int>)
    ensures Normal(s) && Val(s) == n
    decreases n
  {
    if n == 0 then [] else
      var rest := ToLimbs(n / Base);
      assert Val([n % Base] + rest) == n % Base + Base * Val(rest) by {
        assert ([n % Base] + rest)[1..] == rest;
      }
      [n % Base] + rest
  }

  /** Every normal array is the canonical array of its value. */
  lemma NormalIsToLimbs(s: seq<int>)
    requires Normal(s)
    ensures Val(s) >= 0 && s == ToLimbs(Val(s))
  {
    ValBound(s);
    NormalUnique(s, ToLimbs(Val(s)));
  }

  lemma SignDominated(d: int, e: int, p: int)
    requires p >= 1 && -p < d < p && e != 0
    ensures Sign(d + e * p) == Sign(e)
  {
    if e > 0 {
      MulNonneg(e - 1, p);
      assert e * p == (e - 1) * p + p;
    } else {
      MulNonneg(-e - 1, p);
      assert e * p == -((-e - 1) * p) - p;
    }
  }

  /** Equal-length arrays that agree above position i are ordered by limb i. */
  lemma ValDiffAt(x: seq<int>, y: seq<int>, i: nat)
    requires Digits(x) && Digits(y) && |x| == |y| && i < |x|
    requires x[i + 1..] == y[i + 1..] && x[i] != y[i]
    ensures Sign(Val(x) - Val(y)) == Sign(x[i] - y[i])
  {
    var top := Pow(i + 1) * Val(x[i + 1..]);
    var p := Pow(i);
    assert Val(x) == Val(x[..i]) + x[i] * p + top by {
      ValSplit(x, i + 1);
      ValPrefixStep(x, i);
    }
    assert Val(y) == Val(y[..i]) + y[i] * p + top by {
      ValSplit(y, i + 1);
      ValPrefixStep(y, i);
    }
    ValBound(x[..i]);
    ValBound(y[..i]);
    var d := Val(x[..i]) - Val(y[..i]);
    var e := x[i] - y[i];
    MulSub(x[i], y[i], p);
    assert Val(x) - Val(y) == d + e * p;
    SignDominated(d, e, p);
  }

  lemma MulSub(a: int, b: int, p: int)
    ensures a * p - b * p == (a - b) * p
  {
  }

  // ---------------------------------------------------------------------
  // _trim

  /**
   * `_trim`: drops most-significant zero limbs. The result is the shortest
   * prefix with the same value; every dropped limb was zero.
   */
  method Trim(s: seq<int>) returns (r: seq<int>)
    ensures |r| <= |s| && r == s[..|r|]
    ensures |r| == 0 || r[|r| - 1] != 0
    ensures forall i :: |r| <= i < |s| ==> s[i] == 0
    ensures Val(r) == Val(s)
    ensures Digits(s) ==> Normal(r)
  {
    var n := |s|;
    while n > 0 && s[n - 1] == 0
      invariant 0 <= n <= |s|
      invariant forall i :: n <= i < |s| ==> s[i] == 0
    {
      n := n - 1;
    }
    r := s[..n];
    ValSplit(s, n);
    ValOfZeros(s[n..]);
  }

  // ---------------------------------------------------------------------
  // _compare / compare / equals

  /**
   * The order `_compare` decides: by sign flag first, then by limb count,
   * then by value (for equal counts the top-down limb scan is a value
   * comparison). Negated when both are negative.
   */
  function Order(x: seq<int>, xNeg: bool, y: seq<int>, yNeg: bool): int
  {
    if xNeg != yNeg then (if yNeg then 1 else -1)
    else
      var magnitude := if |x| != |y| then (if |x| > |y| then 1 else -1) else Sign(Val(x) - Val(y));
      if xNeg then -magnitude else magnitude
  }

  /** The top-down limb scan of `_compare` for arrays of equal length. */
  method ScanFromTop(x: seq<int>, y: seq<int>) returns (c: int)
    requires Digits(x) && Digits(y) && |x| == |y|
    ensures c == Sign(Val(x) - Val(y))
  {
    var i := |x|;
    while i > 0
      invariant 0 <= i <= |x|
      invariant forall k :: i <= k < |x| ==> x[k] == y[k]
    {
      if x[i - 1] != y[i - 1] {
        c := if x[i - 1] > y[i - 1] then 1 else -1;
        assert c == Sign(Val(x) - Val(y)) by {
          assert x[i..] == y[i..];
          ValDiffAt(x, y, i - 1);
        }
        return;
      }
      i := i - 1;
    }
    assert x == y;
    return 0;
  }

  /** `_compare`: −1, 0 or 1 by sign flags, then limb count, then a top-down scan. */
  method Compare(x: seq<int>, xNeg: bool, y: seq<int>, yNeg: bool) returns (c: int)
    requires Digits(x) && Digits(y)
    ensures c == Order(x, xNeg, y, yNeg)
  {
    if xNeg != yNeg {
      return if !xNeg && yNeg then 1 else -1;
    }
    var result := if xNeg then -1 else 1;
    if |x| != |y| {
      return if |x| > |y| then result else -result;
    }
    var scan := ScanFromTop(x, y);
    return if scan == 0 then 0 else if scan > 0 then result else -result;
  }

  /** On canonical operands `_compare` is the order of the signed values. */
  lemma OrderIsSignedOrder(x: seq<int>, xNeg: bool, y: seq<int>, yNeg: bool)
    requires Canonical(x, xNeg) && Canonical(y, yNeg)
    ensures Order(x, xNeg, y, yNeg) == Sign(Signed(x, xNeg) - Signed(y, yNeg))
  {
    ValZeroIffEmpty(x);
    ValZeroIffEmpty(y);
    ValBound(x);
    ValBound(y);
    if |x| > |y| {
      LongerIsLarger(x, y);
    } else if |y| > |x| {
      LongerIsLarger(y, x);
    }
  }

  /**
   * What `_subtract` needs of its magnitudes: `_compare` decides by limb
   * count first, so the longer array must not be the smaller value. Normal
   * arrays satisfy it, and so does any array whose value is at least that
   * of a normal one.
   */
  predicate CountSound(x: seq<int>, y: seq<int>)
  {
    (|x| > |y| ==> Val(x) >= Val(y)) && (|y| > |x| ==> Val(y) >= Val(x))
  }

  lemma NormalCountSound(x: seq<int>, y: seq<int>)
    requires Normal(x) && Normal(y)
    ensures CountSound(x, y) && CountSound(y, x)
  {
    if |x| > |y| {
      LongerIsLarger(x, y);
    } else if |y| > |x| {
      LongerIsLarger(y, x);
    }
  }

  lemma AtLeastNormalCountSound(x: seq<int>, y: seq<int>)
    requires Digits(x) && Normal(y) && Val(x) >= Val(y)
    ensures CountSound(x, y) && CountSound(y, x) && |x| >= |y|
  {
    if |y| > |x| {
      ValNormalLower(y);
      ValBound(x);
      PowMono(|x|, |y| - 1);
    }
  }

  /** `equals`: the same limbs and the same sign flag. */
  predicate Equals(x: seq<int>, xNeg: bool, y: seq<int>, yNeg: bool)
  {
    x == y && xNeg == yNeg
  }

  /** On canonical operands `equals` is equality of the signed values. */
  lemma EqualsIsValueEquality(x: seq<int>, xNeg: bool, y: seq<int>, yNeg: bool)
    requires Canonical(x, xNeg) && Canonical(y, yNeg)
    ensures Equals(x, xNeg, y, yNeg) <==> Signed(x, xNeg) == Signed(y, yNeg)
  {
    ValZeroIffEmpty(x);
    ValZeroIffEmpty(y);
    ValBound(x);
    ValBound(y);
    if Signed(x, xNeg) == Signed(y, yNeg) {
      NormalUnique(x, y);
    }
  }
}

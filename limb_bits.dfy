/**
 * The limb loop behind `bitwise_and`, `bitwise_or`, `bitwise_xor` and the
 * precision mask of `_normalize`: limb i of the result is limb i of the one
 * operand combined with limb i of the other by a PHP integer bit operator.
 */
module LimbBits {
  import opened Bits
  import opened Limbs
  import LimbShift

  /** The three bit operators the limb loops apply. */
  datatype Op = AndOp | OrOp | XorOp

  /** PHP `a & b`, `a | b` or `a ^ b` on non-negative integers. */
  function Apply(op: Op, a: nat, b: nat): nat
  {
    match op
    case AndOp => And(a, b)
    case OrOp => Or(a, b)
    case XorOp => Xor(a, b)
  }

  /** The operator on one pair of bits. */
  function ApplyBit(op: Op, a: bool, b: bool): bool
  {
    match op
    case AndOp => a && b
    case OrOp => a || b
    case XorOp => a != b
  }

  /** Every bit of the result is the operator applied to the operands' bits at that position. */
  lemma ApplyBits(op: Op, a: nat, b: nat, k: nat)
    ensures Bit(Apply(op, a, b), k) == ApplyBit(op, Bit(a, k), Bit(b, k))
  {
    match op
    case AndOp => AndBits(a, b, k);
    case OrOp => OrBits(a, b, k);
    case XorOp => XorBits(a, b, k);
  }

  /** For every pair of operands, zero included, the operator splits off the lowest bit. */
  lemma ApplyUnfold(op: Op, a: nat, b: nat)
    ensures Apply(op, a, b) == 2 * Apply(op, a / 2, b / 2) + (if ApplyBit(op, a % 2 == 1, b % 2 == 1) then 1 else 0)
  {
    match op
    case AndOp =>
    case OrOp =>
      if a == 0 {
        OrSymmetric(0, b / 2);
      } else if b == 0 {
        OrSymmetric(a / 2, 0);
      }
    case XorOp =>
      if a == 0 {
        assert Xor(0, b / 2) == b / 2;
      } else if b == 0 {
        if a / 2 == 0 {
          assert Xor(0, 0) == 0;
        }
      }
  }

  /** Halving a + 2^k c when a < 2^k, k > 0. */
  lemma HalveSplit(a: nat, c: nat, k: nat)
    requires k > 0 && a < Pow2(k)
    ensures (a + Pow2(k) * c) / 2 == a / 2 + Pow2(k - 1) * c
    ensures (a + Pow2(k) * c) % 2 == a % 2
    ensures a / 2 < Pow2(k - 1)
  {
    var h := Pow2(k - 1);
    assert Pow2(k) * c == 2 * (h * c);
    DivModUnique(a + Pow2(k) * c, 2, a / 2 + h * c, a % 2);
  }

  /**
   * Operands that are a low part below 2^k plus a multiple of 2^k combine
   * part by part: the bits below 2^k never meet the bits above it.
   */
  lemma {:induction false} ApplySplit(op: Op, a: nat, b: nat, c: nat, d: nat, k: nat)
    requires a < Pow2(k) && b < Pow2(k)
    ensures Apply(op, a + Pow2(k) * c, b + Pow2(k) * d) == Apply(op, a, b) + Pow2(k) * Apply(op, c, d)
  {
    if k == 0 {
      assert a == 0 && b == 0;
      assert Apply(op, 0, 0) == 0;
    } else {
      var h := Pow2(k - 1);
      var x: nat, y: nat := a + Pow2(k) * c, b + Pow2(k) * d;
      HalveSplit(a, c, k);
      HalveSplit(b, d, k);
      ApplySplit(op, a / 2, b / 2, c, d, k - 1);
      var bit := if ApplyBit(op, a % 2 == 1, b % 2 == 1) then 1 else 0;
      var low, high := Apply(op, a / 2, b / 2), Apply(op, c, d);
      assert Apply(op, x / 2, y / 2) == low + h * high;
      calc {
        Apply(op, x, y);
        { ApplyUnfold(op, x, y); }
        2 * Apply(op, x / 2, y / 2) + bit;
        2 * (low + h * high) + bit;
        { Twice(h, high); }
        2 * low + bit + Pow2(k) * high;
        { ApplyUnfold(op, a, b); }
        Apply(op, a, b) + Pow2(k) * high;
      }
    }
  }

  lemma Twice(h: int, v: int)
    ensures 2 * (h * v) == (2 * h) * v
  {
  }

  /** Combining two values below 2^k stays below 2^k. */
  lemma {:induction false} ApplyBound(op: Op, a: nat, b: nat, k: nat)
    requires a < Pow2(k) && b < Pow2(k)
    ensures Apply(op, a, b) < Pow2(k)
  {
    if k == 0 {
      assert a == 0 && b == 0 && Apply(op, 0, 0) == 0;
    } else {
      var h := Pow2(k - 1);
      assert Pow2(k) == 2 * h;
      ApplyUnfold(op, a, b);
      ApplyBound(op, a / 2, b / 2, k - 1);
    }
  }

  /** Zero is the identity of `|` and `^` and absorbs `&`. */
  lemma ApplyZero(op: Op, a: nat)
    ensures Apply(op, a, 0) == if op == AndOp then 0 else a
  {
    OrSymmetric(a, 0);
  }

  /** One more limb of the result keeps the prefix of the result equal to the combined prefixes. */
  lemma CombineStep(op: Op, x: seq<int>, y: seq<int>, r: seq<int>, i: nat)
    requires Digits(x) && Digits(y) && |x| == |y| == |r| && i < |x|
    requires r[..i + 1] == r[..i] + [Apply(op, x[i], y[i])]
    requires Val(x[..i]) >= 0 && Val(y[..i]) >= 0
    requires Val(r[..i]) == Apply(op, Val(x[..i]), Val(y[..i]))
    ensures Val(x[..i + 1]) >= 0 && Val(y[..i + 1]) >= 0
    ensures Val(r[..i + 1]) == Apply(op, Val(x[..i + 1]), Val(y[..i + 1]))
  {
    ValBound(x[..i]);
    ValBound(y[..i]);
    ValBound(x[..i + 1]);
    ValBound(y[..i + 1]);
    ValPrefixStep(x, i);
    ValPrefixStep(y, i);
    ValAppend(r[..i], Apply(op, x[i], y[i]));
    SplitAt(op, Val(x[..i]), Val(y[..i]), x[i], y[i], i);
  }

  /** `ApplySplit` at a limb boundary: limb i combines on its own. */
  lemma SplitAt(op: Op, lx: nat, ly: nat, xi: nat, yi: nat, i: nat)
    requires lx < Pow(i) && ly < Pow(i)
    ensures Apply(op, lx + xi * Pow(i), ly + yi * Pow(i)) == Apply(op, lx, ly) + Apply(op, xi, yi) * Pow(i)
  {
    LimbShift.PowIsPow2(i);
    var p := Pow(i);
    assert xi * p == p * xi && yi * p == p * yi;
    ApplySplit(op, lx, ly, xi, yi, 31 * i);
  }

  /**
   * `for ($i = 0; $i < $length; ++$i) $result->value[$i] op= $x->value[$i]`
   * over two limb arrays of the same length: the limbs of the operator
   * applied to the two whole values.
   */
  method CombineLimbs(op: Op, x: seq<int>, y: seq<int>) returns (r: seq<int>)
    requires Digits(x) && Digits(y) && |x| == |y|
    ensures Digits(r) && |r| == |x|
    ensures forall i :: 0 <= i < |r| ==> r[i] == Apply(op, x[i], y[i])
    ensures Val(x) >= 0 && Val(y) >= 0 && Val(r) == Apply(op, Val(x), Val(y))
  {
    Pow2Constants();
    r := x;
    var i := 0;
    while i < |x|
      invariant 0 <= i <= |x| == |r|
      invariant r[i..] == x[i..]
      invariant forall j :: 0 <= j < i ==> r[j] == Apply(op, x[j], y[j]) && IsDigit(r[j])
      invariant Val(x[..i]) >= 0 && Val(y[..i]) >= 0
      invariant Val(r[..i]) == Apply(op, Val(x[..i]), Val(y[..i]))
    {
      ghost var before := r;
      r := r[i := Apply(op, r[i], y[i])];
      CombineLoopStep(op, x, y, before, r, i);
      i := i + 1;
    }
    assert r[..i] == r && x[..i] == x && y[..i] == y;
  }

  /** Bits of the one operand at or above 2^k meet only zero bits of the other. */
  lemma AndHighZero(x: nat, a: nat, b: nat, c: nat, k: nat)
    requires a < Pow2(k) && b < Pow2(k) && x == a + Pow2(k) * c
    ensures And(x, b) == And(a, b)
  {
    ApplySplit(AndOp, a, b, c, 0, k);
    ApplyZero(AndOp, c);
  }

  /** The invariants of `CombineLimbs` carried over one limb. */
  lemma CombineLoopStep(op: Op, x: seq<int>, y: seq<int>, before: seq<int>, r: seq<int>, i: nat)
    requires Digits(x) && Digits(y) && |x| == |y| == |before| && i < |x|
    requires before[i..] == x[i..]
    requires forall j :: 0 <= j < i ==> before[j] == Apply(op, x[j], y[j]) && IsDigit(before[j])
    requires Val(x[..i]) >= 0 && Val(y[..i]) >= 0
    requires Val(before[..i]) == Apply(op, Val(x[..i]), Val(y[..i]))
    requires r == before[i := Apply(op, x[i], y[i])]
    ensures r[i + 1..] == x[i + 1..]
    ensures forall j :: 0 <= j < i + 1 ==> r[j] == Apply(op, x[j], y[j]) && IsDigit(r[j])
    ensures Val(x[..i + 1]) >= 0 && Val(y[..i + 1]) >= 0
    ensures Val(r[..i + 1]) == Apply(op, Val(x[..i + 1]), Val(y[..i + 1]))
  {
    Pow2Constants();
    ApplyBound(op, x[i], y[i], 31);
    assert r[..i + 1] == before[..i] + [Apply(op, x[i], y[i])];
    assert r[..i] == before[..i];
    CombineStep(op, x, y, r, i);
  }

  /** The value of the low limbs, and of the whole when the limbs above are cut off. */
  lemma PrefixSplit(x: seq<int>, m: nat)
    requires Digits(x) && m <= |x|
    ensures 0 <= Val(x[..m]) < Pow2(31 * m) && Val(x[m..]) >= 0
    ensures Val(x) == Val(x[..m]) + Pow2(31 * m) * Val(x[m..])
  {
    ValSplit(x, m);
    ValBound(x[..m]);
    ValBound(x[m..]);
    LimbShift.PowIsPow2(m);
  }

  /**
   * When one operand has no limbs at or above m, `&` only sees the low m
   * limbs of the other: the slice `bitwise_and` takes loses nothing.
   */
  lemma AndOfPrefix(x: seq<int>, y: seq<int>, m: nat)
    requires Digits(x) && Digits(y) && m <= |x| && m == |y|
    ensures Val(x) >= 0 && Val(y) >= 0 && Val(x[..m]) >= 0
    ensures And(Val(x), Val(y)) == And(Val(x[..m]), Val(y))
  {
    PrefixSplit(x, m);
    assert 0 <= Val(y) < Pow2(31 * m) by {
      PrefixSplit(y, m);
      assert y[..m] == y;
    }
    AndHighZero(Val(x), Val(x[..m]), Val(y), Val(x[m..]), 31 * m);
  }

  lemma {:induction false} AndSymmetric(a: nat, b: nat)
    ensures And(a, b) == And(b, a)
  {
    if a != 0 && b != 0 {
      AndSymmetric(a / 2, b / 2);
    }
  }

  /**
   * `&` of two limb arrays cut to the shorter length: the limbs above the
   * shorter array meet zero bits, so the cut loses nothing.
   */
  lemma AndOfSlices(x: seq<int>, y: seq<int>, m: nat)
    requires Digits(x) && Digits(y) && m == (if |x| < |y| then |x| else |y|)
    ensures Val(x) >= 0 && Val(y) >= 0 && Val(x[..m]) >= 0 && Val(y[..m]) >= 0
    ensures And(Val(x), Val(y)) == And(Val(x[..m]), Val(y[..m]))
  {
    ValBound(x[..m]);
    ValBound(y[..m]);
    if |x| >= |y| {
      assert y[..m] == y;
      AndOfPrefix(x, y, m);
    } else {
      assert x[..m] == x;
      AndOfPrefix(y, x, m);
      AndSymmetric(Val(x), Val(y));
      AndSymmetric(Val(x), Val(y[..m]));
    }
  }
}

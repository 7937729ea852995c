/**
 * `_lshift` and `_rshift`: multiplying and dividing a limb array by 2^shift
 * in place, a whole number of limbs at a time plus a bit shift below 31.
 */
module LimbShift {
  import opened Bits
  import opened Limbs

  /** A limb is 31 bits: Base^n is 2^(31 n). */
  lemma {:induction false} PowIsPow2(n: nat)
    ensures Pow(n) == Pow2(31 * n)
  {
    if n == 0 {
    } else {
      PowIsPow2(n - 1);
      Pow2Add(31, 31 * (n - 1));
      Pow2Constants();
    }
  }

  /** The power of two a shift by `shift` bits multiplies or divides by. */
  lemma ShiftFactor(shift: nat)
    ensures Pow2(shift) == Pow(shift / 31) * Pow2(shift % 31)
  {
    PowIsPow2(shift / 31);
    Pow2Add(31 * (shift / 31), shift % 31);
  }

  /** A digit array whose value reaches Base^(|s|-1) has a non-zero top limb. */
  lemma TopNonzero(s: seq<int>)
    requires Digits(s) && |s| > 0 && Val(s) >= Pow(|s| - 1)
    ensures s[|s| - 1] != 0
  {
    var k := |s| - 1;
    ValSplit(s, k);
    ValBound(s[..k]);
    assert s[k..] == [s[k]];
    assert Val(s[k..]) == s[k] + Base * Val([]);
  }

  /** One step of the `_lshift` carry loop, over plain integers. */
  lemma LShiftStepArith(vr: int, vx: int, c: int, c2: int, low: int, xi: int, f: int, p: int)
    requires vr + c * p == vx * f
    requires low + Base * c2 == xi * f + c
    ensures vr + low * p + c2 * (Base * p) == (vx + xi * p) * f
  {
    assert c2 * (Base * p) == (Base * c2) * p;
    assert (low + Base * c2) * p == (xi * f + c) * p;
  }

  lemma LShiftCarry(xi: int, f: int, c: int)
    requires 0 <= xi < Base && 1 <= f <= Msb && 0 <= c < f
    ensures 0 <= xi * f + c < Base * f
  {
    MulNonneg(xi, f);
    MulNonneg(Base - 1 - xi, f);
  }

  /** The limb loop of `_lshift`: every limb times f, the carry moved up. */
  method ScaleLimbs(x: seq<int>, f: int) returns (r: seq<int>, carry: int)
    requires Digits(x) && 1 <= f <= Msb
    ensures |r| == |x| && Digits(r) && 0 <= carry < f
    ensures Val(r) + carry * Pow(|x|) == Val(x) * f
  {
    r := x;
    carry := 0;
    var i := 0;
    while i < |r|
      invariant 0 <= i <= |r| == |x|
      invariant r[i..] == x[i..]
      invariant forall k :: 0 <= k < i ==> IsDigit(r[k])
      invariant 0 <= carry < f
      invariant Val(r[..i]) + carry * Pow(i) == Val(x[..i]) * f
    {
      var temp := r[i] * f + carry;
      LShiftCarry(r[i], f, carry);
      var c2 := temp / Base;              // `$temp >> 31`
      var low := temp - c2 * Base;
      assert c2 < f by {
        DivModUnique(temp, Base, c2, low);
      }
      ghost var before := r;
      r := r[i := low];
      assert Val(r[..i + 1]) + c2 * Pow(i + 1) == Val(x[..i + 1]) * f by {
        assert r[..i] == before[..i];
        ValPrefixStep(r, i);
        ValPrefixStep(x, i);
        assert x[i] == before[i];
        LShiftStepArith(Val(r[..i]), Val(x[..i]), carry, c2, low, x[i], f, Pow(i));
      }
      carry := c2;
      i := i + 1;
    }
    assert r[..i] == r && x[..i] == x;
  }

  /**
   * `_lshift`: multiplies the magnitude by 2^shift; the carry out of the top
   * limb becomes a new limb and the whole-limb part prepends zeros.
   */
  method LShift(x: seq<int>, shift: nat) returns (r: seq<int>)
    requires Digits(x)
    ensures Digits(r) && Val(r) == Val(x) * Pow2(shift)
    ensures Normal(x) && |x| > 0 ==> Normal(r)
    ensures shift == 0 ==> r == x
  {
    if shift == 0 {
      return x;
    }
    var numDigits := shift / 31;
    var bits := shift % 31;
    Pow2Mono(bits, 30);
    Pow2Constants();
    var scaled, carry := ScaleLimbs(x, Pow2(bits));    // `1 << $shift`
    r := scaled;
    if carry != 0 {
      r := r + [carry];
      ValAppend(scaled, carry);
    }
    assert Normal(x) && |x| > 0 ==> r[|r| - 1] != 0 by {
      if Normal(x) && |x| > 0 && carry == 0 {
        ValNormalLower(x);
        MulAtLeast(Val(x), Pow2(bits));
        TopNonzero(r);
      }
    }
    var limbs := r;
    r := Zeros(numDigits) + r;
    assert Val(r) == Val(x) * Pow2(shift) by {
      ValZerosThen(numDigits, limbs);
      ShiftFactor(shift);
      MulSwap(Pow(numDigits), Val(x), Pow2(bits));
    }
  }

  lemma MulAtLeast(v: int, f: int)
    requires v >= 0 && f >= 1
    ensures v * f >= v
  {
    MulNonneg(v, f - 1);
  }

  lemma MulSwap(p: int, v: int, f: int)
    ensures p * (v * f) == v * (p * f)
  {
  }

  /** One step of the `_rshift` loop, over plain integers. */
  lemma RShiftStepArith(vi: int, f: int, g: int, rem: int, rest: int, top: int)
    requires f >= 1 && f * g == Base && 0 <= vi
    requires top == vi / f + rem * g
    ensures (top + Base * rest) * f + vi % f == vi + Base * (rest * f + rem)
  {
    assert vi == (vi / f) * f + vi % f;
    assert rem * g * f == rem * Base;
  }

  lemma RShiftDigit(vi: int, f: int, g: int, rem: int)
    requires f >= 1 && f * g == Base && 0 <= vi < Base && 0 <= rem < f
    ensures 0 <= vi / f < g && 0 <= vi / f + rem * g < Base
  {
    DivModUnique(vi, f, vi / f, vi % f);
    if vi / f >= g {
      MulNonneg(vi / f - g, f);
    }
    MulNonneg(f - 1 - rem, g);
  }

  /** Dividing by b and then by c is dividing by b·c. */
  lemma DivDiv(a: int, b: int, c: int)
    requires a >= 0 && b > 0 && c > 0
    ensures a / b / c == a / (b * c)
  {
    var q := a / b / c;
    var r := (a / b) % c * b + a % b;
    assert a / b == q * c + (a / b) % c;
    assert a == q * (b * c) + r;
    assert r < b * c by {
      assert (a / b) % c * b <= (c - 1) * b;
    }
    DivModUnique(a, b * c, q, r);
  }

  lemma SplitQuotient(a: int, lo: int, hi: int, p: int)
    requires p > 0 && 0 <= lo < p && a == lo + p * hi
    ensures a / p == hi
  {
    DivModUnique(a, p, hi, lo);
  }

  /** Dropping the low k limbs divides by Base^k. */
  lemma DropLimbs(x: seq<int>, k: nat)
    requires Digits(x)
    ensures Val(if k <= |x| then x[k..] else []) == Val(x) / Pow(k)
  {
    ValBound(x);
    if k <= |x| {
      ValSplit(x, k);
      ValBound(x[..k]);
      SplitQuotient(Val(x), Val(x[..k]), Val(x[k..]), Pow(k));
    } else {
      PowMono(|x|, k);
      DivModUnique(Val(x), Pow(k), 0, Val(x));
    }
  }

  /** The limb loop of `_rshift`, top limb first, each limb taking the low bits of the one above. */
  method ShiftLimbsDown(v: seq<int>, bits: nat) returns (r: seq<int>)
    requires Digits(v) && bits < 31
    ensures Digits(r) && |r| == |v| && Val(r) == Val(v) / Pow2(bits)
  {
    var f := Pow2(bits);
    var carryShift := 31 - bits;
    var g := Pow2(carryShift);
    assert f * g == Base by {
      Pow2Add(bits, carryShift);
      Pow2Constants();
    }
    var carryMask := f - 1;
    r := v;
    var carry: nat := 0;
    ghost var rem := 0;
    var i := |v|;
    while i > 0
      invariant 0 <= i <= |v| == |r|
      invariant r[..i] == v[..i]
      invariant forall k :: i <= k < |r| ==> IsDigit(r[k])
      invariant 0 <= rem < f && carry == rem * g
      invariant Val(v[i..]) == Val(r[i..]) * f + rem
    {
      i := i - 1;
      var vi := r[i];
      assert vi == v[i];
      RShiftDigit(vi, f, g, rem);
      var top := Or(vi / f, carry);                 // `$value[$i] >> $shift | $carry`
      OrDisjoint(vi / f, rem, carryShift);
      var low := And(vi, carryMask);                // `$value[$i] & $carry_mask`
      AndLowMask(vi, bits);
      ghost var rest := Val(r[i + 1..]);
      r := r[i := top];
      assert Val(v[i..]) == Val(r[i..]) * f + low by {
        assert r[i..][1..] == r[i + 1..];
        assert v[i..][1..] == v[i + 1..];
        RShiftStepArith(vi, f, g, rem, rest, top);
      }
      MulNonneg(low, g);
      carry := low * g;                              // `<< $carry_shift`
      rem := low;
    }
    assert r[0..] == r && v[0..] == v;
    ValBound(v);
    ValBound(r);
    DivModUnique(Val(v), f, Val(r), rem);
  }

  /**
   * `_rshift`: divides the magnitude by 2^shift, rounding down, and trims
   * the result.
   */
  method RShift(x: seq<int>, shift: nat) returns (r: seq<int>)
    requires Digits(x)
    ensures Val(r) == Val(x) / Pow2(shift)
    ensures shift > 0 ==> Normal(r)
    ensures shift == 0 ==> r == x
  {
    if shift == 0 {
      return x;
    }
    var numDigits := shift / 31;
    var bits := shift % 31;
    var v := x;
    if numDigits != 0 {
      v := if numDigits <= |x| then x[numDigits..] else [];   // `array_slice`
    }
    DropLimbs(x, numDigits);
    var shifted := ShiftLimbsDown(v, bits);
    r := Trim(shifted);
    ValBound(x);
    DivDiv(Val(x), Pow(numDigits), Pow2(bits));
    ShiftFactor(shift);
  }

  lemma MulTwice(a: int, b: int)
    ensures 2 * (a * b) == a * (2 * b)
  {
  }

  /**
   * The normalisation shift of `divide` (HAC 14.23): the number of left
   * shifts that bring bit 30 of the divisor's top limb to 1.
   */
  method NormalizingShift(top: int) returns (shift: nat)
    requires 0 < top < Base
    ensures Msb <= top * Pow2(shift) < Base
    ensures shift == 0 || top * Pow2(shift - 1) < Msb
  {
    Pow2Constants();
    var msb := top;
    shift := 0;
    ghost var previous := 0;
    AndTopBit(msb, 30);
    while And(msb, Msb) == 0                       // `!($msb & self::$msb)`
      invariant 0 < msb < Base && msb == top * Pow2(shift)
      invariant And(msb, Msb) != 0 <==> msb >= Msb
      invariant shift == 0 || (previous < Msb && previous == top * Pow2(shift - 1))
      decreases Base - msb
    {
      previous := msb;
      msb := msb * 2;                              // `$msb <<= 1`
      shift := shift + 1;
      assert msb == top * Pow2(shift) by {
        assert Pow2(shift) == 2 * Pow2(shift - 1);
        MulTwice(top, Pow2(shift - 1));
      }
      AndTopBit(msb, 30);
    }
  }
}

/**
 * `divide`, `_divide_digit` and `_safe_divide` of the internal mode:
 * schoolbook long division after Knuth's algorithm D (HAC 14.20), with the
 * divisor normalised so that bit 30 of its top limb is set.
 */
module LimbDiv {
  import opened Bits
  import opened Limbs
  import opened LimbAdd
  import opened LimbMul
  import opened LimbShift

  /**
   * `_safe_divide`: `(x - x % y) / y`, the exact division of x less its
   * remainder. On non-negative operands PHP's `%` agrees with the floor
   * remainder, so the result is the floor quotient.
   */
  function SafeDivide(a: int, b: int): (r: int)
    requires a >= 0 && b > 0
    ensures 0 <= r && r * b <= a < (r + 1) * b
    ensures r == a / b
  {
    FloorDivBounds(a, b);
    var e := a - a % b;
    assert e == (a / b) * b;
    DivModUnique(e, b, a / b, 0);
    e / b
  }

  /** `isset($v[$k]) ? $v[$k] : 0`: a limb, or zero beyond the end. */
  function At(s: seq<int>, k: int): int
  {
    if 0 <= k < |s| then s[k] else 0
  }

  /** The value of three limbs, least significant first. */
  function Window(lo: int, mid: int, hi: int): int
  {
    lo + Base * mid + Base * Base * hi
  }

  // ---------------------------------------------------------------------
  // _divide_digit

  lemma DivideDigitStep(xi: int, rest: int, vq: int, c: int, qi: int, c2: int, d: int)
    requires rest == vq * d + c
    requires qi * d + c2 == Base * c + xi
    ensures xi + Base * rest == (qi + Base * vq) * d + c2
  {
    assert Base * (vq * d) == (Base * vq) * d;
  }

  /** One limb of `_divide_digit`, on the suffixes of dividend and quotient. */
  lemma DivideDigitSuffix(x: seq<int>, q: seq<int>, i: nat, qi: int, c: int, c2: int, d: int)
    requires i < |x| == |q|
    requires Val(x[i + 1..]) == Val(q[i + 1..]) * d + c
    requires qi * d + c2 == Base * c + x[i]
    ensures Val(x[i..]) == Val(q[i := qi][i..]) * d + c2
  {
    var q2 := q[i := qi];
    assert q2[i..][1..] == q[i + 1..];
    assert x[i..][1..] == x[i + 1..];
    DivideDigitStep(x[i], Val(x[i + 1..]), Val(q[i + 1..]), c, qi, c2, d);
  }

  lemma DivideDigitBound(xi: int, c: int, d: int, qi: int)
    requires IsDigit(xi) && 0 <= c < d && qi * d <= Base * c + xi
    requires d > 0
    ensures qi < Base
  {
    MulNonneg(d - 1 - c, Base);
    if qi >= Base {
      MulNonneg(qi - Base, d);
    }
  }

  /**
   * `_divide_digit`: divides a limb array by one limb, top limb first,
   * carrying each remainder into the next limb down.
   */
  method DivideDigit(x: seq<int>, d: int) returns (q: seq<int>, r: int)
    requires Digits(x) && 0 < d < Base
    ensures |q| == |x| && Digits(q) && 0 <= r < d
    ensures Val(x) == Val(q) * d + r
    ensures Val(q) == Val(x) / d && r == Val(x) % d
  {
    q := Zeros(|x|);
    var carry := 0;
    var i := |x|;
    while i > 0
      invariant 0 <= i <= |x| == |q|
      invariant forall k :: i <= k < |q| ==> IsDigit(q[k])
      invariant 0 <= carry < d
      invariant Val(x[i..]) == Val(q[i..]) * d + carry
    {
      i := i - 1;
      var temp := Base * carry + x[i];
      MulNonneg(Base, carry);
      var qi := SafeDivide(temp, d);
      var c2 := temp - d * qi;
      DivideDigitBound(x[i], carry, d, qi);
      assert IsDigit(qi);
      DivideDigitSuffix(x, q, i, qi, carry, c2, d);
      q := q[i := qi];
      carry := c2;
    }
    r := carry;
    assert x[0..] == x && q[0..] == q;
    ValBound(q);
    DivModUnique(Val(x), d, Val(q), r);
  }

  // ---------------------------------------------------------------------
  // The limbs the quotient estimate reads

  /** Arrays of at most three limbs, written out. */
  lemma ValShort(t: seq<int>)
    requires |t| <= 3
    ensures Val(t) == Window(At(t, 0), At(t, 1), At(t, 2))
  {
    if |t| > 0 {
      var u := t[1..];
      if |u| > 0 {
        assert u[1..] == t[2..];
        if |u| > 1 {
          assert u[1..][1..] == t[3..];
        }
      }
    }
  }

  /**
   * The top three limbs at positions i, i−1, i−2 of a remainder below
   * Base^(i+1) (zero where the array is shorter), and the rest below them.
   */
  lemma RemainderWindow(s: seq<int>, i: nat) returns (low: int)
    requires Normal(s) && i >= 2 && Val(s) < Pow(i + 1)
    ensures Val(s) == Window(At(s, i - 2), At(s, i - 1), At(s, i)) * Pow(i - 2) + low
    ensures 0 <= low < Pow(i - 2)
  {
    NormalLength(s, i + 1);
    if |s| <= i - 2 {
      ShortWindow(s, i);
      low := Val(s);
    } else {
      LongWindow(s, i);
      low := Val(s[..i - 2]);
    }
  }

  /** A remainder shorter than i − 2 limbs: the window is zero. */
  lemma ShortWindow(s: seq<int>, i: nat)
    requires Digits(s) && i >= 2 && |s| <= i - 2
    ensures Window(At(s, i - 2), At(s, i - 1), At(s, i)) == 0
    ensures 0 <= Val(s) < Pow(i - 2)
  {
    ValBound(s);
    PowMono(|s|, i - 2);
  }

  /** A remainder of i − 1 to i + 1 limbs: the window holds its top limbs. */
  lemma LongWindow(s: seq<int>, i: nat)
    requires Digits(s) && i >= 2 && i - 2 < |s| <= i + 1
    ensures Val(s) == Window(At(s, i - 2), At(s, i - 1), At(s, i)) * Pow(i - 2) + Val(s[..i - 2])
    ensures 0 <= Val(s[..i - 2]) < Pow(i - 2)
  {
    ValSplit(s, i - 2);
    var top := s[i - 2..];
    ValShort(top);
    assert At(top, 0) == At(s, i - 2) && At(top, 1) == At(s, i - 1) && At(top, 2) == At(s, i);
    ValBound(s[..i - 2]);
  }

  /** The top two limbs of a divisor of t+1 limbs, and the rest below them. */
  lemma DivisorWindow(y: seq<int>, t: nat) returns (low: int)
    requires Digits(y) && |y| == t + 1 && t >= 1
    ensures Val(y) == (y[t - 1] + Base * y[t]) * Pow(t - 1) + low
    ensures 0 <= low < Pow(t - 1)
  {
    LongWindow(y, t + 1);
    assert At(y, t - 1) == y[t - 1] && At(y, t) == y[t] && At(y, t + 1) == 0;
    low := Val(y[..t - 1]);
  }

  // ---------------------------------------------------------------------
  // The quotient digit estimate, over plain integers. X is the running
  // remainder, Yj = v·P + W the shifted divisor with top limbs v, and
  // u = X / P the remainder's top three limbs.

  lemma MulLtCancel(a: int, b: int, p: int)
    requires p > 0 && a * p < b * p
    ensures a < b
  {
    if a >= b {
      MulNonneg(a - b, p);
    }
  }

  /** A remainder below Base·Yj has its top limbs below (v+1)·Base. */
  lemma WindowBelow(X: int, u: int, lowX: int, P: int, Yj: int, v: int, W: int)
    requires P >= 1 && 0 <= lowX < P && X == u * P + lowX
    requires 0 <= W < P && Yj == v * P + W && X < Yj * Base
    ensures u < (v + 1) * Base
  {
    assert Yj * Base == (v * P + W) * Base;
    assert (v * P + W) * Base < ((v + 1) * Base) * P by {
      MulNonneg(P - W - 1, Base);
    }
    MulLtCancel(u, (v + 1) * Base, P);
  }

  /** A candidate h with (h+1)·v above the top limbs bounds the quotient. */
  lemma QuotientAtMost(X: int, u: int, lowX: int, P: int, Yj: int, v: int, W: int, h: int)
    requires P >= 1 && 0 <= lowX < P && X == u * P + lowX
    requires 0 <= W && Yj == v * P + W
    requires h >= -1 && v >= 0 && u + 1 <= (h + 1) * v
    ensures X < (h + 1) * Yj
  {
    assert X < (u + 1) * P;
    MulNonneg((h + 1) * v - u - 1, P);
    assert (u + 1) * P <= ((h + 1) * v) * P;
    MulNonneg(h + 1, W);
    assert (h + 1) * Yj == ((h + 1) * v) * P + (h + 1) * W;
  }

  /** A candidate h with h·v within the top limbs is at most one too large. */
  lemma QuotientAtLeast(X: int, u: int, lowX: int, P: int, Yj: int, v: int, W: int, h: int)
    requires P >= 1 && 0 <= lowX < P && X == u * P + lowX
    requires 0 <= W < P && Yj == v * P + W
    requires 0 <= h <= v + 1 && 0 <= v && h * v <= u
    ensures (h - 1) * Yj <= X
  {
    if h > 0 {
      MulNonneg(h - 1, P - W);
      assert (h - 1) * Yj <= (h - 1) * ((v + 1) * P);
      assert (h - 1) * ((v + 1) * P) == (h * v + h - v - 1) * P;
      assert h * v + h - v - 1 <= u;
      MulNonneg(u - (h * v + h - v - 1), P);
      MulNonneg(u, P);
    } else {
      MulNonneg(v, P);
    }
  }

  /** The remainder's top limb never exceeds the divisor's. */
  lemma TopLimbsOrdered(x0: int, x1: int, x2: int, y0: int, y1: int)
    requires IsDigit(x0) && IsDigit(x1) && IsDigit(x2) && IsDigit(y0) && IsDigit(y1)
    requires Window(x2, x1, x0) < (Window(y1, y0, 0) + 1) * Base
    ensures x0 <= y0
  {
    var v := Window(y1, y0, 0);
    assert (v + 1) * Base == y0 * (Base * Base) + (y1 + 1) * Base;
    if x0 > y0 {
      MulNonneg(x0 - y0 - 1, Base * Base);
      MulNonneg(Base - 1 - y1, Base);
      MulNonneg(x1, Base);
    }
  }

  lemma FloorDivBounds(a: int, b: int)
    requires a >= 0 && b > 0
    ensures 0 <= a / b && (a / b) * b <= a < (a / b + 1) * b
  {
    DivModUnique(a, b, a / b, a % b);
    if a / b < 0 {
      MulNonneg(-(a / b) - 1, b);
    }
  }

  /** Two limbs over a larger top limb give a digit; at most 1 when the upper limb is zero. */
  lemma EstimateIsDigit(x0: int, x1: int, y0: int, q: int)
    requires 0 <= x0 < y0 < Base && Msb <= y0 && IsDigit(x1)
    requires q == (x0 * Base + x1) / y0
    ensures IsDigit(q) && (x0 == 0 ==> q <= 1)
  {
    var a := x0 * Base + x1;
    MulNonneg(x0, Base);
    FloorDivBounds(a, y0);
    MulNonneg(y0 - 1 - x0, Base);
    assert a < Base * y0;
    MulLtCancel(q, Base, y0);
    if x0 == 0 {
      assert a < 2 * y0;
      MulLtCancel(q, 2, y0);
    }
  }

  /** The two-limb estimate is never below the three-by-two quotient. */
  lemma EstimateCovers(x0: int, x1: int, x2: int, y0: int, y1: int, q: int)
    requires 0 <= x0 && IsDigit(x1) && IsDigit(x2) && 0 < y0 && IsDigit(y1) && q >= 0
    requires q == (x0 * Base + x1) / y0
    ensures Window(x2, x1, x0) + 1 <= (q + 1) * Window(y1, y0, 0)
  {
    var a := x0 * Base + x1;
    DivModUnique(a, y0, a / y0, a % y0);
    assert (q + 1) * y0 >= a + 1;
    MulNonneg((q + 1) * y0 - a - 1, Base);
    MulNonneg(q + 1, y1);
    assert (q + 1) * Window(y1, y0, 0) == ((q + 1) * y0) * Base + (q + 1) * y1;
    assert Window(x2, x1, x0) == a * Base + x2;
  }

  /**
   * The first estimate of step 3.1: Base−1 when the top limbs agree,
   * otherwise the top two remainder limbs over the top divisor limb. It is
   * a digit, at most 1 when the remainder's top limb is zero, and never
   * below the true quotient digit.
   */
  lemma FirstEstimate(x0: int, x1: int, x2: int, y0: int, y1: int, qhat: int)
    requires IsDigit(x0) && IsDigit(x1) && IsDigit(x2) && Msb <= y0 < Base && IsDigit(y1)
    requires Window(x2, x1, x0) < (Window(y1, y0, 0) + 1) * Base
    requires qhat == if x0 == y0 then MaxDigit else (x0 * Base + x1) / y0
    ensures IsDigit(qhat) && (x0 == 0 ==> qhat <= 1)
    ensures qhat == MaxDigit || Window(x2, x1, x0) + 1 <= (qhat + 1) * Window(y1, y0, 0)
  {
    TopLimbsOrdered(x0, x1, x2, y0, y1);
    if x0 != y0 {
      EstimateIsDigit(x0, x1, y0, qhat);
      EstimateCovers(x0, x1, x2, y0, y1, qhat);
    }
  }

  lemma QuotientBelow(X: int, Yj: int, h: int)
    requires 0 <= X < (h + 1) * Yj && Yj > 0
    ensures X / Yj <= h
  {
    DivModUnique(X, Yj, X / Yj, X % Yj);
    if X / Yj > h {
      MulNonneg(X / Yj - h - 1, Yj);
    }
  }

  // ---------------------------------------------------------------------
  // One step of the main loop (HAC 14.20, steps 3.1 to 3.4)

  lemma MulLe(a: int, b: int, c: int, d: int)
    requires 0 <= a <= b && 0 <= c <= d
    ensures a * c <= b * d
  {
    MulNonneg(b - a, c);
    MulNonneg(b, d - c);
  }

  /** The divisor shifted up by j limbs, split at its top two limbs. */
  lemma ShiftedDivisorWindow(ys: seq<int>, t: nat, j: nat) returns (W: int)
    requires Digits(ys) && |ys| == t + 1 && t >= 1
    ensures 0 <= W < Pow(t - 1 + j)
    ensures Val(ys) * Pow(j) == Window(ys[t - 1], ys[t], 0) * Pow(t - 1 + j) + W
  {
    var lowY := DivisorWindow(ys, t);
    PowAdd(t - 1, j);
    W := ScaledSplit(Val(ys), Window(ys[t - 1], ys[t], 0), lowY, Pow(t - 1), Pow(j));
  }

  lemma ScaledSplit(V: int, v: int, low: int, pt: int, pj: int) returns (W: int)
    requires V == v * pt + low && 0 <= low < pt && pj >= 1
    ensures V * pj == v * (pt * pj) + W && W == low * pj && 0 <= W < pt * pj
  {
    W := low * pj;
    assert V * pj == (v * pt) * pj + low * pj;
    MulNonneg(low, pj);
    MulNonneg(pt - low - 1, pj);
  }

  /** A remainder below the divisor times Base^(i−t) is below Base^(i+1) and Base·Yj. */
  lemma RemainderBelow(rem: seq<int>, ys: seq<int>, i: nat, t: nat)
    requires Digits(ys) && |ys| == t + 1 && i >= t + 1
    requires Val(rem) < Val(ys) * Pow(i - t)
    ensures Val(rem) < Pow(i + 1)
    ensures Val(rem) < (Val(ys) * Pow(i - t - 1)) * Base
  {
    var a := Pow(i - t - 1);
    calc <= {
      Val(ys) * Pow(i - t);
      { ValBound(ys); MulLe(Val(ys), Pow(t + 1), Pow(i - t), Pow(i - t)); }
      Pow(t + 1) * Pow(i - t);
      { PowAdd(t + 1, i - t); }
      Pow(i + 1);
    }
    calc {
      Val(ys) * Pow(i - t);
      { assert Pow(i - t) == Base * a; }
      Val(ys) * (Base * a);
      { MulRotate(Val(ys), Base, a); }
      (Val(ys) * a) * Base;
    }
  }

  lemma MulRotate(x: int, b: int, a: int)
    ensures x * (b * a) == (x * a) * b
  {
  }

  /**
   * The quantities the estimate works on for position i: the remainder is
   * u·P + lowX with u its limbs i, i−1, i−2, and the divisor shifted by
   * j = i−t−1 limbs is v·P + W with v its top two limbs.
   */
  lemma DigitWindows(rem: seq<int>, ys: seq<int>, i: nat, t: nat)
    returns (P: int, lowX: int, W: int)
    requires Normal(rem) && Digits(ys) && |ys| == t + 1 && t >= 1 && i >= t + 1
    requires Val(rem) < Val(ys) * Pow(i - t)
    ensures P == Pow(i - 2) && 0 <= lowX < P && 0 <= W < P
    ensures Val(rem) == Window(At(rem, i - 2), At(rem, i - 1), At(rem, i)) * P + lowX
    ensures Val(ys) * Pow(i - t - 1) == Window(ys[t - 1], ys[t], 0) * P + W
    ensures Val(rem) < (Val(ys) * Pow(i - t - 1)) * Base
  {
    P := Pow(i - 2);
    W := ShiftedDivisorWindow(ys, t, i - t - 1);
    RemainderBelow(rem, ys, i, t);
    lowX := RemainderWindow(rem, i);
  }

  /** A normal product below Base^3 against the three-limb window, as `_compare` orders them. */
  lemma OrderAgainstWindow(lhs: seq<int>, window: seq<int>)
    requires Normal(lhs) && Digits(window) && |window| == 3 && Val(lhs) < Pow(3)
    ensures Order(lhs, false, window, false) > 0 ==> Val(lhs) > Val(window)
    ensures window[2] != 0 && Order(lhs, false, window, false) <= 0 ==> Val(lhs) <= Val(window)
  {
    NormalLength(lhs, 3);
    if |lhs| < 3 && window[2] != 0 {
      LongerIsLarger(window, lhs);
    }
  }

  lemma ValOneLimb(d: int)
    ensures Val([d]) == d
  {
    assert [d][1..] == [];
  }

  lemma ProductBelowCube(q: int, v: int)
    requires IsDigit(q) && 0 <= v < Base * Base
    ensures 0 <= q * v < Pow(3)
  {
    assert Pow(3) == Base * (Base * Base) by {
      assert Pow(1) == Base;
      assert Pow(2) == Base * Base;
    }
    MulNonneg(q, v);
    MulLe(q, Base - 1, v, Base * Base);
  }

  /**
   * Step 3.2: lowers the estimate while it times the divisor's top two
   * limbs exceeds the remainder's top three. Every value passed over was
   * too large; the one kept is within the window unless the window's top
   * limb is zero (then `_compare` counts limbs of an array that is not
   * trimmed, and the loop may stop early).
   */
  method RefineEstimate(q0: int, x0: int, x1: int, x2: int, y0: int, y1: int) returns (qhat: int)
    requires IsDigit(q0) && IsDigit(x0) && IsDigit(x1) && IsDigit(x2) && IsDigit(y1) && Msb <= y0 < Base
    ensures 0 <= qhat <= q0
    ensures qhat < q0 ==> Window(x2, x1, x0) + 1 <= (qhat + 1) * Window(y1, y0, 0)
    ensures x0 != 0 ==> qhat * Window(y1, y0, 0) <= Window(x2, x1, x0)
  {
    var divisorTop := [y1, y0];
    var window := [x2, x1, x0];
    ghost var u := Window(x2, x1, x0);
    ghost var v := Window(y1, y0, 0);
    ValShort(divisorTop);
    ValShort(window);
    assert Val(divisorTop) == v && Val(window) == u;
    assert 0 <= v < Base * Base by {
      MulNonneg(y0, Base);
      MulLe(y0, Base - 1, Base, Base);
    }
    qhat := q0;
    ValOneLimb(qhat);
    var lhs := MultiplyMagnitudes([qhat], divisorTop);   // `$lhs->multiply($temp)`
    var c := Compare(lhs, false, window, false);
    ProductBelowCube(qhat, v);
    OrderAgainstWindow(lhs, window);
    while c > 0                                                // `$lhs->compare($rhs) > 0`
      invariant 0 <= qhat <= q0
      invariant Val(lhs) == qhat * v && Normal(lhs)
      invariant c == Order(lhs, false, window, false)
      invariant c > 0 ==> qhat * v > u
      invariant window[2] != 0 && c <= 0 ==> qhat * v <= u
      invariant qhat < q0 ==> u + 1 <= (qhat + 1) * v
      decreases qhat
    {
      qhat := qhat - 1;
      ValOneLimb(qhat);
      lhs := MultiplyMagnitudes([qhat], divisorTop);
      c := Compare(lhs, false, window, false);
      ProductBelowCube(qhat, v);
      OrderAgainstWindow(lhs, window);
    }
  }

  /**
   * Steps 3.1 and 3.2: the estimate of quotient digit j = i−t−1 from the
   * top limbs. It is the true digit or one more.
   */
  method EstimateDigit(rem: seq<int>, ys: seq<int>, i: nat, t: nat) returns (qhat: int)
    requires Normal(rem) && Normal(ys) && |ys| == t + 1 && t >= 1 && ys[t] >= Msb && i >= t + 1
    requires Val(rem) < Val(ys) * Pow(i - t)
    ensures IsDigit(qhat)
    ensures Val(rem) < (qhat + 1) * (Val(ys) * Pow(i - t - 1))
    ensures (qhat - 1) * (Val(ys) * Pow(i - t - 1)) <= Val(rem)
    ensures At(rem, i) == 0 && At(rem, i - 1) == 0 ==> qhat == 0
  {
    var x0, x1, x2 := At(rem, i), At(rem, i - 1), At(rem, i - 2);
    var y0, y1 := ys[t], ys[t - 1];
    ghost var P, lowX, W := DigitWindows(rem, ys, i, t);
    ghost var X, Yj := Val(rem), Val(ys) * Pow(i - t - 1);
    ghost var u, v := Window(x2, x1, x0), Window(y1, y0, 0);
    WindowBelow(X, u, lowX, P, Yj, v, W);
    var q0 := if x0 == y0 then MaxDigit else SafeDivide(x0 * Base + x1, y0);
    FirstEstimate(x0, x1, x2, y0, y1, q0);
    assert X < (q0 + 1) * Yj by {
      if q0 != MaxDigit {
        QuotientAtMost(X, u, lowX, P, Yj, v, W, q0);
      }
    }
    qhat := RefineEstimate(q0, x0, x1, x2, y0, y1);
    if qhat < q0 {
      QuotientAtMost(X, u, lowX, P, Yj, v, W, qhat);
    }
    assert (qhat - 1) * Yj <= X by {
      ValBound(rem);
      ValBound(ys);
      MulNonneg(Val(ys), Pow(i - t - 1));
      if x0 != 0 {
        QuotientAtLeast(X, u, lowX, P, Yj, v, W, qhat);
      } else {
        MulNonneg(1 - qhat, Yj);
      }
    }
  }

  lemma ShiftedMultiple(q: int, y: int, p: int)
    ensures p * (q * y) == q * (y * p)
  {
  }

  /** The sign flag `_subtract` returns tells whether the difference is negative. */
  lemma DifferenceSign(rem: seq<int>, temp: seq<int>, diff: seq<int>, neg: bool)
    requires Normal(rem) && Normal(temp) && |temp| > 0 && Normal(diff)
    requires |rem| > 0 ==> Canonical(diff, neg)
    requires |rem| == 0 ==> diff == temp && neg
    ensures neg <==> Signed(diff, neg) < 0
  {
    ValZeroIffEmpty(diff);
    ValBound(diff);
  }

  /** Step 3.3 for a non-zero estimate: the remainder less the estimate times the shifted divisor. */
  method SubtractShifted(rem: seq<int>, ys: seq<int>, j: nat, qhat: int) returns (diff: seq<int>, neg: bool)
    requires Normal(rem) && Normal(ys) && |ys| > 0 && 0 < qhat < Base
    ensures Normal(diff) && Signed(diff, neg) == Val(rem) - qhat * (Val(ys) * Pow(j))
    ensures neg <==> Signed(diff, neg) < 0
  {
    ValOneLimb(qhat);
    var prod := MultiplyMagnitudes([qhat], ys);                 // `$temp->multiply($y)`
    var temp := Zeros(j) + prod;                                 // `array_merge($adjust, ...)`
    ValNormalLower(ys);
    MulAtLeast(Val(ys), qhat);
    ValZeroIffEmpty(prod);
    assert Normal(temp) by {
      assert temp[|temp| - 1] == prod[|prod| - 1];
    }
    assert Val(temp) == qhat * (Val(ys) * Pow(j)) by {
      ValZerosThen(j, prod);
      ShiftedMultiple(qhat, Val(ys), Pow(j));
    }
    NormalCountSound(rem, temp);
    var d;
    d, neg := SubtractLimbs(rem, false, temp, false);            // `$x->subtract($temp)`
    diff := Trim(d);
    DifferenceSign(rem, temp, d, neg);
  }

  /** Step 3.4: adding the shifted divisor back to a negative remainder. */
  method AddBackShifted(next: seq<int>, ys: seq<int>, j: nat) returns (sum: seq<int>)
    requires Normal(next) && |next| > 0 && Normal(ys) && |ys| > 0
    requires Val(ys) * Pow(j) >= Val(next)
    ensures Normal(sum) && Val(sum) == Val(ys) * Pow(j) - Val(next)
  {
    var shifted := Zeros(j) + ys;
    assert Normal(shifted) by {
      assert shifted[|shifted| - 1] == ys[|ys| - 1];
    }
    ValZerosThen(j, ys);
    NormalCountSound(next, shifted);
    assert Canonical(next, true) && Canonical(shifted, false);
    var s, sNeg := AddLimbs(next, true, shifted, false);           // `$x->add($temp)`
    assert Canonical(s, sNeg);
    ValZeroIffEmpty(s);
    ValBound(s);
    assert Val(s) == Val(ys) * Pow(j) - Val(next);
    sum := Trim(s);
  }

  /**
   * Steps 3.3 and 3.4 with the digit estimate in hand: subtract the
   * estimate times the shifted divisor and, if that overshoots, add the
   * divisor back once. A zero estimate subtracts nothing.
   */
  method SubtractMultiple(rem: seq<int>, ys: seq<int>, j: nat, qhat: int) returns (next: seq<int>, digit: int)
    requires Normal(rem) && Normal(ys) && |ys| > 0 && IsDigit(qhat)
    requires Val(rem) < (qhat + 1) * (Val(ys) * Pow(j))
    requires (qhat - 1) * (Val(ys) * Pow(j)) <= Val(rem)
    ensures Normal(next) && IsDigit(digit)
    ensures Val(rem) == digit * (Val(ys) * Pow(j)) + Val(next)
    ensures 0 <= Val(next) < Val(ys) * Pow(j)
  {
    ghost var Yj := Val(ys) * Pow(j);
    ghost var X := Val(rem);
    ValBound(rem);
    assert (qhat + 1) * Yj == qhat * Yj + Yj && (qhat - 1) * Yj == qhat * Yj - Yj;
    digit := qhat;
    next := rem;
    if qhat == 0 {
      return;
    }
    var neg;
    next, neg := SubtractShifted(rem, ys, j, qhat);
    var c := Compare(next, neg, [], false);                       // `$x->compare($zero)`
    if c < 0 {
      assert neg && Val(next) == qhat * Yj - X;
      ValZeroIffEmpty(next);
      next := AddBackShifted(next, ys, j);
      digit := qhat - 1;
    }
  }

  // ---------------------------------------------------------------------
  // Normalisation and the leading quotient digit

  /** A digit array split at its top limb. */
  lemma TopLimbSplit(s: seq<int>)
    requires Digits(s) && |s| >= 1
    ensures Val(s) == Val(s[..|s| - 1]) + Pow(|s| - 1) * s[|s| - 1]
    ensures 0 <= Val(s[..|s| - 1]) < Pow(|s| - 1)
  {
    var t := |s| - 1;
    ValSplit(s, t);
    assert s[t..] == [s[t]];
    ValOneLimb(s[t]);
    ValBound(s[..t]);
  }

  /** A top limb times f stays below Base, so one more top limb times f fits. */
  lemma ShiftHeadroom(top: int, f: int, g: int)
    requires f >= 1 && g >= 0 && top >= 0 && f * g == Base && top * f < Base
    ensures (top + 1) * f <= Base
  {
    MulLtCancel(top, g, f);
    MulLe(top + 1, g, f, f);
  }

  /** A value low + p·top with low < p, scaled by f, lies in [Msb·p, Base·p). */
  lemma ScaledTopBounds(low: int, p: int, top: int, f: int)
    requires 0 <= low < p && top >= 0 && f >= 1 && (top + 1) * f <= Base && Msb <= top * f
    ensures Msb * p <= (low + p * top) * f < Base * p
  {
    assert (low + p * top) * f == low * f + p * (top * f);
    MulNonneg(low, f);
    MulLe(Msb, top * f, p, p);
    MulNonneg(p - 1 - low, f);
    MulLe(p, p, (top + 1) * f, Base);
  }

  /** A value lowS + p·d with lowS < p that reaches Msb·p has d >= Msb. */
  lemma TopFromValue(V: int, lowS: int, p: int, d: int)
    requires V == lowS + p * d && 0 <= lowS < p && V >= Msb * p
    ensures d >= Msb
  {
    if d < Msb {
      MulLe(p, p, d + 1, Msb);
    }
  }

  /**
   * Shifting the divisor left until bit 30 of its top limb is set keeps
   * its limb count and leaves a top limb of at least Msb.
   */
  lemma NormalizedDivisor(y: seq<int>, ys: seq<int>, shift: nat)
    requires Normal(y) && |y| >= 1 && Normal(ys)
    requires Msb <= y[|y| - 1] * Pow2(shift) < Base
    requires Val(ys) == Val(y) * Pow2(shift)
    ensures |ys| == |y| && ys[|ys| - 1] >= Msb
  {
    var t := |y| - 1;
    DivisorScaleBounds(y, shift);
    NormalLength(ys, t + 1);
    MulAtLeast(Pow(t), Msb);
    LengthFromValue(ys, t);
    TopLimbSplit(ys);
    TopFromValue(Val(ys), Val(ys[..t]), Pow(t), ys[t]);
  }

  /** The normalised divisor lies in [Msb·Base^t, Base^(t+1)). */
  lemma DivisorScaleBounds(y: seq<int>, shift: nat)
    requires Normal(y) && |y| >= 1
    requires Msb <= y[|y| - 1] * Pow2(shift) < Base
    ensures Msb * Pow(|y| - 1) <= Val(y) * Pow2(shift) < Pow(|y|)
  {
    var t := |y| - 1;
    var top := y[t];
    var f := Pow2(shift);
    TopHeadroom(top, shift);
    var low := Val(y[..t]);
    TopLimbSplit(y);
    SameProduct(Val(y), low + Pow(t) * top, f);
    ScaledTopBounds(low, Pow(t), top, f);
    assert Pow(|y|) == Base * Pow(t);
  }

  /** A top limb whose scaled value fits a limb leaves room for one more unit of scale. */
  lemma TopHeadroom(top: int, shift: nat)
    requires 0 <= top && Msb <= top * Pow2(shift) < Base
    ensures (top + 1) * Pow2(shift) <= Base
  {
    var f := Pow2(shift);
    Pow2Constants();
    assert shift <= 31 by {
      if shift > 31 {
        Pow2Mono(31, shift);
        MulAtLeast(f, top);
      }
    }
    Pow2Add(shift, 31 - shift);
    ShiftHeadroom(top, f, Pow2(31 - shift));
  }

  lemma SameProduct(a: int, b: int, f: int)
    requires a == b
    ensures a * f == b * f
  {
  }

  /** A digit array of value at least Base^k has more than k limbs. */
  lemma LengthFromValue(s: seq<int>, k: nat)
    requires Digits(s) && Val(s) >= Pow(k)
    ensures |s| > k
  {
    ValBound(s);
    if |s| <= k {
      PowMono(|s|, k);
    }
  }

  /** A divisor whose top limb has bit 30 set is at least half of Base^|ys|. */
  lemma DivisorAtLeastHalf(ys: seq<int>)
    requires Digits(ys) && |ys| >= 1 && ys[|ys| - 1] >= Msb
    ensures 2 * Val(ys) >= Pow(|ys|)
  {
    var t := |ys| - 1;
    TopLimbSplit(ys);
    MulLe(Msb, ys[t], Pow(t), Pow(t));
  }

  /** The divisor at limb offset k is at least half of Base^(k+t+1). */
  lemma ShiftedDivisorLarge(ys: seq<int>, k: nat)
    requires Digits(ys) && |ys| >= 1 && ys[|ys| - 1] >= Msb
    ensures 2 * (Val(ys) * Pow(k)) >= Pow(k + |ys|)
  {
    calc >= {
      2 * (Val(ys) * Pow(k));
      (2 * Val(ys)) * Pow(k);
      { DivisorAtLeastHalf(ys); MulLe(Pow(|ys|), 2 * Val(ys), Pow(k), Pow(k)); }
      Pow(|ys|) * Pow(k);
      { PowAdd(|ys|, k); }
      Pow(k + |ys|);
    }
  }

  /**
   * The loop before the digit loop: while the remainder is at least the
   * divisor shifted to the top position, count one more top quotient digit
   * and subtract. `xMax` is the index the source then starts the digit loop
   * from: it is reset to the remainder's top index after each subtraction.
   */
  method PreliminaryDigit(xs: seq<int>, ys: seq<int>, n: nat, t: nat) returns (rem: seq<int>, top: int, xMax: int)
    requires Normal(xs) && Normal(ys) && |xs| == n + 1 && |ys| == t + 1 && n >= t && ys[t] >= Msb
    ensures Normal(rem) && 0 <= top <= 1
    ensures Val(xs) == Val(rem) + top * (Val(ys) * Pow(n - t))
    ensures Val(rem) < Val(ys) * Pow(n - t)
    ensures xMax == if top == 0 then n else |rem| - 1
  {
    var temp := Zeros(n - t) + ys;
    assert Normal(temp) by {
      assert temp[|temp| - 1] == ys[t];
    }
    ghost var T := Val(ys) * Pow(n - t);
    assert Val(temp) == T by {
      ValZerosThen(n - t, ys);
    }
    assert Val(xs) < 2 * T by {
      ValBound(xs);
      ShiftedDivisorLarge(ys, n - t);
    }
    ValNormalLower(ys);
    ValZeroIffEmpty(temp);
    rem := xs;
    top := 0;
    xMax := n;
    var c := Compare(rem, false, temp, false);
    OrderIsSignedOrder(rem, false, temp, false);
    while c >= 0                                         // `$x->compare($temp) >= 0`
      invariant Normal(rem) && 0 <= top <= 1
      invariant Val(xs) == Val(rem) + top * T
      invariant top == 1 ==> Val(rem) < T
      invariant c == Sign(Val(rem) - T)
      invariant xMax == if top == 0 then n else |rem| - 1
      decreases Val(rem)
    {
      assert top == 0 && Val(rem) >= T;
      ValZeroIffEmpty(rem);
      NormalCountSound(rem, temp);
      var neg;
      ghost var before := Val(rem);
      rem, neg := SubtractLimbs(rem, false, temp, false);   // `$x->subtract($temp)`
      assert Val(rem) == before - T;
      rem := Trim(rem);
      top := top + 1;                                   // `++$quotient_value[$x_max - $y_max]`
      xMax := |rem| - 1;
      c := Compare(rem, false, temp, false);
      OrderIsSignedOrder(rem, false, temp, false);
    }
  }

  /**
   * The leading-digit loop on x = 2^30·Base + 2^30·Base², y = 2^30·Base
   * (already normalised): one subtraction leaves a two-limb remainder, so
   * the digit loop would start at index 1 = t and run no iteration, leaving
   * a remainder equal to the divisor, where x = (Base+1)·y.
   */
  method PreliminaryShrinks() returns (rem: seq<int>, top: int, xMax: int)
    ensures top == 1 && xMax == 1 && Val(rem) == Val([0, Msb])
  {
    var xs := [0, Msb, Msb];
    var ys := [0, Msb];
    ValShort(xs);
    ValShort(ys);
    rem, top, xMax := PreliminaryDigit(xs, ys, 2, 1);
    assert Pow(1) == Base;
    assert Val(xs) == Val(ys) * Pow(1) + Val(ys);
    assert Val(rem) == Val(ys);
    NormalLength(rem, 2);
    ValBound(rem);
    assert Pow(2) == Base * Base;
  }

  // ---------------------------------------------------------------------
  // The digit loop

  lemma DigitAccumulate(X: int, R0: int, D0: int, Vy: int, R1: int, d: int, pj: int)
    requires X == R0 + D0 * Vy && R0 == d * (Vy * pj) + R1
    ensures X == R1 + (D0 + d * pj) * Vy
  {
  }

  lemma Regroup(a: int, b: int, c: int)
    ensures (a * b) * c == a * (c * b)
  {
  }

  lemma ScaledDivision(X: int, Y: int, f: int)
    requires X >= 0 && Y > 0 && f > 0
    ensures (X * f) / (Y * f) == X / Y && (X * f) % (Y * f) == (X % Y) * f
  {
    DivModUnique(X, Y, X / Y, X % Y);
    MulNonneg(X % Y, f);
    MulNonneg(Y - 1 - X % Y, f);
    assert X * f == (X / Y) * (Y * f) + (X % Y) * f;
    DivModUnique(X * f, Y * f, X / Y, (X % Y) * f);
  }

  /**
   * The digit loop on normalised operands: the leading digit, then one
   * digit per position from the top, each subtracted from the remainder.
   */
  method LongDivide(xs: seq<int>, ys: seq<int>) returns (digits: seq<int>, rem: seq<int>)
    requires Normal(xs) && Normal(ys) && |ys| >= 2 && ys[|ys| - 1] >= Msb && |xs| >= |ys|
    ensures Digits(digits) && Normal(rem)
    ensures Val(xs) == Val(rem) + Val(digits) * Val(ys) && Val(rem) < Val(ys)
  {
    var n := |xs| - 1;
    var t := |ys| - 1;
    digits := Zeros(n - t + 1);                          // `_array_repeat(0, $x_max - $y_max + 1)`
    var top, xMax;
    rem, top, xMax := PreliminaryDigit(xs, ys, n, t);
    ValOfZeros(digits);
    ValUpdate(digits, n - t, top);
    digits := digits[n - t := top];
    assert Val(xs) == Val(rem) + Val(digits) * Val(ys) by {
      Regroup(top, Pow(n - t), Val(ys));
    }
    var i := n;
    while i > t                                          // `$i >= $y_max + 1`
      invariant t <= i <= n
      invariant Normal(rem) && Val(rem) < Val(ys) * Pow(i - t)
      invariant |digits| == n - t + 1 && Digits(digits)
      invariant forall k :: 0 <= k < i - t ==> digits[k] == 0
      invariant Val(xs) == Val(rem) + Val(digits) * Val(ys)
    {
      var j := i - t - 1;
      var qhat := EstimateDigit(rem, ys, i, t);
      ghost var before := Val(rem);
      var d;
      rem, d := SubtractMultiple(rem, ys, j, qhat);
      DigitAccumulate(Val(xs), before, Val(digits), Val(ys), Val(rem), d, Pow(j));
      ValUpdate(digits, j, d);
      digits := digits[j := d];
      i := i - 1;
    }
  }

  /**
   * The multi-limb case of `divide` on magnitudes x > y: normalise, divide
   * the shifted operands, and shift the remainder back.
   */
  method DivideMagnitudes(x: seq<int>, y: seq<int>) returns (q: seq<int>, r: seq<int>)
    requires Normal(x) && Normal(y) && |y| >= 2 && Val(x) > Val(y)
    ensures Normal(q) && Normal(r) && Val(y) > 0
    ensures Val(q) == Val(x) / Val(y) && Val(r) == Val(x) % Val(y)
  {
    var shift := NormalizingShift(y[|y| - 1]);
    var xs := LShift(x, shift);                          // `$x->_lshift($shift)`
    var ys := LShift(y, shift);
    NormalizedDivisor(y, ys, shift);
    ghost var f := Pow2(shift);
    ValBound(y);
    MulLe(Val(y), Val(x), f, f);
    ValNormalLower(y);
    MulAtLeast(Val(y), f);
    AtLeastNormalCountSound(xs, ys);
    var digits, rem := LongDivide(xs, ys);
    ValBound(rem);
    ValBound(digits);
    DivModUnique(Val(xs), Val(ys), Val(digits), Val(rem));
    ScaledDivision(Val(x), Val(y), f);
    r := RShift(rem, shift);                             // `$x->_rshift($shift)`
    DivModUnique(Val(rem), f, Val(x) % Val(y), 0);
    q := Trim(digits);
  }

  // ---------------------------------------------------------------------
  // divide

  /** The remainder of a negated value, in Dafny's (never negative) `%`. */
  lemma NegatedRemainder(X: int, Y: int)
    requires X >= 0 && Y > 0
    ensures (-X) % Y == if X % Y == 0 then 0 else Y - X % Y
  {
    DivModUnique(X, Y, X / Y, X % Y);
    if X % Y == 0 {
      DivModUnique(-X, Y, -(X / Y), 0);
    } else {
      DivModUnique(-X, Y, -(X / Y) - 1, Y - X % Y);
    }
  }

  /** `_divide_digit` behind `divide`: quotient and remainder trimmed. */
  method DivideByLimb(x: seq<int>, y: seq<int>) returns (q: seq<int>, r: seq<int>)
    requires Normal(x) && Normal(y) && |y| == 1
    ensures Normal(q) && Normal(r) && Val(y) == y[0] > 0
    ensures Val(q) == Val(x) / Val(y) && Val(r) == Val(x) % Val(y)
  {
    ValOneLimb(y[0]);
    var digits, rem := DivideDigit(x, y[0]);
    q := Trim(digits);
    ValOneLimb(rem);
    r := Trim([rem]);
  }

  /** The magnitude |y| − r, trimmed, for the residue of a negative dividend. */
  method Complement(y: seq<int>, r: seq<int>) returns (c: seq<int>)
    requires Normal(y) && Normal(r) && |y| > 0 && Val(r) <= Val(y)
    ensures Normal(c) && Val(c) == Val(y) - Val(r)
  {
    NormalCountSound(y, r);
    var d, dNeg := SubtractLimbs(y, false, r, false);   // `$y->subtract($x)`
    c := Trim(d);
  }

  /**
   * `divide` in the internal mode, as written in its signs and its
   * residue; the magnitudes come from the corrected long division
   * (`LongDivide`), so the digit loop's own slips are not in here (they are
   * shown by `PreliminaryShrinks` and `ZeroEstimateStepAsWritten`). The quotient is the
   * magnitude quotient with the sign of x·y (a positive zero when |x| < |y|
   * and |y| has more than one limb). The remainder is |x| mod |y|, except
   * that for a negative x and a multi-limb y other than |x| it is |y| minus
   * that, even when that is |y| itself.
   */
  method DivideResidueAsWritten(x: seq<int>, xNeg: bool, y: seq<int>, yNeg: bool) returns (q: seq<int>, qNeg: bool, r: seq<int>)
    requires Normal(x) && Normal(y) && |y| > 0
    ensures Normal(q) && Normal(r) && Val(y) > 0
    ensures Val(q) == Val(x) / Val(y)
    ensures qNeg == (xNeg != yNeg && (|y| == 1 || Val(x) >= Val(y)))
    ensures Val(r) == if xNeg && |y| > 1 && Val(x) != Val(y) then Val(y) - Val(x) % Val(y) else Val(x) % Val(y)
  {
    ValNormalLower(y);
    ValBound(x);
    if |y| == 1 {
      q, r := DivideByLimb(x, y);
      qNeg := xNeg != yNeg;
      return;
    }
    var diff := Compare(x, false, y, false);
    OrderIsSignedOrder(x, false, y, false);
    if diff == 0 {
      ValOneLimb(1);
      DivModUnique(Val(x), Val(y), 1, 0);
      return [1], xNeg != yNeg, [];
    }
    if diff < 0 {
      DivModUnique(Val(x), Val(y), 0, Val(x));
      r := x;
      if xNeg {
        r := Complement(y, x);
      }
      return [], false, r;
    }
    q, r := DivideMagnitudes(x, y);
    qNeg := xNeg != yNeg;
    if xNeg {
      r := Complement(y, r);
    }
  }

  /** The common residue of a signed dividend from the remainder of its magnitude. */
  lemma ResidueOfSigned(X: int, Y: int, R: int, xNeg: bool)
    requires X >= 0 && Y > 0 && R == X % Y
    ensures (if xNeg && R != 0 then Y - R else R) == (if xNeg then -X else X) % Y
    ensures 0 <= (if xNeg && R != 0 then Y - R else R) < Y
  {
    NegatedRemainder(X, Y);
  }

  /**
   * The corrected sign handling of the remainder: a negative dividend with
   * a non-zero remainder r gets |y| − r.
   */
  method Residue(y: seq<int>, r: seq<int>, xNeg: bool) returns (c: seq<int>)
    requires Normal(y) && Normal(r) && |y| > 0 && Val(r) < Val(y)
    ensures Normal(c) && Val(c) == if xNeg && Val(r) != 0 then Val(y) - Val(r) else Val(r)
  {
    ValZeroIffEmpty(r);
    c := r;
    if xNeg && |r| > 0 {
      c := Complement(y, r);
    }
  }

  /**
   * The branches of `divide` up to the sign of the remainder: one-limb
   * divisor, equal magnitudes, smaller dividend, and long division.
   */
  method QuotientAndRemainder(x: seq<int>, xNeg: bool, y: seq<int>, yNeg: bool) returns (q: seq<int>, qNeg: bool, rem: seq<int>)
    requires Normal(x) && Normal(y) && |y| > 0
    ensures Normal(q) && Normal(rem) && Val(y) > 0
    ensures Val(q) == Val(x) / Val(y) && Val(rem) == Val(x) % Val(y)
    ensures qNeg == (xNeg != yNeg && (|y| == 1 || Val(x) >= Val(y)))
  {
    ValNormalLower(y);
    ValBound(x);
    if |y| == 1 {
      q, rem := DivideByLimb(x, y);
      qNeg := xNeg != yNeg;
      return;
    }
    var diff := Compare(x, false, y, false);
    OrderIsSignedOrder(x, false, y, false);
    if diff == 0 {
      ValOneLimb(1);
      DivModUnique(Val(x), Val(y), 1, 0);
      q, qNeg, rem := [1], xNeg != yNeg, [];
    } else if diff < 0 {
      DivModUnique(Val(x), Val(y), 0, Val(x));
      q, qNeg, rem := [], false, x;
    } else {
      q, rem := DivideMagnitudes(x, y);
      qNeg := xNeg != yNeg;
    }
  }

  /**
   * `divide` with the remainder corrected to the common residue the method
   * documents: the remainder of a negative x is |y| less |x| mod |y| when
   * that is non-zero, and zero otherwise, on every path.
   */
  method Divide(x: seq<int>, xNeg: bool, y: seq<int>, yNeg: bool) returns (q: seq<int>, qNeg: bool, r: seq<int>)
    requires Normal(x) && Normal(y) && |y| > 0
    ensures Normal(q) && Normal(r) && Val(y) > 0
    ensures Val(q) == Val(x) / Val(y)
    ensures qNeg == (xNeg != yNeg && (|y| == 1 || Val(x) >= Val(y)))
    ensures Val(r) == Signed(x, xNeg) % Val(y) && Val(r) < Val(y)
    ensures !xNeg ==> Signed(q, qNeg) * Signed(y, yNeg) + Val(r) == Val(x)
  {
    var rem;
    q, qNeg, rem := QuotientAndRemainder(x, xNeg, y, yNeg);
    ValBound(x);
    r := Residue(y, rem, xNeg);
    ResidueOfSigned(Val(x), Val(y), Val(rem), xNeg);
    if !xNeg {
      assert Val(x) < Val(y) ==> Val(q) == 0 by {
        if Val(x) < Val(y) {
          DivModUnique(Val(x), Val(y), 0, Val(x));
        }
      }
      SignedProduct(q, qNeg, y, yNeg);
      DivMod(Val(x), Val(y));
    }
  }

  lemma DivMod(a: int, m: int)
    requires m > 0
    ensures a == (a / m) * m + a % m && 0 <= a % m < m
  {
  }

  /** Matching sign flags (or a zero quotient) multiply to the product of the magnitudes. */
  lemma SignedProduct(q: seq<int>, qNeg: bool, y: seq<int>, yNeg: bool)
    requires qNeg == yNeg || Val(q) == 0
    ensures Signed(q, qNeg) * Signed(y, yNeg) == Val(q) * Val(y)
  {
  }

  /**
   * Two inputs on which `divide` as written misses the documented residue:
   * −7 over 3 (one-limb divisor) leaves 1 instead of 2, and −2·Base over
   * Base (two-limb divisor) leaves Base instead of 0.
   */
  method DivideResidueExamples() returns (r1: seq<int>, r2: seq<int>)
    ensures Val(r1) == 1 && Signed([7], true) % Val([3]) == 2
    ensures Val(r2) == Base && Signed([0, 2], true) % Val([0, 1]) == 0
  {
    ValOneLimb(7);
    ValOneLimb(3);
    var q1, q1Neg;
    q1, q1Neg, r1 := DivideResidueAsWritten([7], true, [3], false);
    ValShort([0, 2]);
    ValShort([0, 1]);
    var q2, q2Neg;
    q2, q2Neg, r2 := DivideResidueAsWritten([0, 2], true, [0, 1], false);
    DivModUnique(Val([0, 2]), Val([0, 1]), 2, 0);
    NegatedRemainder(Val([0, 2]), Val([0, 1]));
  }

  // ---------------------------------------------------------------------
  // A zero digit estimate in the digit loop as written

  /**
   * Steps 3.3 and 3.4 as written when the estimate is 0: the product is
   * empty, so `$temp` is j zero limbs, and the remainder is still
   * "reduced" by it. An empty remainder minus that is a zero flagged
   * negative, which compares below zero, so the divisor is added back and
   * the digit becomes −1. (A non-empty remainder shorter than j limbs is
   * ordered by limb count below the zeros, and `_subtract`'s borrow loop
   * then runs past the end of its array; that case is excluded here.)
   */
  method ZeroEstimateStepAsWritten(rem: seq<int>, ys: seq<int>, j: nat) returns (next: seq<int>, digit: int)
    requires Normal(rem) && Normal(ys) && |ys| > 0 && (|rem| == 0 || |rem| >= j)
    ensures |rem| == 0 ==> digit == -1 && Val(next) == Val(ys) * Pow(j)
    ensures |rem| > 0 ==> digit == 0 && Val(next) == Val(rem)
  {
    digit := 0;
    var prod, prodNeg := Multiply([digit], false, ys, false);  // `$temp->multiply($y)`
    ValOneLimb(0);
    assert prod == [];
    var temp := Zeros(j) + prod;
    assert temp == Zeros(j);
    ValOfZeros(temp);
    ValBound(rem);
    ValZeroIffEmpty(rem);
    var d, neg := SubtractLimbs(rem, false, temp, false);      // `$x->subtract($temp)`
    assert |rem| == 0 ==> d == temp && neg;
    assert |rem| > 0 ==> Val(d) == Val(rem) && (!neg || |d| == 0);
    next := Trim(d);
    assert |rem| == 0 ==> next == [];
    assert |rem| > 0 ==> |next| > 0 && !neg by {
      if |rem| > 0 {
        ValBound(d);
      }
    }
    var c := Compare(next, neg, [], false);                     // `$x->compare($zero)`
    if c < 0 {
      var shifted := Zeros(j) + ys;
      assert Digits(shifted);
      ValBound(shifted);
      ValZerosThen(j, ys);
      var sum, sumNeg := AddLimbs(next, neg, shifted, false);  // `$x->add($temp)`
      next := Trim(sum);
      digit := digit - 1;                                       // `--$quotient_value[$q_index]`
    }
  }

  lemma ExampleOperands()
    ensures Normal([0, Msb]) && Val([0, Msb]) == Msb * Base
    ensures Pow(4) == Base * Pow(3) && Pow(5) == Base * Pow(4)
  {
    ValShort([0, Msb]);
  }

  /**
   * (2^30 − 1)·Base^5 + low over 2^30·Base, both already normalised: the
   * first digit, at position 3, is Base − 2 and leaves just `low`.
   */
  method FirstDigitStep(low: int) returns (rem1: seq<int>)
    requires 0 <= low < Base
    ensures Val(rem1) == low && Normal(rem1)
  {
    var rem0 := [low, 0, 0, 0, 0, Msb - 1];
    var ys := [0, Msb];
    ExampleOperands();
    ghost var Yj := Val(ys) * Pow(3);
    assert Val(rem0) == low + (Msb - 1) * Pow(5) by {
      assert rem0 == [low] + Zeros(4) + [Msb - 1];
      ValConcat([low] + Zeros(4), [Msb - 1]);
      ValConcat([low], Zeros(4));
      ValOfZeros(Zeros(4));
      ValOneLimb(low);
      ValOneLimb(Msb - 1);
    }
    assert Val(rem0) == (Base - 2) * Yj + low;
    assert Val(rem0) < Val(ys) * Pow(4);
    var qhat := EstimateDigit(rem0, ys, 5, 1);
    var d;
    rem1, d := SubtractMultiple(rem0, ys, 3, qhat);
    DivModUnique(Val(rem0), Yj, d, Val(rem1));
    DivModUnique(Val(rem0), Yj, Base - 2, low);
  }

  /**
   * On (2^30 − 1)·Base^5 over 2^30·Base the remainder is exhausted after the
   * first digit; at the next position the estimate is 0 and the step as
   * written records the digit −1 and a remainder of y·Base^2.
   */
  method ZeroEstimateExample() returns (rem1: seq<int>, qhat: int, next: seq<int>, digit: int)
    ensures rem1 == [] && qhat == 0
    ensures digit == -1 && Val(next) == Val([0, Msb]) * Pow(2)
  {
    var ys := [0, Msb];
    ExampleOperands();
    rem1 := FirstDigitStep(0);
    ValZeroIffEmpty(rem1);
    qhat := EstimateDigit(rem1, ys, 4, 1);
    next, digit := ZeroEstimateStepAsWritten(rem1, ys, 2);
  }

  /**
   * On (2^30 − 1)·Base^5 + 1 over 2^30·Base the remainder after the first
   * digit is the single limb 1; the next estimate is 0, and the remainder
   * and the two zero limbs it is then "reduced" by are ordered by count,
   * the wrong way round, which `_subtract` does not survive.
   */
  method ShortRemainderExample() returns (rem1: seq<int>, qhat: int)
    ensures rem1 == [1] && qhat == 0
    ensures Val(rem1) > Val(Zeros(2)) && Order(rem1, false, Zeros(2), false) < 0
  {
    var ys := [0, Msb];
    ExampleOperands();
    rem1 := FirstDigitStep(1);
    ValOneLimb(1);
    NormalUnique(rem1, [1]);
    ValOfZeros(Zeros(2));
    qhat := EstimateDigit(rem1, ys, 4, 1);
  }
}

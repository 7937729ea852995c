/**
 * The public arithmetic of Oxygen_Math_BigInteger in its internal mode: a
 * value is a limb array with a sign flag, and every public operation builds
 * a new value from the limb helpers and passes it through `_normalize`.
 */
module BigInteger {

  import opened Bits
  import opened Limbs
  import LimbAdd
  import LimbMul
  import LimbDiv
  import LimbShift

  /** A BigInteger value: `$value` (little-endian limbs) and `$is_negative`. */
  datatype BigInt = BigInt(value: seq<int>, negative: bool)

  /** The integer a value stands for. */
  function IntOf(b: BigInt): int
  {
    Signed(b.value, b.negative)
  }

  /** A normalised value: trimmed limbs, and zero is never flagged negative. */
  predicate Valid(b: BigInt)
  {
    Canonical(b.value, b.negative)
  }

  const Zero: BigInt := BigInt([], false)
  const One: BigInt := BigInt([1], false)

  /** The normalised value of an integer. */
  function FromInt(z: int): (b: BigInt)
    ensures Valid(b) && IntOf(b) == z
  {
    var m := if z < 0 then -z else z;
    ValZeroIffEmpty(ToLimbs(m));
    BigInt(ToLimbs(m), z < 0)
  }

  /** A normalised value is determined by the integer it stands for. */
  lemma ValidUnique(b: BigInt)
    requires Valid(b)
    ensures b == FromInt(IntOf(b))
  {
    ValBound(b.value);
    ValZeroIffEmpty(b.value);
    NormalIsToLimbs(b.value);
  }

  /** On a normalised value the flag is the sign. */
  lemma NegativeFlag(b: BigInt)
    requires Valid(b)
    ensures b.negative <==> IntOf(b) < 0
    ensures IntOf(Abs(b)) == Val(b.value)
    ensures Val(b.value) > 0 <==> |b.value| > 0
  {
    ValBound(b.value);
    ValZeroIffEmpty(b.value);
  }

  /** The parity `$x->value[0] & 1` reads: an empty value reads as even. */
  predicate IsOdd(b: BigInt)
  {
    |b.value| > 0 && b.value[0] % 2 == 1
  }

  lemma IsOddIsParity(b: BigInt)
    requires Valid(b)
    ensures IsOdd(b) <==> IntOf(b) % 2 == 1
  {
    if |b.value| > 0 {
      var v := b.value;
      assert Val(v) == v[0] + 2 * ((Base / 2) * Val(v[1..]));
      ValBound(v[1..]);
      ModParity(v[0], (Base / 2) * Val(v[1..]));
    }
  }

  lemma ModParity(d: int, k: int)
    ensures (d + 2 * k) % 2 == d % 2 && (-(d + 2 * k)) % 2 == d % 2
  {
    DivModUnique(d + 2 * k, 2, d / 2 + k, d % 2);
    if d % 2 == 0 {
      DivModUnique(-(d + 2 * k), 2, -(d / 2 + k), 0);
    } else {
      DivModUnique(-(d + 2 * k), 2, -(d / 2 + k) - 1, 1);
    }
  }

  // ---------------------------------------------------------------------
  // _normalize
  // ---------------------------------------------------------------------

  /**
   * `_normalize` with no precision set: an empty value is returned as it is
   * (sign included); any other value is trimmed.
   */
  method Normalize(b: BigInt) returns (r: BigInt)
    requires Digits(b.value)
    ensures Normal(r.value) && Val(r.value) == Val(b.value) && r.negative == b.negative
    ensures |b.value| == 0 ==> r == b
    ensures Canonical(b.value, b.negative) ==> r == b
  {
    if |b.value| == 0 {
      return b;
    }
    var value := Limbs.Trim(b.value);
    r := BigInt(value, b.negative);
    if Normal(b.value) {
      NormalUnique(value, b.value);
    }
  }

  // ---------------------------------------------------------------------
  // add, subtract, multiply, divide
  // ---------------------------------------------------------------------

  /** `add`: the normalised sum. */
  method Add(x: BigInt, y: BigInt) returns (r: BigInt)
    requires Valid(x) && Valid(y)
    ensures Valid(r) && IntOf(r) == IntOf(x) + IntOf(y)
  {
    NormalCountSound(x.value, y.value);
    var value, negative := LimbAdd.AddLimbs(x.value, x.negative, y.value, y.negative);
    r := Normalize(BigInt(value, negative));
  }

  /**
   * `subtract` as written: the difference, normalised, except that zero
   * minus zero comes back as a negative zero, since `_subtract` returns the
   * second operand with its sign flipped when the first is empty and
   * `_normalize` keeps the sign of an empty value.
   */
  method SubtractAsWritten(x: BigInt, y: BigInt) returns (r: BigInt)
    requires Valid(x) && Valid(y)
    ensures Normal(r.value) && IntOf(r) == IntOf(x) - IntOf(y)
    ensures Valid(r) <==> !(x == Zero && y == Zero)
  {
    NormalCountSound(x.value, y.value);
    var value, negative := LimbAdd.SubtractLimbs(x.value, x.negative, y.value, y.negative);
    r := Normalize(BigInt(value, negative));
  }

  /** 0 − 0 is a negative zero, which `compare` ranks below zero. */
  method SubtractZeroExample() returns (r: BigInt, c: int)
    ensures r == BigInt([], true) && IntOf(r) == 0
    ensures c == -1
  {
    r := SubtractAsWritten(Zero, Zero);
    c := Limbs.Compare(r.value, r.negative, Zero.value, Zero.negative);
  }

  /** `subtract` with a zero difference always positive, as `_add` already does. */
  method Subtract(x: BigInt, y: BigInt) returns (r: BigInt)
    requires Valid(x) && Valid(y)
    ensures Valid(r) && IntOf(r) == IntOf(x) - IntOf(y)
  {
    r := SubtractAsWritten(x, y);
    if |r.value| == 0 {
      r := Zero;
    }
  }

  lemma MulPositive(a: int, b: int)
    requires a > 0 && b > 0
    ensures a * b > 0
  {
  }

  /** `multiply`: the normalised product, positive when zero. */
  method Multiply(x: BigInt, y: BigInt) returns (r: BigInt)
    requires Valid(x) && Valid(y)
    ensures Valid(r) && IntOf(r) == IntOf(x) * IntOf(y)
  {
    var value, negative := LimbMul.Multiply(x.value, x.negative, y.value, y.negative);
    r := BigInt(value, negative);
    ValBound(x.value);
    ValBound(y.value);
    ValZeroIffEmpty(x.value);
    ValZeroIffEmpty(y.value);
    ValZeroIffEmpty(value);
    if negative {
      MulPositive(Val(x.value), Val(y.value));
    }
  }

  /**
   * `divide`: the quotient of the magnitudes, negated when the signs differ,
   * and the remainder as the common residue modulo |y| (with the remainder
   * of a negative dividend corrected, see LimbDiv.Divide). A zero quotient
   * of a single-limb division keeps the negative flag.
   */
  method Divide(x: BigInt, y: BigInt) returns (q: BigInt, r: BigInt)
    requires Valid(x) && Valid(y) && |y.value| > 0
    ensures Normal(q.value) && Val(y.value) > 0 && Val(q.value) == Val(x.value) / Val(y.value)
    ensures q.negative <==> x.negative != y.negative && (|y.value| == 1 || Val(x.value) >= Val(y.value))
    ensures Valid(r) && 0 <= IntOf(r) < Val(y.value) && IntOf(r) == IntOf(x) % Val(y.value)
    ensures IntOf(x) >= 0 ==> IntOf(q) * IntOf(y) + IntOf(r) == IntOf(x)
  {
    var qv, qNeg, rv := LimbDiv.Divide(x.value, x.negative, y.value, y.negative);
    q := BigInt(qv, qNeg);
    r := BigInt(rv, false);
    assert IntOf(x) >= 0 ==> IntOf(q) * IntOf(y) + IntOf(r) == IntOf(x) by {
      if IntOf(x) >= 0 && x.negative {
        ValBound(x.value);
        ValZeroIffEmpty(x.value);
      }
    }
  }

  // ---------------------------------------------------------------------
  // compare, equals, abs, the in-place shifts
  // ---------------------------------------------------------------------

  /** `compare`: −1, 0 or 1; on normalised values the order of the integers. */
  method Compare(x: BigInt, y: BigInt) returns (c: int)
    requires Digits(x.value) && Digits(y.value)
    ensures c == Order(x.value, x.negative, y.value, y.negative)
    ensures Valid(x) && Valid(y) ==> c == Sign(IntOf(x) - IntOf(y))
  {
    c := Limbs.Compare(x.value, x.negative, y.value, y.negative);
    if Valid(x) && Valid(y) {
      OrderIsSignedOrder(x.value, x.negative, y.value, y.negative);
    }
  }

  /** `equals`: identical limbs and sign; on normalised values, equal integers. */
  function Equals(x: BigInt, y: BigInt): (r: bool)
    ensures r <==> x.value == y.value && x.negative == y.negative
    ensures Valid(x) && Valid(y) ==> (r <==> IntOf(x) == IntOf(y))
  {
    if Valid(x) && Valid(y) then
      EqualsIsValueEquality(x.value, x.negative, y.value, y.negative);
      Limbs.Equals(x.value, x.negative, y.value, y.negative)
    else
      Limbs.Equals(x.value, x.negative, y.value, y.negative)
  }

  /** `abs`: the same limbs, flagged positive. */
  function Abs(x: BigInt): (r: BigInt)
    requires Digits(x.value)
    ensures r.value == x.value && !r.negative
    ensures IntOf(r) == if IntOf(x) < 0 then -IntOf(x) else IntOf(x)
    ensures Valid(x) ==> Valid(r)
  {
    ValBound(x.value);
    BigInt(x.value, false)
  }

  lemma HalfOfNegatedEven(v: int)
    requires v >= 0 && (-v) % 2 == 0
    ensures v % 2 == 0 && -(v / 2) == (-v) / 2
  {
    DivModUnique(v, 2, -((-v) / 2), 0);
  }

  /** `$x->_rshift(1)` on an even value: the value halves exactly. */
  method Halve(b: BigInt) returns (r: BigInt)
    requires Valid(b) && IntOf(b) % 2 == 0
    ensures Valid(r) && IntOf(r) == IntOf(b) / 2
  {
    var value := LimbShift.RShift(b.value, 1);
    r := BigInt(value, b.negative);
    ValBound(b.value);
    Pow2Constants();
    assert Val(value) == Val(b.value) / 2;
    if b.negative {
      HalfOfNegatedEven(Val(b.value));
      ValZeroIffEmpty(b.value);
      ValZeroIffEmpty(value);
    }
  }

  /** `$g->_lshift(1)` on a positive value: the value doubles. */
  method Double(b: BigInt) returns (r: BigInt)
    requires Valid(b) && IntOf(b) > 0
    ensures Valid(r) && IntOf(r) == 2 * IntOf(b)
  {
    var value := LimbShift.LShift(b.value, 1);
    r := BigInt(value, false);
    ValBound(b.value);
    assert Pow2(1) == 2;
  }
}

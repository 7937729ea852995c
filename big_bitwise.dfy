/**
 * The bitwise side of Oxygen_Math_BigInteger in its internal mode:
 * `setPrecision` and the precision mask `_normalize` applies, `bitwise_and`,
 * `bitwise_or`, `bitwise_xor`, `bitwise_not`, the two shifts and the two
 * rotates. All of them work on the magnitude: and/or/xor keep the
 * receiver's sign flag, the shifts and `bitwise_not` drop it.
 */
module BigBitwise {

  import opened Bits
  import opened Limbs
  import opened Bytes
  import opened LimbBits
  import opened Wrappers
  import opened BigInteger
  import LimbShift
  import Base256

  /**
   * `$this->bitmask`: none while no precision is set; after
   * `setPrecision(bits)`, the limbs the base-256 constructor makes of the
   * bytes of 2^bits − 1 (the single limb 0 when bits is 0).
   */
  datatype Bitmask = NoMask | Mask(bits: nat, limbs: seq<int>)

  predicate MaskValid(m: Bitmask)
  {
    m.Mask? ==> m.limbs == (if m.bits == 0 then [0] else ToLimbs(Pow2(m.bits) - 1))
  }

  /** The magnitude `_normalize` leaves: v itself, or its low `bits` bits. */
  function Masked(v: int, m: Bitmask): (r: int)
    ensures v >= 0 ==> 0 <= r <= v
  {
    if m.Mask? then DivModNonneg(v, Pow2(m.bits)); v % Pow2(m.bits) else v
  }

  lemma {:induction false} MaskValue(m: Bitmask)
    requires m.Mask? && MaskValid(m)
    ensures Digits(m.limbs) && Val(m.limbs) == Pow2(m.bits) - 1
  {
    if m.bits == 0 {
      assert Val([0]) == 0 + Base * Val([]);
    }
  }

  // ---------------------------------------------------------------------
  // setPrecision and the mask of _normalize
  // ---------------------------------------------------------------------

  /** `str_repeat(chr(0xFF), k)`: the k-byte string of all ones. */
  function OnesBytes(k: nat): (r: seq<int>)
    ensures |r| == k && IsBytes(r) && BE(r) == Pow2(8 * k) - 1
  {
    if k == 0 then []
    else
      var r := OnesBytes(k - 1) + [255];
      assert r[..|r| - 1] == OnesBytes(k - 1);
      OnesStep(k);
      r
  }

  lemma {:induction false} OnesStep(k: nat)
    requires k > 0
    ensures (Pow2(8 * (k - 1)) - 1) * 256 + 255 == Pow2(8 * k) - 1
  {
    var m := 8 * (k - 1);
    assert m + 8 == 8 * k;
    Pow2Add(m, 8);
    Pow2Eight();
    assert Pow2(8 * k) == Pow2(m) * 256;
  }

  /**
   * `chr((1 << ($bits & 0x7)) - 1) . str_repeat(chr(0xFF), $bits >> 3)`:
   * the bytes of 2^bits − 1, with a leading zero byte when bits is a
   * multiple of 8.
   */
  function MaskBytes(bits: nat): (r: seq<int>)
    ensures IsBytes(r) && |r| == bits / 8 + 1 && BE(r) == Pow2(bits) - 1
  {
    MaskBytesValue(bits);
    [Pow2(bits % 8) - 1] + OnesBytes(bits / 8)
  }

  lemma {:induction false} MaskBytesValue(bits: nat)
    ensures 0 <= Pow2(bits % 8) - 1 < 256
    ensures BE([Pow2(bits % 8) - 1] + OnesBytes(bits / 8)) == Pow2(bits) - 1
  {
    var r, k := bits % 8, bits / 8;
    var top, ones := Pow2(r) - 1, OnesBytes(k);
    assert 0 <= top < 256 by {
      Pow2Mono(r, 8);
      Pow2Eight();
    }
    var p := Pow2(8 * k);
    ConsValue(top, ones);
    assert Pow2(bits) == (top + 1) * p by {
      assert r + 8 * k == bits;
      Pow2Add(r, 8 * k);
    }
    TopAndOnes(top, p, Pow2(bits));
  }

  lemma {:induction false} TopAndOnes(top: int, p: int, q: int)
    requires q == (top + 1) * p
    ensures top * p + (p - 1) == q - 1
  {
  }

  /**
   * The precision mask of `_normalize`: an empty value is returned as it
   * is; any other value is trimmed and, once a precision is set, cut to the
   * mask's limb count and and-ed with it limb by limb, which keeps its low
   * `bits` bits. The masked limbs are not trimmed again.
   */
  method NormalizeMasked(b: BigInt, mask: Bitmask) returns (r: BigInt)
    requires Digits(b.value) && MaskValid(mask)
    ensures Digits(r.value) && r.negative == b.negative
    ensures Val(b.value) >= 0 && Val(r.value) == Masked(Val(b.value), mask)
    ensures mask.NoMask? ==> Normal(r.value)
    ensures |b.value| == 0 ==> r == b
  {
    ValBound(b.value);
    if |b.value| == 0 {
      return b;
    }
    var value := Limbs.Trim(b.value);
    if mask.Mask? {
      MaskValue(mask);
      var length := if |value| < |mask.limbs| then |value| else |mask.limbs|;
      var masked := CombineLimbs(AndOp, value[..length], mask.limbs[..length]);
      MaskedLimbs(value, mask.limbs, mask.bits, length, masked);
      value := masked;
    }
    r := BigInt(value, b.negative);
  }

  /** The limbs of a value and-ed with the limbs of 2^bits − 1 hold the value's low `bits` bits. */
  lemma {:induction false} MaskedLimbs(value: seq<int>, maskLimbs: seq<int>, bits: nat, length: nat, masked: seq<int>)
    requires Digits(value) && Digits(maskLimbs) && Val(maskLimbs) == Pow2(bits) - 1
    requires length == (if |value| < |maskLimbs| then |value| else |maskLimbs|)
    requires Val(value[..length]) >= 0 && Val(maskLimbs[..length]) >= 0
    requires Val(masked) == And(Val(value[..length]), Val(maskLimbs[..length]))
    ensures Val(value) >= 0 && Val(masked) == Val(value) % Pow2(bits)
  {
    AndOfSlices(value, maskLimbs, length);
    AndLowMask(Val(value), bits);
  }

  /**
   * `setPrecision($bits)`: builds the mask 2^bits − 1 through the base-256
   * constructor and normalises the value with it.
   */
  method SetPrecision(x: BigInt, bits: nat) returns (r: BigInt, mask: Bitmask)
    requires Digits(x.value)
    ensures mask.Mask? && mask.bits == bits && MaskValid(mask)
    ensures Digits(r.value) && r.negative == x.negative
    ensures Val(x.value) >= 0 && Val(r.value) == Val(x.value) % Pow2(bits)
  {
    var bytes := MaskBytes(bits);
    var limbs := Base256.FromBytesAsWritten(bytes);
    mask := Mask(bits, limbs);
    assert MaskValid(mask) by {
      if bits > 0 {
        Pow2Mono(1, bits);
        assert Pow2(1) == 2;
        assert limbs == ToLimbs(Pow2(bits) - 1);
      } else {
        assert limbs == [0];
      }
    }
    r := NormalizeMasked(x, mask);
  }

  // ---------------------------------------------------------------------
  // bitwise_and, bitwise_or, bitwise_xor
  // ---------------------------------------------------------------------

  /**
   * `bitwise_and`: the receiver's limbs cut to the shorter length, and-ed
   * limb by limb with the argument's, then normalised. The magnitude is the
   * `&` of the two magnitudes; the sign flag is the receiver's.
   */
  method BitwiseAnd(x: BigInt, y: BigInt, mask: Bitmask) returns (r: BigInt)
    requires Digits(x.value) && Digits(y.value) && MaskValid(mask)
    ensures Digits(r.value) && r.negative == x.negative
    ensures Val(x.value) >= 0 && Val(y.value) >= 0
    ensures Val(r.value) == Masked(And(Val(x.value), Val(y.value)), mask)
    ensures mask.NoMask? ==> Normal(r.value)
  {
    var length := if |y.value| < |x.value| then |y.value| else |x.value|;
    var value := CombineLimbs(AndOp, x.value[..length], y.value[..length]);
    AndOfSlices(x.value, y.value, length);
    r := NormalizeMasked(BigInt(value, x.negative), mask);
  }

  /** `array_pad($a, $n, 0)`: zero limbs appended up to length n. */
  function Pad(a: seq<int>, n: nat): (r: seq<int>)
    ensures |r| == (if |a| < n then n else |a|) && r[..|a|] == a
    ensures Val(r) == Val(a) && (Digits(a) ==> Digits(r))
  {
    if |a| < n then
      ValThenZeros(a, n - |a|);
      a + Zeros(n - |a|)
    else a
  }

  /**
   * `bitwise_or` and `bitwise_xor` as written: both operands are padded to
   * the longer length and combined limb by limb. The padding of the
   * argument is assigned to `$x->value`, and PHP objects are handles, so the
   * caller's argument keeps the zero limbs afterwards: `yAfter` is what the
   * caller then holds.
   */
  method BitwiseCombineAsWritten(op: Op, x: BigInt, y: BigInt, mask: Bitmask) returns (r: BigInt, yAfter: BigInt)
    requires op != AndOp && Digits(x.value) && Digits(y.value) && MaskValid(mask)
    ensures yAfter == BigInt(Pad(y.value, |x.value|), y.negative)
    ensures Digits(r.value) && r.negative == x.negative
    ensures Val(x.value) >= 0 && Val(y.value) >= 0
    ensures Val(r.value) == Masked(Apply(op, Val(x.value), Val(y.value)), mask)
  {
    var length := if |x.value| < |y.value| then |y.value| else |x.value|;
    var xs := Pad(x.value, length);
    yAfter := BigInt(Pad(y.value, length), y.negative);
    var value := CombineLimbs(op, xs, yAfter.value);
    r := NormalizeMasked(BigInt(value, x.negative), mask);
  }

  /**
   * `$a->bitwise_or($b)` with a = 2^31 and b = 1 leaves b with the limbs
   * [1, 0]: still the value 1, but no longer trimmed, so `_compare` ranks b
   * above 1 by its limb count.
   */
  method PaddedArgumentExample() returns (r: BigInt, yAfter: BigInt)
    ensures yAfter.value == [1, 0] && IntOf(yAfter) == 1 && !Valid(yAfter)
    ensures Order(yAfter.value, yAfter.negative, [1], false) == 1
  {
    r, yAfter := BitwiseCombineAsWritten(OrOp, BigInt([0, 1], false), BigInt([1], false), NoMask);
    assert yAfter.value == [1] + Zeros(1);
    assert Val([1, 0]) == 1 by {
      assert [1, 0][1..] == [0] && [0][1..] == [];
    }
  }

  /**
   * `bitwise_or` and `bitwise_xor` with the padding kept local, so the
   * argument is left as it was: the magnitude is the operator applied to
   * the two magnitudes, and the sign flag is the receiver's.
   */
  method BitwiseCombine(op: Op, x: BigInt, y: BigInt, mask: Bitmask) returns (r: BigInt)
    requires op != AndOp && Digits(x.value) && Digits(y.value) && MaskValid(mask)
    ensures Digits(r.value) && r.negative == x.negative
    ensures Val(x.value) >= 0 && Val(y.value) >= 0
    ensures Val(r.value) == Masked(Apply(op, Val(x.value), Val(y.value)), mask)
    ensures mask.NoMask? ==> Normal(r.value)
  {
    var length := if |x.value| < |y.value| then |y.value| else |x.value|;
    var xs := Pad(x.value, length);
    var ys := Pad(y.value, length);
    var value := CombineLimbs(op, xs, ys);
    r := NormalizeMasked(BigInt(value, x.negative), mask);
  }

  // ---------------------------------------------------------------------
  // bitwise_leftShift, bitwise_rightShift
  // ---------------------------------------------------------------------

  /** `bitwise_leftShift`: a fresh, positive value holding |x| · 2^shift, normalised. */
  method BitwiseLeftShift(x: BigInt, shift: nat, mask: Bitmask) returns (r: BigInt)
    requires Digits(x.value) && MaskValid(mask)
    ensures Digits(r.value) && !r.negative
    ensures Val(x.value) >= 0 && Val(r.value) == Masked(Val(x.value) * Pow2(shift), mask)
    ensures mask.NoMask? ==> Normal(r.value)
  {
    ValBound(x.value);
    MulNonneg(Val(x.value), Pow2(shift));
    var value := LimbShift.LShift(x.value, shift);
    r := NormalizeMasked(BigInt(value, false), mask);
  }

  /** `bitwise_rightShift`: a fresh, positive value holding |x| / 2^shift rounded down. */
  method BitwiseRightShift(x: BigInt, shift: nat, mask: Bitmask) returns (r: BigInt)
    requires Digits(x.value) && MaskValid(mask)
    ensures Digits(r.value) && !r.negative
    ensures Val(x.value) >= 0 && Val(r.value) == Masked(Val(x.value) / Pow2(shift), mask)
    ensures mask.NoMask? ==> Normal(r.value)
  {
    ValBound(x.value);
    var value := LimbShift.RShift(x.value, shift);
    r := NormalizeMasked(BigInt(value, false), mask);
  }

  // ---------------------------------------------------------------------
  // bitwise_not
  // ---------------------------------------------------------------------

  /** The number of bits of n: 0 for 0. */
  function BitLength(n: nat): nat
  {
    if n == 0 then 0 else 1 + BitLength(n / 2)
  }

  /** n lies in [2^(w−1), 2^w) exactly when its bit length is w. */
  lemma {:induction false} BitLengthExact(n: nat, w: nat)
    requires w > 0 && Pow2(w - 1) <= n < Pow2(w)
    ensures BitLength(n) == w
  {
    if w > 1 {
      assert Pow2(w) == 2 * Pow2(w - 1) && Pow2(w - 1) == 2 * Pow2(w - 2);
      BitLengthExact(n / 2, w - 1);
    }
  }

  lemma {:induction false} BitLengthBounds(n: nat)
    ensures n < Pow2(BitLength(n))
    ensures n > 0 ==> Pow2(BitLength(n) - 1) <= n
  {
    if n > 0 {
      BitLengthBounds(n / 2);
    }
  }

  /** `~$s` on a string: every byte b becomes 255 − b. */
  function ComplementBytes(s: seq<int>): (r: seq<int>)
    ensures |r| == |s|
  {
    if |s| == 0 then [] else ComplementBytes(s[..|s| - 1]) + [255 - s[|s| - 1]]
  }

  /** The complement read from the front: the first byte flipped, then the rest. */
  lemma {:induction false} ComplementFront(s: seq<int>)
    requires |s| > 0
    ensures ComplementBytes(s) == [255 - s[0]] + ComplementBytes(s[1..])
    decreases |s|
  {
    var n := |s| - 1;
    if n > 0 {
      ComplementFront(s[..n]);
      assert s[..n][1..] == s[1..][..n - 1];
      assert s[..n][0] == s[0] && s[1..][n - 1] == s[n];
    } else {
      assert s[1..] == [];
    }
  }

  /** The complement of an n-byte string is 256^n − 1 minus the string. */
  lemma {:induction false} ComplementValue(s: seq<int>)
    requires IsBytes(s)
    ensures IsBytes(ComplementBytes(s)) && BE(ComplementBytes(s)) == Pow2(8 * |s|) - 1 - BE(s)
    decreases |s|
  {
    var c := ComplementBytes(s);
    if |s| > 0 {
      var n := |s| - 1;
      var front := ComplementBytes(s[..n]);
      assert c[..n] == front;
      ComplementValue(s[..n]);
      assert IsBytes(c) by {
        assert forall i :: 0 <= i < n ==> c[i] == front[i];
      }
      var p := Pow2(8 * n);
      assert 8 * n + 8 == 8 * |s|;
      Pow2Add(8 * n, 8);
      Pow2Eight();
      calc {
        BE(c);
        BE(front) * 256 + c[n];
        (p - 1 - BE(s[..n])) * 256 + 255 - s[n];
        p * 256 - 1 - (BE(s[..n]) * 256 + s[n]);
        Pow2(8 * |s|) - 1 - BE(s);
      }
    }
  }

  /**
   * `$msb = decbin(ord($temp[0]))`, then, when it has eight digits,
   * `substr($msb, strpos($msb, '0'))`: the leading one bits of the byte are
   * dropped. A byte of eight ones has no '0', `strpos` gives false and the
   * whole byte is kept.
   */
  function TopByteAfterNot(f: nat): nat
  {
    if f == 255 then f else StripLeadingOnes(f, 8)
  }

  /** A width-bit value with its leading one bits removed. */
  function StripLeadingOnes(f: nat, width: nat): nat
  {
    if width == 0 then 0
    else if f >= Pow2(width - 1) then StripLeadingOnes(f - Pow2(width - 1), width - 1)
    else f
  }

  /** For 0 < b < 2^w, stripping the complement of b leaves 2^bitlength(b) − 1 − b. */
  lemma {:induction false} StripComplement(b: nat, w: nat)
    requires 0 < b < Pow2(w)
    ensures StripLeadingOnes(Pow2(w) - 1 - b, w) == Pow2(BitLength(b)) - 1 - b
  {
    var h := Pow2(w - 1);
    assert w > 0 && Pow2(w) == 2 * h;
    if b < h {
      StripComplement(b, w - 1);
    } else {
      BitLengthExact(b, w);
    }
  }

  /**
   * `bitwise_not` with no precision set: the bytes of |x| complemented,
   * the leading one bits of the first byte dropped, read back by the
   * base-256 constructor. Every bit of |x| below its top bit is flipped:
   * the result is 2^bitlength(|x|) − 1 − |x|, positive. For zero the
   * complement is the empty string and the write `$temp[0] = chr(0)`
   * makes it "\0".
   */
  method BitwiseNot(x: BigInt) returns (r: BigInt)
    requires Valid(x)
    ensures Valid(r) && !r.negative
    ensures Val(x.value) >= 0 && Val(r.value) == Pow2(BitLength(Val(x.value))) - 1 - Val(x.value)
  {
    ValBound(x.value);
    var temp := Base256.ToBytes(x.value);
    ghost var v := Val(x.value);
    if |temp| == 0 {
      temp := [0];
      Base256.BESingle(0);
      assert v == 0;
    } else {
      var flipped := ComplementBytes(temp);
      ComplementFront(temp);
      temp := [TopByteAfterNot(flipped[0])] + flipped[1..];
      NotValue(BytesOf(v), temp);
    }
    var value := Base256.FromBytesAsWritten(temp);
    r := NormalizeMasked(BigInt(value, false), NoMask);
  }

  /** The value of the complemented string with its first byte stripped. */
  lemma {:induction false} NotValue(s: seq<int>, t: seq<int>)
    requires IsBytes(s) && |s| > 0 && s[0] != 0
    requires t == [TopByteAfterNot(255 - s[0])] + ComplementBytes(s[1..])
    ensures IsBytes(t) && BE(s) >= 0 && BE(t) == Pow2(BitLength(BE(s))) - 1 - BE(s)
  {
    var b, top, be, k := NotParts(s, t);
    NotInts(BE(s), BE(t), b, top, be, k);
  }

  /** `NotValue` over the numbers `NotParts` finds. */
  lemma {:induction false} NotInts(v: nat, vt: int, b: nat, top: int, be: nat, k: nat)
    requires b > 0 && top == Pow2(BitLength(b)) - 1 - b && be < Pow2(k)
    requires v == b * Pow2(k) + be && vt == top * Pow2(k) + (Pow2(k) - 1 - be)
    ensures vt == Pow2(BitLength(v)) - 1 - v
  {
    var L, p := BitLength(b), Pow2(k);
    LengthOfConcat(v, b, be, L, k);
    BitLengthBounds(b);
    NotArith(b, be, Pow2(L), Pow2(L - 1), p, Pow2(L + k), Pow2(L - 1) * p, top);
    Complemented(vt, v, b, be, p, top, Pow2(L + k));
    var w := L + k;
    assert BitLength(v) == w;
    assert vt == Pow2(w) - 1 - v;
  }

  lemma {:induction false} Complemented(vt: int, v: int, b: int, rest: int, p: int, top: int, Q: int)
    requires v == b * p + rest && vt == top * p + (p - 1 - rest)
    requires top * p + (p - 1 - rest) == Q - 1 - (b * p + rest)
    ensures vt == Q - 1 - v
  {
  }

  /** The first byte, the rest and their complements, as numbers. */
  lemma {:induction false} NotParts(s: seq<int>, t: seq<int>) returns (b: nat, top: int, be: nat, k: nat)
    requires IsBytes(s) && |s| > 0 && s[0] != 0
    requires t == [TopByteAfterNot(255 - s[0])] + ComplementBytes(s[1..])
    ensures b == s[0] > 0 && top == Pow2(BitLength(b)) - 1 - b && be < Pow2(k)
    ensures BE(s) == b * Pow2(k) + be
    ensures IsBytes(t) && BE(t) == top * Pow2(k) + (Pow2(k) - 1 - be)
  {
    var rest := s[1..];
    b := s[0];
    top := TopByte(b);
    k := 8 * |rest|;
    BEBound(rest);
    be := BE(rest);
    assert s == [b] + rest;
    ConsValue(b, rest);
    ComplementValue(rest);
    ConsValue(top, ComplementBytes(rest));
  }

  /** A byte in front of n bytes weighs 256^n. */
  lemma {:induction false} ConsValue(b: int, rest: seq<int>)
    requires 0 <= b < 256 && IsBytes(rest)
    ensures IsBytes([b] + rest) && BE([b] + rest) == b * Pow2(8 * |rest|) + BE(rest)
  {
    BytesCons(b, rest);
    BEConcat([b], rest);
    Base256.BESingle(b);
  }

  lemma {:induction false} BytesCons(b: int, s: seq<int>)
    requires 0 <= b < 256 && IsBytes(s)
    ensures IsBytes([b] + s)
  {
  }

  /** The first byte after `bitwise_not`: the complement of b below b's top bit. */
  lemma {:induction false} TopByte(b: int) returns (top: int)
    requires 0 < b < 256
    ensures top == TopByteAfterNot(255 - b) == Pow2(BitLength(b)) - 1 - b && 0 <= top < 256
  {
    Pow2Eight();
    StripComplement(b, 8);
    BitLengthBounds(b);
    ShiftedOut(b, 8);
    DivZero(b, Pow2(8));
    Pow2Mono(BitLength(b), 8);
    top := Pow2(BitLength(b)) - 1 - b;
  }

  /** Appending k bits below b adds k to its bit length. */
  lemma {:induction false} LengthOfConcat(n: nat, b: nat, rest: nat, L: nat, k: nat)
    requires b > 0 && L == BitLength(b) && rest < Pow2(k) && n == b * Pow2(k) + rest
    ensures L > 0 && Pow2(L + k) == Pow2(L) * Pow2(k)
    ensures BitLength(n) == L + k
  {
    BitLengthBounds(b);
    assert L > 0 && L - 1 + k == L + k - 1;
    Pow2Add(L, k);
    Pow2Add(L - 1, k);
    var p := Pow2(k);
    NotArith(b, rest, Pow2(L), Pow2(L - 1), p, Pow2(L + k), Pow2(L + k - 1), Pow2(L) - 1 - b);
    BitLengthExact(n, L + k);
  }

  /** The arithmetic behind `bitwise_not` and the rotation width: b·p + rest between the two powers, and its complement. */
  lemma {:induction false} NotArith(b: int, rest: int, A: int, A1: int, p: int, Q: int, Q1: int, top: int)
    requires A1 <= b < A && 0 <= rest < p && Q == A * p && Q1 == A1 * p && top == A - 1 - b
    ensures Q1 <= b * p + rest < Q
    ensures top * p + (p - 1 - rest) == Q - 1 - (b * p + rest)
  {
    MulLe(A1, b, p);
    MulLe(b, A - 1, p);
  }

  lemma {:induction false} MulLe(a: int, b: int, p: int)
    requires a <= b && p >= 0
    ensures a * p <= b * p
  {
    MulNonneg(b - a, p);
  }

  /** `~x` on magnitudes flips exactly the bits below the bit length: no bit is shared and together they fill it. */
  lemma {:induction false} NotComplements(a: nat, w: nat)
    requires a < Pow2(w)
    ensures And(a, Pow2(w) - 1 - a) == 0 && Or(a, Pow2(w) - 1 - a) == Pow2(w) - 1
  {
    if w > 0 {
      var h := Pow2(w - 1);
      var b: nat := 2 * h - 1 - a;
      assert Pow2(w) == 2 * h;
      assert b / 2 == h - 1 - a / 2 && a % 2 != b % 2 && a / 2 < h;
      NotComplements(a / 2, w - 1);
      ApplyUnfold(AndOp, a, b);
      ApplyUnfold(OrOp, a, b);
    }
  }

  // ---------------------------------------------------------------------
  // bitwise_leftRotate, bitwise_rightRotate
  // ---------------------------------------------------------------------

  /** PHP's `%` on integers: the remainder takes the sign of the dividend. */
  function PhpMod(a: int, m: int): (r: int)
    requires m > 0
    ensures a >= 0 ==> 0 <= r < m && r == a % m
    ensures a < 0 ==> -m < r <= 0 && r == -((-a) % m)
  {
    if a >= 0 then a % m else -((-a) % m)
  }

  /**
   * `for ($i = 0; $temp >> $i; ++$i);`: counts the shifts until the byte
   * runs out of bits, its bit length.
   */
  method CountBits(temp: nat) returns (i: nat)
    ensures i == BitLength(temp)
  {
    i := 0;
    ShiftedOut(temp, i);
    while temp / Pow2(i) != 0
      invariant i <= BitLength(temp)
      invariant temp / Pow2(i) == 0 <==> BitLength(temp) <= i
      decreases BitLength(temp) - i
    {
      i := i + 1;
      ShiftedOut(temp, i);
    }
  }

  /** `$temp >> $i` is zero exactly when i covers the bit length of temp. */
  lemma {:induction false} ShiftedOut(n: nat, i: nat)
    ensures n / Pow2(i) == 0 <==> BitLength(n) <= i
  {
    DivZero(n, Pow2(i));
    BitLengthBounds(n);
    if BitLength(n) <= i {
      Pow2Mono(BitLength(n), i);
    } else {
      Pow2Mono(i, BitLength(n) - 1);
    }
  }

  /** The width a rotation wraps at: the precision when one above zero is set, else the bit length of |x|. */
  function RotateWidth(v: nat, mask: Bitmask): nat
  {
    if mask.Mask? && mask.bits > 0 then mask.bits else BitLength(v)
  }

  /** The shift `bitwise_leftRotate` ends up using: a negative shift is moved up by one width, then reduced by PHP's `%`. */
  function RotateShift(shift: int, width: nat): int
    requires width > 0
  {
    PhpMod(if shift < 0 then shift + width else shift, width)
  }

  /** a rotated left by s within width bits, as the shifts, the `&` with the width mask and the `|` compute it. */
  function Rotation(a: nat, s: nat, width: nat): nat
    requires s <= width
  {
    Or((a * Pow2(s)) % Pow2(width), a / Pow2(width - s))
  }

  /**
   * `bitwise_leftRotate`. None where PHP throws: a zero value with no
   * precision gives the width −8 and `str_repeat` a negative count, and a
   * shift that is still negative after the adjustment reaches `1 << $shift`
   * with a negative shift. A shift that reduces to 0 gives a copy.
   */
  method BitwiseLeftRotate(x: BigInt, shift: int, mask: Bitmask) returns (r: Option<BigInt>)
    requires Valid(x) && MaskValid(mask)
    ensures Val(x.value) >= 0
    ensures r.None? <==> RotateWidth(Val(x.value), mask) == 0 || RotateShift(shift, RotateWidth(Val(x.value), mask)) < 0
    ensures r.Some? && RotateShift(shift, RotateWidth(Val(x.value), mask)) == 0 ==> r.value == x
    ensures r.Some? && RotateShift(shift, RotateWidth(Val(x.value), mask)) > 0 ==>
      Digits(r.value.value) && !r.value.negative &&
      Val(r.value.value) == Masked(Rotation(Val(x.value), RotateShift(shift, RotateWidth(Val(x.value), mask)), RotateWidth(Val(x.value), mask)), mask)
  {
    var precision, maskBytes := RotatePrecision(x, mask);
    if maskBytes.None? {
      return None;                                       // `str_repeat` with a negative count
    }
    var s := shift;
    if s < 0 {
      s := s + precision;
    }
    s := PhpMod(s, precision);
    if s == 0 {
      return Some(x);
    }
    if s < 0 {
      return None;                                       // `_lshift` with a negative shift
    }
    var result := RotateBy(x, s, precision, maskBytes.value, mask);
    r := Some(result);
  }

  /**
   * The width and the mask bytes of `bitwise_leftRotate`: the precision and
   * the bitmask's bytes when a precision above zero is set; otherwise the
   * bit length of |x| from its top byte, and the bytes of 2^width − 1. For
   * zero the width comes out as −8 and the mask has no bytes to give.
   */
  method RotatePrecision(x: BigInt, mask: Bitmask) returns (precision: int, maskBytes: Option<seq<int>>)
    requires Valid(x) && MaskValid(mask)
    ensures Val(x.value) >= 0
    ensures maskBytes.None? <==> RotateWidth(Val(x.value), mask) == 0
    ensures maskBytes.Some? ==> precision == RotateWidth(Val(x.value), mask) > 0
    ensures maskBytes.Some? ==> IsBytes(maskBytes.value) && BE(maskBytes.value) == Pow2(precision) - 1
  {
    ValBound(x.value);
    ghost var v := Val(x.value);
    if mask.Mask? && mask.bits > 0 {
      precision := mask.bits;
      MaskValue(mask);
      var bytes := Base256.ToBytes(mask.limbs);       // `$this->bitmask->toBytes()`
      maskBytes := Some(bytes);
    } else {
      var bits := Base256.ToBytes(x.value);
      var i := CountBits(if |bits| == 0 then 0 else bits[0]);
      precision := 8 * |bits| - 8 + i;
      if |bits| == 0 {
        BitLengthZero(v);
        assert BitLength(0) == 0;
        return precision, None;
      }
      WidthOfBytes(bits, i);
      maskBytes := Some(MaskBytes(precision));
    }
  }

  /** The shifts, the `&` with the mask and the `|` of a rotation by 0 < s < width. */
  method RotateBy(x: BigInt, s: nat, width: nat, maskBytes: seq<int>, mask: Bitmask) returns (result: BigInt)
    requires Valid(x) && MaskValid(mask) && 0 < s < width
    requires mask.Mask? && mask.bits > 0 ==> mask.bits == width
    requires IsBytes(maskBytes) && BE(maskBytes) == Pow2(width) - 1
    ensures Digits(result.value) && !result.negative
    ensures Val(x.value) >= 0 && Val(result.value) == Masked(Rotation(Val(x.value), s, width), mask)
  {
    ValBound(x.value);
    var shifted := BitwiseLeftShift(x, s, mask);
    var maskLimbs := Base256.FromBytesAsWritten(maskBytes);
    assert Val(maskLimbs) == Pow2(width) - 1;
    var left := BitwiseAnd(shifted, BigInt(maskLimbs, false), mask);
    var right := BitwiseRightShift(x, width - s, mask);
    var combined := BitwiseCombine(OrOp, left, right, mask);
    result := NormalizeMasked(combined, mask);
    RotateMasked(Val(x.value), s, width, mask, Val(shifted.value), Val(left.value), Val(right.value),
      Val(combined.value), Val(result.value));
  }

  lemma {:induction false} BitLengthZero(v: nat)
    requires BytesOf(v) == []
    ensures BitLength(v) == 0
  {
  }

  /** The precision computed from the bytes of |x| is the bit length of |x|. */
  lemma {:induction false} WidthOfBytes(bits: seq<int>, i: nat)
    requires IsBytes(bits) && |bits| > 0 && bits[0] != 0 && i == BitLength(bits[0])
    ensures BE(bits) >= 0 && 8 * |bits| - 8 + i == BitLength(BE(bits))
  {
    var rest := bits[1..];
    assert bits == [bits[0]] + rest;
    ConsValue(bits[0], rest);
    BEBound(rest);
    LengthOfConcat(BE(bits), bits[0], BE(rest), i, 8 * |rest|);
  }

  /** The values the rotation's steps produce, combined. */
  lemma {:induction false} RotateMasked(v: nat, s: nat, width: nat, mask: Bitmask,
                                        shifted: nat, left: nat, right: nat, combined: int, result: int)
    requires 0 < s < width && (mask.Mask? && mask.bits > 0 ==> mask.bits == width)
    requires shifted == Masked(v * Pow2(s), mask)
    requires left == Masked(And(shifted, Pow2(width) - 1), mask)
    requires right == Masked(v / Pow2(width - s), mask)
    requires combined == Masked(Apply(OrOp, left, right), mask)
    requires result == Masked(combined, mask)
    ensures result == Masked(Rotation(v, s, width), mask)
  {
    var P := Pow2(width);
    MulNonneg(v, Pow2(s));
    var full: nat := v * Pow2(s);
    DivModNonneg(full, P);
    DivModNonneg(v, Pow2(width - s));
    var low: nat, q: nat := full % P, v / Pow2(width - s);
    assert Rotation(v, s, width) == Or(low, q);
    match mask
    case NoMask =>
      AndLowMask(full, width);
    case Mask(bits, _) =>
      if bits == 0 {
        assert Pow2(0) == 1;
      } else {
        ModIdem(full, width);
        AndLowMask(low, width);
        assert left == low;
        DivModNonneg(q, P);
        OrModWidth(low, q, width);
        ModIdem(Or(low, q % P), width);
      }
  }

  /** Reducing mod 2^k twice reduces once. */
  lemma {:induction false} ModIdem(v: nat, k: nat)
    ensures v % Pow2(k) >= 0 && (v % Pow2(k)) % Pow2(k) == v % Pow2(k)
  {
    DivModNonneg(v, Pow2(k));
    DivModUnique(v % Pow2(k), Pow2(k), 0, v % Pow2(k));
  }

  /** Or-ing with a value below 2^w, only the other operand's low w bits survive mod 2^w. */
  lemma {:induction false} OrModWidth(low: nat, q: nat, w: nat)
    requires low < Pow2(w)
    ensures Or(low, q % Pow2(w)) % Pow2(w) == Or(low, q) % Pow2(w)
  {
    var P := Pow2(w);
    DivModNonneg(q, P);
    var m: nat, d: nat := q % P, q / P;
    var o, e := Or(low, m), Or(0, d);
    assert Or(low, q) == o + P * e && o < P by {
      assert q == m + P * d;
      assert low == low + P * 0;
      ApplySplit(OrOp, low, m, 0, d, w);
      ApplyBound(OrOp, low, m, w);
    }
    ModOfSum(Or(low, q), o, e, P);
  }

  lemma {:induction false} ModOfSum(x: int, o: int, e: int, P: int)
    requires P > 0 && 0 <= o < P && x == o + P * e
    ensures x % P == o && o % P == o
  {
    DivModUnique(x, P, e, o);
    DivModUnique(o, P, 0, o);
  }

  /** Within the width, the rotation moves the top s bits below the rest. */
  lemma {:induction false} RotationValue(a: nat, s: nat, width: nat)
    requires 0 < s < width && a < Pow2(width)
    ensures Rotation(a, s, width) == (a % Pow2(width - s)) * Pow2(s) + a / Pow2(width - s)
    ensures a / Pow2(width - s) < Pow2(s)
  {
    var k := width - s;
    var K, S, P := Pow2(k), Pow2(s), Pow2(width);
    var h, l := a / K, a % K;
    assert k + s == width;
    Pow2Add(k, s);
    RotationArith(a, K, S, P, h, l);
    DivModUnique(a * S, P, h, l * S);
    OrDisjoint(h, l, s);
    OrSymmetric(h, l * S);
  }

  /** The arithmetic behind `RotationValue`: a = h·K + l below K·S, shifted up by S. */
  lemma {:induction false} RotationArith(a: int, K: int, S: int, P: int, h: int, l: int)
    requires K > 0 && S > 0 && P == K * S && 0 <= a < P
    requires h == a / K && l == a % K
    ensures 0 <= h < S && a * S == h * P + l * S && 0 <= l * S < P
  {
    assert a == h * K + l && 0 <= l < K;
    DivModNonneg(a, K);
    if h >= S {
      MulLe(S, h, K);
    }
    MulLe(l, K - 1, S);
    MulNonneg(l, S);
  }

  /** Rotating by s and then by width − s gives the value back. */
  lemma {:induction false} RotationInverse(a: nat, s: nat, width: nat)
    requires 0 < s < width && a < Pow2(width)
    ensures Rotation(a, s, width) < Pow2(width)
    ensures Rotation(Rotation(a, s, width), width - s, width) == a
  {
    var k := width - s;
    var K, S, P := Pow2(k), Pow2(s), Pow2(width);
    var h, l := a / K, a % K;
    assert k + s == width && width - k == s;
    Pow2Add(k, s);
    RotationValue(a, s, width);
    var b := l * S + h;
    InverseArith(a, K, S, P, h, l);
    assert Rotation(a, s, width) == b;
    RotationValue(b, k, width);
    assert Rotation(b, k, width) == h * K + l;
  }

  /** The arithmetic behind `RotationInverse`: l·S + h splits back into l and h. */
  lemma {:induction false} InverseArith(a: int, K: int, S: int, P: int, h: int, l: int)
    requires K > 0 && S > 0 && P == K * S && 0 <= a < P
    requires h == a / K && l == a % K
    ensures 0 <= l * S + h < P
    ensures (l * S + h) / S == l && (l * S + h) % S == h && h * K + l == a
  {
    RotationArith(a, K, S, P, h, l);
    MulLe(l, K - 1, S);
    DivModUnique(l * S + h, S, l, h);
  }

  /** `bitwise_rightRotate`: a left rotation by the negated shift. */
  method BitwiseRightRotate(x: BigInt, shift: int, mask: Bitmask) returns (r: Option<BigInt>)
    requires Valid(x) && MaskValid(mask)
    ensures Val(x.value) >= 0
    ensures r.None? <==> RotateWidth(Val(x.value), mask) == 0 || RotateShift(-shift, RotateWidth(Val(x.value), mask)) < 0
    ensures r.Some? && RotateShift(-shift, RotateWidth(Val(x.value), mask)) > 0 ==>
      Digits(r.value.value) &&
      Val(r.value.value) == Masked(Rotation(Val(x.value), RotateShift(-shift, RotateWidth(Val(x.value), mask)), RotateWidth(Val(x.value), mask)), mask)
  {
    r := BitwiseLeftRotate(x, -shift, mask);
  }
}

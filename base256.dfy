/**
 * The byte conversions of Oxygen_Math_BigInteger in its internal mode:
 * `_base256_lshift`, `_base256_rshift`, `_int2bytes`, `_bytes2int`, the
 * base-256 branch of the constructor and `toBytes` (no precision set).
 */
module Base256 {

  import opened Bits
  import opened Limbs
  import opened Bytes

  // ---------------------------------------------------------------------
  // Arithmetic facts
  // ---------------------------------------------------------------------

  /** Splitting a division by P·Q into a division by P, then by Q. */
  lemma DivSplit(x: int, m: int, l: int, p: int, q: int)
    requires p > 0 && q > 0 && 0 <= l < p && x == m * p + l
    ensures x / (p * q) == m / q && x % (p * q) == (m % q) * p + l
  {
    var mq, mr := m / q, m % q;
    assert m == mq * q + mr;
    assert x == mq * (p * q) + (mr * p + l) by {
      assert m * p == mq * (p * q) + mr * p;
    }
    assert mr * p + l < p * q by {
      assert mr <= q - 1;
      MulLe(mr, q - 1, p);
      assert (q - 1) * p == p * q - p;
    }
    MulNonneg(mr, p);
    DivModUnique(x, p * q, mq, mr * p + l);
  }

  lemma MulLe(a: int, b: int, p: int)
    requires a <= b && p >= 0
    ensures a * p <= b * p
  {
    MulNonneg(b - a, p);
  }

  /** One byte of `_base256_lshift`: the byte moves up by s bits, the carry comes in below. */
  lemma LShiftByte(b: int, carry: int, s: nat)
    requires 0 <= b < 256 && 0 <= carry < Pow2(s) && s < 8
    ensures b * Pow2(s) >= 0
    ensures Or(b * Pow2(s), carry) == b * Pow2(s) + carry
    ensures 0 <= (b * Pow2(s) + carry) / 256 < Pow2(s)
  {
    MulNonneg(b, Pow2(s));
    OrDisjoint(carry, b, s);
    OrSymmetric(carry, b * Pow2(s));
    MulLe(b, 255, Pow2(s));
    DivModUnique(b * Pow2(s) + carry, 256, (b * Pow2(s) + carry) / 256, (b * Pow2(s) + carry) % 256);
    assert (b * Pow2(s) + carry) < 256 * Pow2(s);
  }

  /** The invariant step of the `_base256_lshift` loop, as an identity on integers. */
  lemma LShiftInvariantStep(nb: int, cNew: int, temp: int, b: int, c: int, ps: int, pm: int, sufNew: int, sufOld: int)
    requires temp == nb + 256 * cNew && temp == b * ps + c && sufNew + c * pm == sufOld * ps
    ensures (nb * pm + sufNew) + cNew * (256 * pm) == (b * pm + sufOld) * ps
  {
    calc {
      (nb * pm + sufNew) + cNew * (256 * pm);
      (nb + 256 * cNew) * pm + sufNew;
      (b * ps + c) * pm + sufNew;
      b * ps * pm + (c * pm + sufNew);
      b * ps * pm + sufOld * ps;
      (b * pm + sufOld) * ps;
    }
  }

  /** A single byte is worth itself, and a byte in front adds its weight. */
  lemma BEFront(b: int, s: seq<int>)
    ensures BE([b] + s) == b * Pow2(8 * |s|) + BE(s)
  {
    BEConcat([b], s);
    BESingle(b);
  }

  lemma BESingle(b: int)
    ensures BE([b]) == b
  {
    assert [b][..0] == [];
  }

  /** A string whose value reaches 256^(k−1) has a non-zero first byte. */
  lemma LeadingFromValue(s: seq<int>)
    requires IsBytes(s) && |s| > 0 && BE(s) >= Pow2(8 * (|s| - 1))
    ensures s[0] != 0
  {
    if s[0] == 0 {
      BEFront(0, s[1..]);
      assert [s[0]] + s[1..] == s;
      BEBound(s[1..]);
    }
  }

  // ---------------------------------------------------------------------
  // _base256_lshift
  // ---------------------------------------------------------------------

  /** The step of the `_base256_lshift` loop: the suffix done so far grows by one byte. */
  /** The body of the `_base256_lshift` loop keeps its invariant. */
  lemma LShiftLoopStep(x0: seq<int>, x: seq<int>, i: nat, s: nat, carry: int, t: int)
    requires IsBytes(x0) && IsBytes(x) && i < |x| == |x0| && x[..i + 1] == x0[..i + 1] && s < 8
    requires 0 <= carry < Pow2(s)
    requires BE(x[i + 1..]) + carry * Pow2(8 * (|x0| - (i + 1))) == BE(x0[i + 1..]) * Pow2(s)
    requires 0 <= x[i] * Pow2(s) && t == Or(x[i] * Pow2(s), carry)
    ensures IsBytes(x[i := t % 256]) && x[i := t % 256][..i] == x0[..i]
    ensures 0 <= t / 256 < Pow2(s)
    ensures BE(x[i := t % 256][i..]) + (t / 256) * Pow2(8 * (|x0| - i)) == BE(x0[i..]) * Pow2(s)
  {
    assert x[i] == x0[i];
    var suffix := x[i + 1..];
    LShiftByte(x[i], carry, s);
    LShiftStep(x0, suffix, i, carry, s, t);
    ReplaceByte(x0, x, i, t % 256);
  }

  /** Replacing byte i of x keeps it a byte string equal to x0 before i. */
  lemma ReplaceByte(x0: seq<int>, x: seq<int>, i: nat, b: int)
    requires IsBytes(x) && i < |x| && |x0| == |x| && x[..i + 1] == x0[..i + 1] && 0 <= b < 256
    ensures IsBytes(x[i := b]) && x[i := b][..i] == x0[..i]
    ensures x[i := b][i..] == [b] + x[i + 1..]
  {
    assert forall j :: 0 <= j < i ==> x[j] == x0[j] by {
      forall j | 0 <= j < i
        ensures x[j] == x0[j]
      {
        assert x[..i + 1][j] == x0[..i + 1][j];
      }
    }
  }

  lemma LShiftStep(x0: seq<int>, suffix: seq<int>, i: nat, c: int, s: nat, t: int)
    requires i < |x0| && |suffix| == |x0| - i - 1 && t == x0[i] * Pow2(s) + c
    requires BE(suffix) + c * Pow2(8 * |suffix|) == BE(x0[i + 1..]) * Pow2(s)
    ensures BE([t % 256] + suffix) + (t / 256) * Pow2(8 * (|suffix| + 1)) == BE(x0[i..]) * Pow2(s)
  {
    var pm := Pow2(8 * |suffix|);
    BEFront(t % 256, suffix);
    Pow2Byte(|suffix|);
    BESuffix(x0, i);
    LShiftInvariantStep(t % 256, t / 256, t, x0[i], c, Pow2(s), pm, BE(suffix), BE(x0[i + 1..]));
  }

  /** 256^(n+1) = 256 · 256^n. */
  lemma Pow2Byte(n: nat)
    ensures Pow2(8 * (n + 1)) == 256 * Pow2(8 * n)
  {
    Pow2Add(8 * n, 8);
    Pow2Eight();
  }

  /** A suffix of a string is its first byte in front of the rest. */
  lemma BESuffix(x: seq<int>, i: nat)
    requires i < |x|
    ensures BE(x[i..]) == x[i] * Pow2(8 * |x[i + 1..]|) + BE(x[i + 1..])
  {
    assert x[i..] == [x[i]] + x[i + 1..];
    BEFront(x[i], x[i + 1..]);
  }

  /** The string after the last carry is put in front and the zero bytes behind. */
  lemma LShiftShape(x0: seq<int>, body: seq<int>, carry: int, s: nat, numBytes: nat)
    requires IsBytes(body) && s < 8 && 0 <= carry < Pow2(s)
    ensures var r := (if carry != 0 then [carry] else []) + body + ZeroBytes(numBytes);
      IsBytes(r) && |r| >= |body| + numBytes
  {
    Pow2Mono(s, 8);
    Pow2Eight();
  }

  /** Its value: the original shifted by 8·numBytes + s bits. */
  lemma LShiftValue(x0: seq<int>, body: seq<int>, carry: int, s: nat, numBytes: nat)
    requires |body| == |x0| && carry >= 0
    requires BE(body) + carry * Pow2(8 * |x0|) == BE(x0) * Pow2(s)
    ensures var r := (if carry != 0 then [carry] else []) + body + ZeroBytes(numBytes);
      BE(r) == BE(x0) * Pow2(8 * numBytes + s)
  {
    var head := if carry != 0 then [carry] else [];
    var zeros := ZeroBytes(numBytes);
    assert BE(head) == carry by {
      if carry != 0 {
        assert head[..0] == [];
      }
    }
    assert BE(head + body) == BE(x0) * Pow2(s) by {
      BEConcat(head, body);
    }
    assert BE(head + body + zeros) == BE(head + body) * Pow2(8 * numBytes) by {
      BEConcat(head + body, zeros);
      AllZero(zeros);
    }
    calc {
      BE(head + body + zeros);
      BE(head + body) * Pow2(8 * numBytes);
      (BE(x0) * Pow2(s)) * Pow2(8 * numBytes);
      { MulAssoc(BE(x0), Pow2(s), Pow2(8 * numBytes)); }
      BE(x0) * (Pow2(s) * Pow2(8 * numBytes));
      { Pow2Add(s, 8 * numBytes); }
      BE(x0) * Pow2(8 * numBytes + s);
    }
  }

  lemma MulAssoc(a: int, b: int, c: int)
    ensures (a * b) * c == a * (b * c)
  {
  }

  /** A leading non-zero byte stays non-zero through the shift. */
  lemma LShiftLeading(x0: seq<int>, body: seq<int>, carry: int, s: nat, numBytes: nat)
    requires IsBytes(x0) && IsBytes(body) && |body| == |x0| && s < 8 && 0 <= carry < Pow2(s)
    requires BE(body) + carry * Pow2(8 * |x0|) == BE(x0) * Pow2(s)
    requires |x0| > 0 && x0[0] != 0
    ensures var r := (if carry != 0 then [carry] else []) + body + ZeroBytes(numBytes);
      r[0] != 0
  {
    if carry == 0 {
      LShiftValue(x0, body, carry, s, numBytes);
      assert [] + body + ZeroBytes(numBytes) == body + ZeroBytes(numBytes);
      NoCarryLeading(x0, body + ZeroBytes(numBytes), s, numBytes);
    }
  }

  /** Without a carry byte, the shifted string starts where x0 did: with a non-zero byte. */
  lemma NoCarryLeading(x0: seq<int>, r: seq<int>, s: nat, numBytes: nat)
    requires IsBytes(x0) && IsBytes(r) && |r| == |x0| + numBytes
    requires |x0| > 0 && x0[0] != 0
    requires BE(r) == BE(x0) * Pow2(8 * numBytes + s)
    ensures r[0] != 0
  {
    var shift := 8 * numBytes + s;
    var low := 8 * (|x0| - 1);
    calc >= {
      BE(r);
      BE(x0) * Pow2(shift);
      { BELeading(x0); MulLe(Pow2(low), BE(x0), Pow2(shift)); }
      Pow2(low) * Pow2(shift);
      { Pow2Add(low, shift); }
      Pow2(low + shift);
      { Pow2Mono(8 * (|r| - 1), low + shift); }
      Pow2(8 * (|r| - 1));
    }
    LeadingFromValue(r);
  }

  /**
   * `_base256_lshift(&$x, $shift)`: shift the big-endian string left by
   * `shift` bits, byte by byte from the end with a carry, prepend the last
   * carry when it is non-zero and append `shift >> 3` zero bytes.
   */
  method Base256LShift(x0: seq<int>, shift: nat) returns (x: seq<int>)
    requires IsBytes(x0)
    ensures IsBytes(x) && BE(x) == BE(x0) * Pow2(shift)
    ensures |x| >= |x0| + shift / 8
    ensures |x0| > 0 && x0[0] != 0 ==> x[0] != 0
  {
    x := x0;
    if shift == 0 {
      return;
    }
    var numBytes := shift / 8;
    var s := shift % 8;
    var carry;
    x, carry := ShiftBytesLeft(x0, s);
    var head := if carry != 0 then [carry] else [];
    LShiftShape(x0, x, carry, s, numBytes);
    LShiftValue(x0, x, carry, s, numBytes);
    if |x0| > 0 && x0[0] != 0 {
      LShiftLeading(x0, x, carry, s, numBytes);
    }
    x := head + x + ZeroBytes(numBytes);
  }

  /**
   * The loop of `_base256_lshift`: each byte, from the last, moves up by s
   * bits over the bits the byte after it shifted out.
   */
  method ShiftBytesLeft(x0: seq<int>, s: nat) returns (x: seq<int>, carry: int)
    requires IsBytes(x0) && s < 8
    ensures IsBytes(x) && |x| == |x0| && 0 <= carry < Pow2(s)
    ensures BE(x) + carry * Pow2(8 * |x0|) == BE(x0) * Pow2(s)
  {
    x := x0;
    carry := 0;
    var i := |x|;
    while i > 0
      invariant 0 <= i <= |x0| && |x| == |x0|
      invariant x[..i] == x0[..i]
      invariant IsBytes(x)
      invariant 0 <= carry < Pow2(s)
      invariant BE(x[i..]) + carry * Pow2(8 * (|x0| - i)) == BE(x0[i..]) * Pow2(s)
    {
      i := i - 1;
      MulNonneg(x[i], Pow2(s));
      var temp := Or(x[i] * Pow2(s), carry);
      LShiftLoopStep(x0, x, i, s, carry, temp);
      x := x[i := temp % 256];
      carry := temp / 256;
    }
    assert x[0..] == x && x0[0..] == x0;
  }

  // ---------------------------------------------------------------------
  // _base256_rshift
  // ---------------------------------------------------------------------

  /** 2^(8−s) · 2^s = 256. */
  lemma ByteSplitPow(s: nat)
    requires s <= 8
    ensures Pow2(8 - s) * Pow2(s) == 256
  {
    Pow2Add(8 - s, s);
    Pow2Eight();
  }

  /** A value below 2^s moved to the top of a byte stays a byte. */
  lemma CarryBound(r: int, ps: int, pc: int)
    requires 0 <= r < ps && pc > 0 && ps * pc == 256
    ensures 0 <= r * pc <= 256 - pc
  {
    MulLe(r, ps - 1, pc);
    MulNonneg(r, pc);
    assert (ps - 1) * pc == ps * pc - pc;
  }

  /** A byte b cut at s bits: its high part, its low part moved to the top of a byte. */
  lemma DigitSplit(b: int, ps: int, pc: int)
    requires 0 <= b < 256 && ps > 0 && pc > 0 && ps * pc == 256
    ensures 0 <= b / ps < pc
    ensures b * pc == (b / ps) * 256 + (b % ps) * pc
    ensures 0 <= (b % ps) * pc <= 256 - pc
  {
    var q, r := b / ps, b % ps;
    assert b == q * ps + r;
    assert b * pc == q * (ps * pc) + r * pc;
    CarryBound(r, ps, pc);
    if q >= pc {
      MulLe(pc, q, ps);
    }
  }

  /** The carry `($x[$i] << $carry_shift) & 0xFF` is the low part moved to the top. */
  lemma MaskedCarry(b: int, s: nat)
    requires 0 <= b < 256 && s < 8
    ensures b * Pow2(8 - s) >= 0
    ensures And(b * Pow2(8 - s), 0xFF) == (b % Pow2(s)) * Pow2(8 - s)
  {
    var ps, pc := Pow2(s), Pow2(8 - s);
    ByteSplitPow(s);
    MulNonneg(b, pc);
    DigitSplit(b, ps, pc);
    Pow2Eight();
    AndLowMask(b * pc, 8);
    DivModUnique(b * pc, 256, b / ps, (b % ps) * pc);
  }

  /** Quotient and remainder by 2^s of a prefix extended by one byte. */
  lemma ExtendDivMod(p: int, b: int, ps: int, pc: int)
    requires 0 <= b < 256 && p >= 0 && ps > 0 && pc > 0 && ps * pc == 256
    ensures (p / ps) * 256 + b / ps + (p % ps) * pc == (p * 256 + b) / ps
    ensures (p * 256 + b) % ps == b % ps
  {
    var q, r := p / ps, p % ps;
    DigitSplit(b, ps, pc);
    assert p * 256 + b == (q * 256 + r * pc + b / ps) * ps + b % ps by {
      assert p == q * ps + r;
      assert b == (b / ps) * ps + b % ps;
      assert p * 256 == q * ps * 256 + r * (pc * ps);
    }
    DivModUnique(p * 256 + b, ps, q * 256 + r * pc + b / ps, b % ps);
  }

  /** The byte `_base256_rshift` writes: the high part of b under the carry. */
  lemma RShiftByte(p: int, b: int, s: nat)
    requires 0 <= b < 256 && p >= 0 && s < 8
    ensures 0 <= b / Pow2(s) && 0 <= (p % Pow2(s)) * Pow2(8 - s)
    ensures Or(b / Pow2(s), (p % Pow2(s)) * Pow2(8 - s)) == b / Pow2(s) + (p % Pow2(s)) * Pow2(8 - s) < 256
  {
    var ps, pc := Pow2(s), Pow2(8 - s);
    ByteSplitPow(s);
    DigitSplit(b, ps, pc);
    var r := p % ps;
    CarryBound(r, ps, pc);
    OrDisjoint(b / ps, r, 8 - s);
  }

  /** The step of the `_base256_rshift` loop: the prefix done so far grows by one byte. */
  lemma RShiftStep(xm: seq<int>, y: seq<int>, i: nat, s: nat, t: int)
    requires IsBytes(xm) && i < |xm| && s < 8
    requires BE(y) == BE(xm[..i]) / Pow2(s)
    requires t == xm[i] / Pow2(s) + (BE(xm[..i]) % Pow2(s)) * Pow2(8 - s)
    ensures BE(y + [t]) == BE(xm[..i + 1]) / Pow2(s)
    ensures BE(xm[..i + 1]) % Pow2(s) == xm[i] % Pow2(s)
  {
    assert xm[..i + 1] == xm[..i] + [xm[i]];
    assert (y + [t])[..|y|] == y;
    BEBound(xm[..i]);
    ByteSplitPow(s);
    ExtendDivMod(BE(xm[..i]), xm[i], Pow2(s), Pow2(8 - s));
  }

  /** The operands of the `_base256_rshift` loop body are non-negative. */
  lemma RShiftOperands(b: int, s: nat, p: int, carry: int)
    requires 0 <= b < 256 && s < 8 && 0 <= p
    requires carry == (p % Pow2(s)) * Pow2(8 - s)
    ensures 0 <= b / Pow2(s) && 0 <= carry && 0 <= b * Pow2(8 - s)
  {
    MulNonneg(b, Pow2(8 - s));
    MulNonneg(p % Pow2(s), Pow2(8 - s));
  }

  /** The body of the `_base256_rshift` loop keeps its invariant. */
  lemma RShiftLoopStep(x0: seq<int>, x: seq<int>, i: nat, s: nat, carry: int, t: int)
    requires IsBytes(x0) && IsBytes(x) && i < |x| == |x0| && x[i..] == x0[i..] && s < 8
    requires BE(x[..i]) == BE(x0[..i]) / Pow2(s)
    requires carry == (BE(x0[..i]) % Pow2(s)) * Pow2(8 - s)
    requires 0 <= x0[i] / Pow2(s) && 0 <= carry && t == Or(x0[i] / Pow2(s), carry)
    ensures IsBytes(x[i := t]) && x[i := t][i + 1..] == x0[i + 1..]
    ensures BE(x[i := t][..i + 1]) == BE(x0[..i + 1]) / Pow2(s)
    ensures 0 <= x0[i] * Pow2(8 - s)
    ensures And(x0[i] * Pow2(8 - s), 0xFF) == (BE(x0[..i + 1]) % Pow2(s)) * Pow2(8 - s)
  {
    BEBound(x0[..i]);
    RShiftByte(BE(x0[..i]), x0[i], s);
    MaskedCarry(x0[i], s);
    MulNonneg(x0[i], Pow2(8 - s));
    RShiftStep(x0, x[..i], i, s, t);
    assert x[i := t][..i + 1] == x[..i] + [t];
  }

  /** The two strings `_base256_rshift` slices off the end: their lengths. */
  lemma RShiftSlice(x0: seq<int>, numBytes: nat, xm: seq<int>, tail: seq<int>)
    requires IsBytes(x0)
    requires numBytes < |x0| ==> xm == x0[..|x0| - numBytes] && tail == x0[|x0| - numBytes..]
    requires numBytes >= |x0| ==> xm == [] && tail == x0
    ensures IsBytes(xm) && IsBytes(tail) && BE(tail) < Pow2(8 * numBytes)
    ensures |tail| == numBytes || |xm| == 0
    ensures |xm| <= if |x0| > numBytes then |x0| - numBytes else 0
  {
    BEBound(tail);
    Pow2Mono(8 * |tail|, 8 * numBytes);
  }

  /** The two strings `_base256_rshift` slices off the end: their values. */
  lemma RShiftSliceValue(x0: seq<int>, numBytes: nat, xm: seq<int>, tail: seq<int>)
    requires numBytes < |x0| ==> xm == x0[..|x0| - numBytes] && tail == x0[|x0| - numBytes..]
    requires numBytes >= |x0| ==> xm == [] && tail == x0
    ensures BE(x0) == BE(xm) * Pow2(8 * numBytes) + BE(tail)
  {
    if numBytes < |x0| {
      assert x0 == xm + tail;
      BEConcat(xm, tail);
    }
  }

  /** The last carry, moved back down, is the remainder of the kept bytes by 2^s. */
  lemma RShiftTop(p: int, carry: int, s: nat)
    requires s < 8 && carry == (p % Pow2(s)) * Pow2(8 - s)
    ensures carry / Pow2(8 - s) == p % Pow2(s) && 0 <= p % Pow2(s) < 256
  {
    DivModUnique(carry, Pow2(8 - s), p % Pow2(s), 0);
    Pow2Mono(s, 8);
    Pow2Eight();
  }

  /** After the loop: the shifted string, trimmed. */
  lemma RShiftQuotient(x0: seq<int>, xm: seq<int>, tail: seq<int>, y: seq<int>, numBytes: nat, s: nat)
    requires IsBytes(xm)
    requires BE(x0) == BE(xm) * Pow2(8 * numBytes) + BE(tail) && 0 <= BE(tail) < Pow2(8 * numBytes)
    requires BE(y) == BE(xm) / Pow2(s)
    ensures BE(LTrim(y)) == BE(x0) / Pow2(8 * numBytes + s)
  {
    var P, Q := Pow2(8 * numBytes), Pow2(s);
    calc {
      BE(LTrim(y));
      { LTrimValue(y); }
      BE(xm) / Q;
      { DivSplit(BE(x0), BE(xm), BE(tail), P, Q); }
      BE(x0) / (P * Q);
      { Pow2Add(8 * numBytes, s); }
      BE(x0) / Pow2(8 * numBytes + s);
    }
  }

  /** After the loop: the bits shifted out in front of the bytes sliced off, trimmed. */
  lemma RShiftRemainder(x0: seq<int>, xm: seq<int>, tail: seq<int>, top: int, numBytes: nat, s: nat)
    requires IsBytes(xm)
    requires BE(x0) == BE(xm) * Pow2(8 * numBytes) + BE(tail) && 0 <= BE(tail) < Pow2(8 * numBytes)
    requires |tail| == numBytes || |xm| == 0
    requires top == BE(xm) % Pow2(s)
    ensures BE(LTrim([top] + tail)) == BE(x0) % Pow2(8 * numBytes + s)
  {
    calc {
      BE(LTrim([top] + tail));
      { LTrimValue([top] + tail); }
      BE([top] + tail);
      { RemainderFront(xm, tail, top, numBytes, s); }
      top * Pow2(8 * numBytes) + BE(tail);
      { DivSplit(BE(x0), BE(xm), BE(tail), Pow2(8 * numBytes), Pow2(s)); }
      BE(x0) % (Pow2(8 * numBytes) * Pow2(s));
      { Pow2Add(8 * numBytes, s); }
      BE(x0) % Pow2(8 * numBytes + s);
    }
  }

  /** The bits shifted out sit just above the bytes sliced off. */
  lemma RemainderFront(xm: seq<int>, tail: seq<int>, top: int, numBytes: nat, s: nat)
    requires |tail| == numBytes || |xm| == 0
    requires top == BE(xm) % Pow2(s)
    ensures BE([top] + tail) == top * Pow2(8 * numBytes) + BE(tail)
  {
    BEFront(top, tail);
    if |tail| != numBytes {
      assert BE(xm) == 0;
      DivModUnique(0, Pow2(s), 0, 0);
      assert top == 0;
    }
  }

  /** After the loop: both results of `_base256_rshift`, trimmed. */
  lemma RShiftFinish(x0: seq<int>, numBytes: nat, xm: seq<int>, tail: seq<int>, y: seq<int>, top: int, s: nat)
    requires IsBytes(x0) && IsBytes(y)
    requires numBytes < |x0| ==> xm == x0[..|x0| - numBytes] && tail == x0[|x0| - numBytes..]
    requires numBytes >= |x0| ==> xm == [] && tail == x0
    requires BE(y) == BE(xm) / Pow2(s) && top == BE(xm) % Pow2(s)
    ensures BE(LTrim(y)) == BE(x0) / Pow2(8 * numBytes + s)
    ensures BE(LTrim([top] + tail)) == BE(x0) % Pow2(8 * numBytes + s)
  {
    RShiftSlice(x0, numBytes, xm, tail);
    BEBound(tail);
    RShiftSliceValue(x0, numBytes, xm, tail);
    RShiftQuotient(x0, xm, tail, y, numBytes, s);
    RShiftRemainder(x0, xm, tail, top, numBytes, s);
  }

  /**
   * `_base256_rshift(&$x, $shift)`: remove the last `shift >> 3` bytes into
   * the remainder, shift the rest right by `shift & 7` bits from the front
   * with a carry, and put the bits shifted out in front of the remainder;
   * both strings come back without leading zero bytes.
   */
  method Base256RShift(x0: seq<int>, shift: nat) returns (remainder: seq<int>, x: seq<int>)
    requires IsBytes(x0)
    ensures IsBytes(x) && IsBytes(remainder)
    ensures BE(x) == BE(x0) / Pow2(shift) && BE(remainder) == BE(x0) % Pow2(shift)
    ensures |x| == 0 || x[0] != 0
    ensures |remainder| == 0 || remainder[0] != 0
    ensures |x| <= if |x0| > shift / 8 then |x0| - shift / 8 else 0
    ensures shift > 0 ==> |remainder| <= shift / 8 + 1
  {
    if shift == 0 {
      assert Pow2(shift) == 1;
      DivModUnique(BE(x0), Pow2(shift), BE(x0), 0);
      x := LTrim(x0);
      LTrimValue(x0);
      return [], x;
    }
    remainder, x := RShiftBytesAndBits(x0, shift / 8, shift % 8);
    assert shift == 8 * (shift / 8) + shift % 8;
  }

  /** `_base256_rshift` for a shift of 8·numBytes + s bits, s < 8. */
  method RShiftBytesAndBits(x0: seq<int>, numBytes: nat, s: nat) returns (remainder: seq<int>, x: seq<int>)
    requires IsBytes(x0) && s < 8
    ensures IsBytes(x) && IsBytes(remainder)
    ensures BE(x) == BE(x0) / Pow2(8 * numBytes + s) && BE(remainder) == BE(x0) % Pow2(8 * numBytes + s)
    ensures |x| == 0 || x[0] != 0
    ensures |remainder| == 0 || remainder[0] != 0
    ensures |x| <= if |x0| > numBytes then |x0| - numBytes else 0
    ensures |remainder| <= numBytes + 1
  {
    var xm, tail := SliceOff(x0, numBytes);
    RShiftSlice(x0, numBytes, xm, tail);
    var y, carry := ShiftBytesRight(xm, s);
    var top := carry / Pow2(8 - s);
    x := LTrim(y);
    remainder := LTrim([top] + tail);
    RShiftResults(x0, numBytes, s, xm, tail, y, carry, top, x, remainder);
    RShiftSizes(x0, numBytes, xm, tail, y, top);
  }

  /** The two strings `_base256_rshift` cuts `x0` into: the bytes kept and the last `numBytes` bytes. */
  method SliceOff(x0: seq<int>, numBytes: nat) returns (xm: seq<int>, tail: seq<int>)
    ensures numBytes < |x0| ==> xm == x0[..|x0| - numBytes] && tail == x0[|x0| - numBytes..]
    ensures numBytes >= |x0| ==> xm == [] && tail == x0
  {
    xm, tail := x0, [];
    if numBytes > 0 {
      var start := if numBytes > |x0| then |x0| else numBytes;
      tail := x0[|x0| - start..];
      xm := if numBytes >= |x0| then [] else x0[..|x0| - numBytes];
    } else {
      assert x0[|x0|..] == [];
      assert |x0| > 0 ==> x0[..|x0|] == x0;
    }
  }

  /** The values `_base256_rshift` promises, from the slices and the shifted bytes. */
  lemma {:induction false} RShiftResults(x0: seq<int>, numBytes: nat, s: nat, xm: seq<int>, tail: seq<int>, y: seq<int>, carry: int,
                                         top: int, x: seq<int>, remainder: seq<int>)
    requires IsBytes(x0) && s < 8
    requires numBytes < |x0| ==> xm == x0[..|x0| - numBytes] && tail == x0[|x0| - numBytes..]
    requires numBytes >= |x0| ==> xm == [] && tail == x0
    requires IsBytes(y) && |y| == |xm| && BE(y) == BE(xm) / Pow2(s)
    requires carry == (BE(xm) % Pow2(s)) * Pow2(8 - s) && top == carry / Pow2(8 - s)
    requires x == LTrim(y) && remainder == LTrim([top] + tail)
    ensures 0 <= top < 256
    ensures BE(x) == BE(x0) / Pow2(8 * numBytes + s) && BE(remainder) == BE(x0) % Pow2(8 * numBytes + s)
  {
    RShiftTop(BE(xm), carry, s);
    RShiftFinish(x0, numBytes, xm, tail, y, top, s);
  }

  /** The lengths `_base256_rshift` promises: both results are trimmed slices of bounded size. */
  lemma RShiftSizes(x0: seq<int>, numBytes: nat, xm: seq<int>, tail: seq<int>, y: seq<int>, top: int)
    requires IsBytes(x0) && IsBytes(y) && 0 <= top < 256
    requires numBytes < |x0| ==> xm == x0[..|x0| - numBytes] && tail == x0[|x0| - numBytes..]
    requires numBytes >= |x0| ==> xm == [] && tail == x0
    requires |y| == |xm|
    ensures IsBytes(LTrim(y)) && IsBytes(LTrim([top] + tail))
    ensures |LTrim(y)| <= if |x0| > numBytes then |x0| - numBytes else 0
    ensures |LTrim([top] + tail)| <= numBytes + 1
  {
    RShiftSlice(x0, numBytes, xm, tail);
    ConsBytes(top, tail);
    TrimmedWithin(y, |y|);
    TrimmedWithin([top] + tail, numBytes + 1);
  }

  /** Trimming keeps bytes bytes and never lengthens. */
  lemma TrimmedWithin(s: seq<int>, bound: nat)
    requires IsBytes(s) && |s| <= bound
    ensures IsBytes(LTrim(s)) && |LTrim(s)| <= bound
  {
  }

  lemma ConsBytes(b: int, s: seq<int>)
    requires 0 <= b < 256 && IsBytes(s)
    ensures IsBytes([b] + s)
  {
  }

  /**
   * The loop of `_base256_rshift`: each byte, from the first, moves down by
   * s bits under the bits the byte before it shifted out.
   */
  method ShiftBytesRight(x0: seq<int>, s: nat) returns (x: seq<int>, carry: int)
    requires IsBytes(x0) && s < 8
    ensures IsBytes(x) && |x| == |x0| && BE(x) == BE(x0) / Pow2(s)
    ensures carry == (BE(x0) % Pow2(s)) * Pow2(8 - s)
  {
    x := x0;
    carry := 0;
    var carryShift := 8 - s;
    var i := 0;
    assert BE(x[..0]) == 0 && BE(x0[..0]) == 0 by {
      assert x[..0] == [] && x0[..0] == [];
    }
    DivModUnique(0, Pow2(s), 0, 0);
    while i < |x|
      invariant 0 <= i <= |x| == |x0| && x[i..] == x0[i..]
      invariant IsBytes(x)
      invariant BE(x[..i]) == BE(x0[..i]) / Pow2(s)
      invariant carry == (BE(x0[..i]) % Pow2(s)) * Pow2(carryShift)
    {
      assert x[i] == x0[i];
      RShiftOperands(x[i], s, BE(x0[..i]), carry);
      var temp := Or(x[i] / Pow2(s), carry);
      RShiftLoopStep(x0, x, i, s, carry, temp);
      carry := And(x[i] * Pow2(carryShift), 0xFF);
      x := x[i := temp];
      i := i + 1;
    }
    assert x[..i] == x && x0[..i] == x0;
  }

  // ---------------------------------------------------------------------
  // _int2bytes and _bytes2int
  // ---------------------------------------------------------------------

  /** `pack('N', $v)`: the four big-endian bytes of a 32-bit value. */
  function Pack32(v: nat): (r: seq<int>)
    requires v < 0x1_0000_0000
    ensures IsBytes(r) && |r| == 4 && BE(r) == v
  {
    var r := [v / 0x100_0000, (v / 0x1_0000) % 256, (v / 256) % 256, v % 256];
    assert r[..1][..0] == [] && r[..2][..1] == r[..1] && r[..3][..2] == r[..2] && r[..4] == r;
    assert BE(r[..1]) == v / 0x100_0000;
    assert BE(r[..2]) == v / 0x1_0000 by {
      ByteDigit(v, 0x1_0000);
    }
    assert BE(r[..3]) == v / 256 by {
      ByteDigit(v, 256);
    }
    ByteDigit(v, 1);
    r
  }

  /** The base-256 digits of v above position k: v/k is v/(256k) followed by one digit. */
  lemma ByteDigit(v: nat, k: nat)
    requires k > 0
    ensures (v / (k * 256)) * 256 + (v / k) % 256 == v / k
  {
    var q := v / k;
    assert v == (q / 256) * (k * 256) + ((q % 256) * k + v % k) by {
      assert v == q * k + v % k;
      assert q == (q / 256) * 256 + q % 256;
    }
    assert (q % 256) * k + v % k < k * 256 by {
      MulLe(q % 256, 255, k);
    }
    MulNonneg(q % 256, k);
    DivModUnique(v, k * 256, q / 256, (q % 256) * k + v % k);
  }

  /** `_int2bytes($x)`: `pack('N', $x)` without its leading zero bytes. */
  function Int2Bytes(v: nat): (r: seq<int>)
    requires v < 0x1_0000_0000
    ensures r == BytesOf(v) && |r| <= 4
  {
    BytesOfTrimmed(Pack32(v));
    LTrim(Pack32(v))
  }

  /** `_bytes2int($x)`: `unpack('N', …)` of the string padded to four bytes. */
  function Bytes2Int(s: seq<int>): (r: int)
    requires IsBytes(s) && |s| <= 4
    ensures r == BE(s)
  {
    var padded := ZeroBytes(4 - |s|) + s;
    BEZeros(4 - |s|, s);
    BE(padded)
  }

  // ---------------------------------------------------------------------
  // The constructor's base-256 branch
  // ---------------------------------------------------------------------

  /**
   * `new BigInteger($x, 256)` as written: peel 31 bits at a time off the
   * end of the string into the next limb. A non-empty string of zero bytes
   * gives the single limb 0 rather than no limbs, since only the strings
   * the loop shifts are trimmed and nothing trims the limbs.
   */
  method FromBytesAsWritten(x0: seq<int>) returns (value: seq<int>)
    requires IsBytes(x0)
    ensures Digits(value) && Val(value) == BE(x0)
    ensures value == if |x0| > 0 && BE(x0) == 0 then [0] else ToLimbs(BE(x0))
  {
    value := [];
    var x := x0;
    while |x| > 0
      invariant IsBytes(x) && Digits(value)
      invariant Val(value) + Pow(|value|) * BE(x) == BE(x0)
      invariant |value| > 0 ==> |x| == 0 || x[0] != 0
      invariant |value| > 0 && |x| == 0 ==> value[|value| - 1] != 0 || (value == [0] && BE(x0) == 0)
      invariant |value| == 0 ==> x == x0
      invariant |value| > 0 ==> |x0| > 0
      decreases |x|
    {
      ghost var before, x1 := value, x;
      var remainder;
      remainder, x := Base256RShift(x, 31);
      var limb := Bytes2Int(remainder);
      PeeledLimb(x1, x, limb);
      DigitsPush(value, limb);
      value := value + [limb];
      FromBytesStep(before, BE(x1), BE(x), limb, BE(x0));
    }
    assert BE(x) == 0;
    if |value| > 0 && value != [0] {
      NormalIsToLimbs(value);
      ValZeroIffEmpty(value);
    }
  }

  lemma DigitsPush(s: seq<int>, d: int)
    requires Digits(s) && IsDigit(d)
    ensures Digits(s + [d])
  {
  }

  /** The limb the constructor peels off the end of the string, and what is left. */
  lemma PeeledLimb(x1: seq<int>, x: seq<int>, limb: int)
    requires IsBytes(x1) && IsBytes(x)
    requires BE(x) == BE(x1) / Pow2(31) && limb == BE(x1) % Pow2(31)
    ensures 0 <= limb < Base && Base * BE(x) + limb == BE(x1)
    ensures |x| == 0 ==> limb == BE(x1)
    ensures |x| == 0 && |x1| > 0 && x1[0] != 0 ==> limb != 0
  {
    Pow2Constants();
    BEBound(x1);
    if |x1| > 0 && x1[0] != 0 {
      BELeading(x1);
    }
  }

  /** One step of the constructor's loop keeps the value of limbs and string together. */
  lemma FromBytesStep(value: seq<int>, bx: int, bx2: int, limb: int, total: int)
    requires Base * bx2 + limb == bx
    requires Val(value) + Pow(|value|) * bx == total
    ensures Val(value + [limb]) + Pow(|value| + 1) * bx2 == total
  {
    var p := Pow(|value|);
    calc {
      Val(value + [limb]) + Pow(|value| + 1) * bx2;
      { ValAppend(value, limb); }
      Val(value) + limb * p + (Base * p) * bx2;
      { MulAssoc(Base, p, bx2); }
      Val(value) + p * (limb + Base * bx2);
      total;
    }
  }

  /** The zero string "\0" becomes the limbs [0], which `_compare` ranks above zero. */
  method FromBytesZeroExample() returns (value: seq<int>)
    ensures value == [0] && Order(value, false, [], false) == 1
  {
    value := FromBytesAsWritten([0]);
  }

  /** The constructor with its limbs trimmed, as every other result is. */
  method FromBytes(x: seq<int>) returns (value: seq<int>)
    requires IsBytes(x)
    ensures Normal(value) && value == ToLimbs(BE(x))
  {
    value := FromBytesAsWritten(x);
    value := Limbs.Trim(value);
  }

  // ---------------------------------------------------------------------
  // toBytes
  // ---------------------------------------------------------------------

  /** `str_pad($s, $n, chr(0), STR_PAD_LEFT)`. */
  function PadLeftZeros(s: seq<int>, n: nat): (r: seq<int>)
    ensures IsBytes(s) ==> IsBytes(r) && BE(r) == BE(s)
    ensures |r| == if |s| >= n then |s| else n
  {
    if |s| >= n then s
    else
      BEZeros(n - |s|, s);
      ZeroBytes(n - |s|) + s
  }

  /** The string `|` of two strings of one length: the byte-wise or. */
  function OrBytes(a: seq<int>, b: seq<int>): (r: seq<int>)
    requires |a| == |b| && IsBytes(a) && IsBytes(b)
    ensures |r| == |a| && IsBytes(r)
  {
    if |a| == 0 then []
    else
      var n := |a| - 1;
      Pow2Eight();
      OrBound(a[n], b[n], 8);
      OrBytes(a[..n], b[..n]) + [Or(a[n], b[n])]
  }

  /** The value of a byte-wise or: the or of the prefixes, then the or of the last bytes. */
  lemma OrBytesLast(a: seq<int>, b: seq<int>)
    requires |a| == |b| > 0 && IsBytes(a) && IsBytes(b)
    ensures BE(OrBytes(a, b)) == BE(OrBytes(a[..|a| - 1], b[..|b| - 1])) * 256 + Or(a[|a| - 1], b[|b| - 1])
  {
    var p := OrBytes(a[..|a| - 1], b[..|b| - 1]);
    var r := OrBytes(a, b);
    assert r == p + [Or(a[|a| - 1], b[|b| - 1])];
    assert r[..|r| - 1] == p;
  }

  /** Or-ing with a string of zero bytes changes nothing. */
  lemma {:induction false} OrZeroBytes(a: seq<int>, b: seq<int>)
    requires |a| == |b| && IsBytes(a) && IsBytes(b) && BE(b) == 0
    ensures OrBytes(a, b) == a
  {
    AllZero(b);
    if |a| > 0 {
      var n := |a| - 1;
      AllZero(b[..n]);
      OrZeroBytes(a[..n], b[..n]);
      OrSymmetric(a[n], 0);
      assert a == a[..n] + [a[n]];
    }
  }

  /** For k ≥ 8: the last byte of a is zero, and the prefixes meet the same condition for k − 8. */
  lemma OrHighSplit(a: seq<int>, b: seq<int>, k: nat)
    requires |a| == |b| > 0 && IsBytes(a) && IsBytes(b) && k >= 8
    requires BE(a) % Pow2(k) == 0 && BE(b) < Pow2(k)
    ensures a[|a| - 1] == 0
    ensures BE(a[..|a| - 1]) % Pow2(k - 8) == 0 && BE(b[..|b| - 1]) < Pow2(k - 8)
  {
    var n := |a| - 1;
    var q := Pow2(k - 8);
    assert Pow2(k) == 256 * q by {
      Pow2Add(8, k - 8);
      Pow2Eight();
    }
    BEBound(a[..n]);
    BEBound(b[..n]);
    BELast(a);
    BELast(b);
    DivSplit(BE(a), BE(a[..n]), a[n], 256, q);
    QuotientBound(BE(b[..n]), b[n], q, 256);
  }

  /** x·m + c < q·m with c ≥ 0 forces x < q. */
  lemma QuotientBound(x: int, c: int, q: int, m: int)
    requires m > 0 && c >= 0 && x * m + c < q * m
    ensures x < q
  {
    if x >= q {
      MulLe(q, x, m);
    }
  }

  /** The value of a non-empty string: its prefix shifted by a byte, plus its last byte. */
  lemma BELast(s: seq<int>)
    requires |s| > 0
    ensures BE(s) == BE(s[..|s| - 1]) * 256 + s[|s| - 1]
  {
  }

  /** Or-ing a multiple of 2^k with a value below 2^k adds them. */
  lemma OrLow(x: int, y: int, k: nat)
    requires x >= 0 && x % Pow2(k) == 0 && 0 <= y < Pow2(k)
    ensures Or(x, y) == x + y
  {
    var c := x / Pow2(k);
    DivModUnique(x, Pow2(k), c, 0);
    assert c >= 0 && x == c * Pow2(k);
    OrDisjoint(y, c, k);
    OrSymmetric(y, x);
  }

  /** For k < 8: the prefix of b is zero and the last byte of a is a multiple of 2^k. */
  lemma OrLowSplit(a: seq<int>, b: seq<int>, k: nat)
    requires |a| == |b| > 0 && IsBytes(a) && IsBytes(b) && k < 8
    requires BE(a) % Pow2(k) == 0 && BE(b) < Pow2(k)
    ensures BE(b[..|b| - 1]) == 0 && b[|b| - 1] == BE(b) < Pow2(k)
    ensures a[|a| - 1] % Pow2(k) == 0
  {
    var n := |a| - 1;
    Pow2Mono(k, 8);
    Pow2Eight();
    BEBound(b[..n]);
    BELast(b);
    QuotientBound(BE(b[..n]), b[n], 1, 256);
    BELast(a);
    ModOfShifted(BE(a[..n]), a[n], k);
  }

  /** Below 8 bits, the bits of h·256 + x are those of x. */
  lemma ModOfShifted(h: int, x: int, k: nat)
    requires k <= 8
    ensures (h * 256 + x) % Pow2(k) == x % Pow2(k)
  {
    ByteSplitPow(k);
    MulAssoc(h, Pow2(8 - k), Pow2(k));
    ModShift(h * Pow2(8 - k), x, Pow2(k));
  }

  /**
   * When the value of a is a multiple of 2^k and that of b is below 2^k,
   * the byte-wise or of the two strings is worth their sum.
   */
  lemma {:induction false} OrBytesAdd(a: seq<int>, b: seq<int>, k: nat)
    requires |a| == |b| && IsBytes(a) && IsBytes(b)
    requires BE(a) % Pow2(k) == 0 && BE(b) < Pow2(k)
    ensures BE(OrBytes(a, b)) == BE(a) + BE(b)
    decreases |a|
  {
    if |a| > 0 {
      var n := |a| - 1;
      if k >= 8 {
        OrHighSplit(a, b, k);
        OrBytesAdd(a[..n], b[..n], k - 8);
        OrHighStep(a, b);
      } else {
        OrLowSplit(a, b, k);
        OrLowStep(a, b, k);
      }
    }
  }

  lemma BytesPrefix(s: seq<int>)
    requires IsBytes(s) && |s| > 0
    ensures IsBytes(s[..|s| - 1])
  {
  }

  /** The step of OrBytesAdd when the last byte of a is zero. */
  lemma OrHighStep(a: seq<int>, b: seq<int>)
    requires |a| == |b| > 0 && IsBytes(a) && IsBytes(b) && a[|a| - 1] == 0
    requires BE(OrBytes(a[..|a| - 1], b[..|b| - 1])) == BE(a[..|a| - 1]) + BE(b[..|b| - 1])
    ensures BE(OrBytes(a, b)) == BE(a) + BE(b)
  {
    var n := |a| - 1;
    var a1, b1 := a[..n], b[..n];
    BytesPrefix(a);
    BytesPrefix(b);
    calc {
      BE(OrBytes(a, b));
      { OrBytesLast(a, b); }
      BE(OrBytes(a1, b1)) * 256 + Or(a[n], b[n]);
      (BE(a1) + BE(b1)) * 256 + b[n];
      { BELast(a); BELast(b); }
      BE(a) + BE(b);
    }
  }

  /** The step of OrBytesAdd when b is a single low byte under the last byte of a. */
  lemma OrLowStep(a: seq<int>, b: seq<int>, k: nat)
    requires |a| == |b| > 0 && IsBytes(a) && IsBytes(b)
    requires BE(b[..|b| - 1]) == 0 && b[|b| - 1] == BE(b) < Pow2(k)
    requires a[|a| - 1] % Pow2(k) == 0
    ensures BE(OrBytes(a, b)) == BE(a) + BE(b)
  {
    var n := |a| - 1;
    var a1, b1 := a[..n], b[..n];
    BytesPrefix(a);
    BytesPrefix(b);
    calc {
      BE(OrBytes(a, b));
      { OrBytesLast(a, b); }
      BE(OrBytes(a1, b1)) * 256 + Or(a[n], b[n]);
      { OrZeroBytes(a1, b1); OrLow(a[n], b[n], k); }
      BE(a1) * 256 + a[n] + b[n];
      { BELast(a); }
      BE(a) + BE(b);
    }
  }

  lemma ModShift(m: int, x: int, p: int)
    requires p > 0
    ensures (m * p + x) % p == x % p
  {
    DivModUnique(m * p + x, p, m + x / p, x % p);
  }

  /**
   * `toBytes()` with no precision set: '' for zero; otherwise the top limb's
   * bytes, then for each lower limb a shift left by 31 bits and an or with
   * the limb's bytes padded to the same length. The result is the shortest
   * big-endian form of the magnitude.
   */
  method ToBytes(v: seq<int>) returns (result: seq<int>)
    requires Normal(v)
    ensures Val(v) >= 0 && result == BytesOf(Val(v))
    ensures |result| == 0 <==> |v| == 0
  {
    ValBound(v);
    ValZeroIffEmpty(v);
    if |v| == 0 {
      return [];
    }
    result := ShiftInLimbs(v);
    BytesOfBE(result);
  }

  /** The `toBytes` loop over the limbs of a non-zero value, top limb first. */
  method ShiftInLimbs(v: seq<int>) returns (result: seq<int>)
    requires Normal(v) && |v| > 0
    ensures IsBytes(result) && |result| > 0 && result[0] != 0
    ensures BE(result) == Val(v)
  {
    var i := |v| - 1;
    assert 0 < v[i] < Base;
    result := Int2Bytes(v[i]);
    assert |result| > 0 && result[0] != 0;
    ValFront(v, i);
    while i > 0
      invariant 0 <= i < |v|
      invariant IsBytes(result) && |result| > 0 && result[0] != 0
      invariant BE(result) == Val(v[i..])
    {
      i := i - 1;
      result := ShiftInLimbAt(v, i, result);
    }
    assert v[0..] == v;
  }

  /** `str_pad(_int2bytes($limb), $n, chr(0), STR_PAD_LEFT)`: the limb's bytes, n long when n >= 4. */
  function PaddedLimb(d: int, n: nat): (r: seq<int>)
    requires 0 <= d < Base
    ensures IsBytes(r) && BE(r) == d
    ensures |r| >= n && (n >= 4 ==> |r| == n)
  {
    PadLeftZeros(Int2Bytes(d), n)
  }

  /**
   * The body of the `toBytes` loop: shift the bytes so far left by one limb
   * and or in the next limb's bytes, padded to the same length.
   */
  method ShiftInLimb(result: seq<int>, d: int) returns (next: seq<int>)
    requires IsBytes(result) && |result| > 0 && result[0] != 0 && 0 <= d < Base
    ensures IsBytes(next) && |next| > 0 && next[0] != 0
    ensures BE(next) == BE(result) * Base + d
  {
    var shifted := Base256LShift(result, 31);
    var limb := PaddedLimb(d, |shifted|);
    MultipleOfLimb(BE(shifted), BE(result));
    ToBytesStep(shifted, limb, d);
    next := OrBytes(shifted, limb);
  }

  /** One iteration of the `toBytes` loop: from the bytes of the limbs above i to those from i on. */
  method ShiftInLimbAt(v: seq<int>, i: nat, result: seq<int>) returns (next: seq<int>)
    requires Digits(v) && i < |v|
    requires IsBytes(result) && |result| > 0 && result[0] != 0 && BE(result) == Val(v[i + 1..])
    ensures IsBytes(next) && |next| > 0 && next[0] != 0 && BE(next) == Val(v[i..])
  {
    next := ShiftInLimb(result, v[i]);
    LimbPrepended(v, i, BE(result), BE(next));
  }

  /** Shifting in limb i of v turns the value of the limbs above i into that from i on. */
  lemma LimbPrepended(v: seq<int>, i: nat, above: int, next: int)
    requires i < |v| && above == Val(v[i + 1..]) && next == above * Base + v[i]
    ensures next == Val(v[i..])
  {
    ValFront(v, i);
  }

  /** The value of the limbs from i on: limb i, then the rest shifted by one limb. */
  lemma ValFront(v: seq<int>, i: nat)
    requires i < |v|
    ensures Val(v[i..]) == v[i] + Base * Val(v[i + 1..])
    ensures i == |v| - 1 ==> Val(v[i..]) == v[i]
  {
    assert v[i..][1..] == v[i + 1..];
  }

  /** One step of `toBytes`: or the next limb's padded bytes into a shifted string. */
  lemma ToBytesStep(shifted: seq<int>, limb: seq<int>, d: int)
    requires IsBytes(shifted) && |shifted| >= 4 && shifted[0] != 0
    requires BE(shifted) % Pow2(31) == 0 && 0 <= d < Base
    requires IsBytes(limb) && |limb| == |shifted| && BE(limb) == d
    ensures BE(OrBytes(shifted, limb)) == BE(shifted) + d
    ensures OrBytes(shifted, limb)[0] != 0
  {
    var r := OrBytes(shifted, limb);
    assert BE(r) == BE(shifted) + d by {
      Pow2Constants();
      OrBytesAdd(shifted, limb, 31);
    }
    assert r[0] != 0 by {
      assert BE(r) >= Pow2(8 * (|r| - 1)) by {
        BELeading(shifted);
      }
      LeadingFromValue(r);
    }
  }

  /** A multiple of 2^31 leaves no remainder. */
  lemma MultipleOfLimb(sv: int, rv: int)
    requires sv == rv * Pow2(31)
    ensures sv % Pow2(31) == 0 && sv == rv * Base
  {
    Pow2Constants();
    DivModUnique(sv, Pow2(31), rv, 0);
  }

  // ---------------------------------------------------------------------
  // Round trips
  // ---------------------------------------------------------------------

  /** `new BigInteger($x->toBytes(), 256)` gives back the limbs of a non-negative x. */
  method BytesRoundTrip(v: seq<int>) returns (w: seq<int>)
    requires Normal(v)
    ensures w == v
  {
    var bytes := ToBytes(v);
    w := FromBytesAsWritten(bytes);
    NormalIsToLimbs(v);
  }

  /** Reading a string and writing it back gives the string without its leading zeros. */
  lemma LimbsRoundTrip(s: seq<int>)
    requires IsBytes(s)
    ensures BE(s) >= 0 && BytesOf(Val(ToLimbs(BE(s)))) == LTrim(s)
  {
    BytesOfTrimmed(s);
  }
}

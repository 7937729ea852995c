/**
 * `_slidingWindow` of Oxygen_Math_BigInteger (HAC 14.85) in Barrett mode,
 * the mode `modPow` always uses, together with the reductions it is built
 * from: `_prepareReduce`/`_reduce`, `_multiplyReduce` and `_squareReduce`.
 */
module ModExp {

  import opened Bits
  import opened Limbs
  import opened LimbMul
  import opened LimbBarrett

  // ---------------------------------------------------------------------
  // Integer powers and residues
  // ---------------------------------------------------------------------

  /** b^k. */
  function Exp(b: int, k: nat): int
  {
    if k == 0 then 1 else b * Exp(b, k - 1)
  }

  lemma {:induction false} ExpAdd(b: int, m: nat, k: nat)
    ensures Exp(b, m + k) == Exp(b, m) * Exp(b, k)
    decreases k
  {
    if k > 0 {
      ExpAdd(b, m, k - 1);
      calc {
        Exp(b, m + k);
        b * Exp(b, m + k - 1);
        b * (Exp(b, m) * Exp(b, k - 1));
        Exp(b, m) * (b * Exp(b, k - 1));
      }
    }
  }

  /** Adding a multiple of n does not change the residue. */
  lemma ModMultiple(c: int, k: int, n: int)
    requires n > 0
    ensures (k * n + c) % n == c % n
  {
    var q, r := c / n, c % n;
    assert k * n + c == (k + q) * n + r;
    DivModUnique(k * n + c, n, k + q, r);
  }

  /** A product's residue depends only on the factors' residues. */
  lemma MulMod(a: int, b: int, n: int)
    requires n > 0
    ensures ((a % n) * (b % n)) % n == (a * b) % n
  {
    var qa, ra := a / n, a % n;
    var qb, rb := b / n, b % n;
    var k := qa * qb * n + qa * rb + ra * qb;
    assert a * b == k * n + ra * rb by {
      assert a == qa * n + ra;
      assert b == qb * n + rb;
    }
    ModMultiple(ra * rb, k, n);
  }

  /** Squaring a residue of b^p gives the residue of b^(2p). */
  lemma SquareStep(b: int, p: nat, n: int, r: int)
    requires n > 0 && r == Exp(b, p) % n
    ensures (r * r) % n == Exp(b, 2 * p) % n
  {
    ExpAdd(b, p, p);
    MulMod(Exp(b, p), Exp(b, p), n);
  }

  /** Multiplying residues of b^p and b^q gives the residue of b^(p+q). */
  lemma MultiplyStep(b: int, p: nat, q: nat, n: int, r: int, s: int)
    requires n > 0 && r == Exp(b, p) % n && s == Exp(b, q) % n
    ensures (r * s) % n == Exp(b, p + q) % n
  {
    ExpAdd(b, p, q);
    MulMod(Exp(b, p), Exp(b, q), n);
  }

  lemma ModOfMod(a: int, n: int)
    requires n > 0
    ensures (a % n) % n == a % n
  {
    DivModUnique(a % n, n, 0, a % n);
  }

  // ---------------------------------------------------------------------
  // The reductions, Barrett mode
  // ---------------------------------------------------------------------

  /** `_reduce` and `_prepareReduce` in Barrett mode: x mod n. */
  method Reduce(x: seq<int>, n: seq<int>) returns (r: seq<int>)
    requires Normal(x) && Normal(n) && |n| > 0
    ensures Normal(r) && Val(n) > 0 && Val(r) == Val(x) % Val(n)
  {
    r := Barrett(x, n);
  }

  /** `_multiplyReduce` in Barrett mode: the product, reduced mod n. */
  method MultiplyReduce(x: seq<int>, y: seq<int>, n: seq<int>) returns (r: seq<int>)
    requires Normal(x) && Normal(y) && Normal(n) && |n| > 0
    ensures Normal(r) && Val(n) > 0 && Val(r) == (Val(x) * Val(y)) % Val(n)
  {
    var product := MultiplyMagnitudes(x, y);
    r := Barrett(product, n);
  }

  /** `_squareReduce` in Barrett mode: the square, reduced mod n. */
  method SquareReduce(x: seq<int>, n: seq<int>) returns (r: seq<int>)
    requires Normal(x) && Normal(n) && |n| > 0
    ensures Normal(r) && Val(n) > 0 && Val(r) == (Val(x) * Val(x)) % Val(n)
  {
    var square := Square(x);
    r := Barrett(square, n);
  }

  // ---------------------------------------------------------------------
  // Exponent bit strings: decbin, str_pad, bindec
  // ---------------------------------------------------------------------

  predicate BitString(s: string)
  {
    forall i :: 0 <= i < |s| ==> s[i] == '0' || s[i] == '1'
  }

  /** PHP `bindec` on a string of binary digits, most significant first. */
  function Bindec(s: string): nat
  {
    if |s| == 0 then 0
    else 2 * Bindec(s[..|s| - 1]) + (if s[|s| - 1] == '1' then 1 else 0)
  }

  /** Reading a concatenation: the left part is shifted past the right part. */
  lemma {:induction false} BindecConcat(a: string, b: string)
    ensures Bindec(a + b) == Bindec(a) * Pow2(|b|) + Bindec(b)
    decreases |b|
  {
    if |b| > 0 {
      var c := b[..|b| - 1];
      assert (a + b)[..|a + b| - 1] == a + c;
      BindecConcat(a, c);
      assert (a + b)[|a + b| - 1] == b[|b| - 1];
      calc {
        Bindec(a + b);
        2 * Bindec(a + c) + (if b[|b| - 1] == '1' then 1 else 0);
        2 * (Bindec(a) * Pow2(|c|) + Bindec(c)) + (if b[|b| - 1] == '1' then 1 else 0);
        { assert 2 * (Bindec(a) * Pow2(|c|)) == Bindec(a) * (2 * Pow2(|c|)); }
        { assert Bindec(b) == 2 * Bindec(c) + (if b[|b| - 1] == '1' then 1 else 0); }
        Bindec(a) * (2 * Pow2(|c|)) + Bindec(b);
      }
      assert Pow2(|b|) == 2 * Pow2(|c|);
    } else {
      assert a + b == a;
    }
  }

  lemma {:induction false} BindecBelow(s: string)
    ensures Bindec(s) < Pow2(|s|)
  {
    if |s| > 0 {
      BindecBelow(s[..|s| - 1]);
    }
  }

  lemma {:induction false} BindecOfZeros(k: nat)
    ensures Bindec(seq(k, _ => '0')) == 0
  {
    if k > 0 {
      assert seq(k, _ => '0')[..k - 1] == seq(k - 1, _ => '0');
      BindecOfZeros(k - 1);
    }
  }

  /**
   * PHP `decbin`: the binary digits of v, most significant first, with no
   * leading zero; zero is "0".
   */
  function Decbin(v: nat): (r: string)
    ensures BitString(r) && |r| >= 1 && Bindec(r) == v
    ensures v > 0 ==> r[0] == '1'
    ensures forall k: nat :: k >= 1 && v < Pow2(k) ==> |r| <= k
    decreases v
  {
    if v < 2 then (if v == 0 then "0" else "1")
    else
      var rest := Decbin(v / 2);
      var r := rest + (if v % 2 == 1 then "1" else "0");
      assert r[..|r| - 1] == rest;
      assert forall k: nat :: k >= 1 && v < Pow2(k) ==> |r| <= k by {
        forall k: nat | k >= 1 && v < Pow2(k)
          ensures |r| <= k
        {
          if k == 1 {
            assert false;
          } else {
            assert v / 2 < Pow2(k - 1);
          }
        }
      }
      r
  }

  /** `str_pad($s, $len, '0', STR_PAD_LEFT)`. */
  function PadLeft(s: string, len: nat): (r: string)
    ensures Bindec(r) == Bindec(s)
    ensures BitString(s) ==> BitString(r)
    ensures |r| == if |s| >= len then |s| else len
  {
    if |s| >= len then s
    else
      var zeros := seq(len - |s|, _ => '0');
      BindecConcat(zeros, s);
      BindecOfZeros(len - |s|);
      zeros + s
  }

  /**
   * The exponent's bit string as `_slidingWindow` builds it: `decbin` of the
   * top limb, then every lower limb padded to 31 binary digits, most
   * significant limb first. It reads back as the exponent and starts with 1.
   */
  method ExponentBits(e: seq<int>) returns (bits: string)
    requires Normal(e) && |e| > 0
    ensures BitString(bits) && |bits| > 0 && bits[0] == '1'
    ensures Bindec(bits) == Val(e)
  {
    Pow2Constants();
    var i := |e| - 1;
    bits := Decbin(e[i]);
    assert e[i..] == [e[i]];
    while i > 0
      invariant 0 <= i <= |e| - 1
      invariant BitString(bits) && |bits| > 0 && bits[0] == '1'
      invariant Bindec(bits) == Val(e[i..])
    {
      i := i - 1;
      var limb := PadLeft(Decbin(e[i]), 31);
      assert |limb| == 31 by {
        assert |Decbin(e[i])| <= 31;
      }
      BindecConcat(bits, limb);
      assert e[i..][1..] == e[i + 1..];
      bits := bits + limb;
    }
  }

  // ---------------------------------------------------------------------
  // Window size and the table of odd powers
  // ---------------------------------------------------------------------

  /** The exponent bit lengths at which the window grows, from BigInteger.java. */
  const WindowRanges: seq<nat> := [7, 25, 81, 241, 673, 1793]

  /**
   * The window size: 1 plus the number of thresholds strictly below the bit
   * length. The loop also stops after the last threshold, so the size never
   * exceeds 7.
   */
  method WindowSize(length: nat) returns (size: nat)
    ensures 1 <= size <= 7
    ensures forall k :: 0 <= k < |WindowRanges| ==> (k + 1 < size <==> length > WindowRanges[k])
  {
    var i := 0;
    size := 1;
    while i < |WindowRanges| && length > WindowRanges[i]
      invariant 0 <= i <= |WindowRanges| && size == i + 1
      invariant forall k :: 0 <= k < i ==> length > WindowRanges[k]
    {
      size := size + 1;
      i := i + 1;
    }
  }

  /** A table entry for exponent j holds b^j mod n as a normal array. */
  predicate PowerTable(powers: map<int, seq<int>>, b: int, m: int)
    requires m > 0
  {
    forall j :: j in powers ==> j >= 0 && Normal(powers[j]) && Val(powers[j]) == Exp(b, j) % m
  }

  lemma TableExtend(powers: map<int, seq<int>>, b: int, m: int, j: int, v: seq<int>)
    requires m > 0 && PowerTable(powers, b, m)
    requires j >= 0 && Normal(v) && Val(v) == Exp(b, j) % m
    ensures PowerTable(powers[j := v], b, m)
  {
  }

  /** The exponents the table holds once odd entries up to 2 * i - 1 are filled. */
  predicate TableKeys(powers: map<int, seq<int>>, i: int)
  {
    (forall j :: j in powers ==> j == 2 || (1 <= j < 2 * i && j % 2 == 1))
    && 2 in powers
    && (forall j :: 1 <= j < 2 * i && j % 2 == 1 ==> j in powers)
  }

  lemma KeysExtend(powers: map<int, seq<int>>, i: int, v: seq<int>)
    requires i >= 1 && TableKeys(powers, i)
    ensures TableKeys(powers[2 * i + 1 := v], i + 1)
  {
    var next := powers[2 * i + 1 := v];
    forall j | 1 <= j < 2 * (i + 1) && j % 2 == 1
      ensures j in next
    {
      if j < 2 * i {
        assert j in powers;
      } else {
        assert j == 2 * i + 1;
      }
    }
  }

  /** One pass of the precomputation loop: entry 2i + 1 is entry 2i − 1 times entry 2. */
  method AddOddPower(p0: map<int, seq<int>>, i: int, n: seq<int>, ghost b: int) returns (powers: map<int, seq<int>>)
    requires i >= 1 && Normal(n) && |n| > 0 && Val(n) > 0
    requires PowerTable(p0, b, Val(n)) && TableKeys(p0, i)
    ensures PowerTable(powers, b, Val(n)) && TableKeys(powers, i + 1)
  {
    var i2 := 2 * i;
    assert i2 - 1 in p0;
    var next := MultiplyReduce(p0[i2 - 1], p0[2], n);
    MultiplyStep(b, i2 - 1, 2, Val(n), Val(p0[i2 - 1]), Val(p0[2]));
    TableExtend(p0, b, Val(n), i2 + 1, next);
    KeysExtend(p0, i, next);
    powers := p0[i2 + 1 := next];
  }

  /**
   * The precomputation of `_slidingWindow`: entries 1 and 2, then every odd
   * exponent below 2^size, each the previous odd entry times entry 2.
   */
  method Precompute(x: seq<int>, n: seq<int>, size: nat) returns (powers: map<int, seq<int>>)
    requires Normal(x) && Normal(n) && |n| > 0 && size >= 1
    ensures Val(n) > 0 && PowerTable(powers, Val(x), Val(n))
    ensures forall j :: j in powers <==> j == 2 || (1 <= j < Pow2(size) && j % 2 == 1)
  {
    ghost var b, m := Val(x), Val(n);
    var p1 := Reduce(x, n);
    assert Val(p1) == Exp(b, 1) % m;
    var p2 := SquareReduce(p1, n);
    SquareStep(b, 1, m, Val(p1));
    powers := map[1 := p1, 2 := p2];
    var count := Pow2(size - 1);      // `1 << ($window_size - 1)`
    var i := 1;
    while i < count
      invariant 1 <= i <= count
      invariant PowerTable(powers, b, m) && TableKeys(powers, i)
    {
      powers := AddOddPower(powers, i, n, b);
      i := i + 1;
    }
    assert Pow2(size) == 2 * i;
  }

  // ---------------------------------------------------------------------
  // The exponentiation loop
  // ---------------------------------------------------------------------

  /**
   * The window that starts at a 1 bit: the largest j < size such that bit
   * i + j exists and is 1, or 0. A bit past the end of the string reads as
   * empty, which PHP treats like '0'.
   */
  method WindowEnd(bits: string, i: nat, size: nat) returns (j: nat)
    requires i < |bits| && size >= 1
    ensures j < size && i + j < |bits|
    ensures j == 0 || bits[i + j] == '1'
    ensures forall t :: i + j < t < i + size && t < |bits| ==> bits[t] != '1'
  {
    j := size - 1;
    while j > 0
      invariant j < size
      invariant forall t :: i + j < t < i + size && t < |bits| ==> bits[t] != '1'
    {
      if i + j < |bits| && bits[i + j] == '1' {
        break;
      }
      j := j - 1;
    }
  }

  /** A window starting and ending at a 1 bit names an odd table entry. */
  lemma WindowEntry(w: string, size: nat)
    requires 1 <= |w| <= size && w[|w| - 1] == '1'
    ensures Bindec(w) % 2 == 1 && 1 <= Bindec(w) < Pow2(size)
  {
    BindecBelow(w);
    Pow2Mono(|w|, size);
  }

  /** Squaring for a 0 bit extends the exponent read so far by that bit. */
  lemma ZeroBitStep(b: int, m: int, bits: string, i: nat, s: int)
    requires m > 0 && i < |bits| && bits[i] != '1'
    requires s == Exp(b, Bindec(bits[..i])) % m
    ensures (s * s) % m == Exp(b, Bindec(bits[..i + 1])) % m
  {
    assert bits[..i + 1][..i] == bits[..i];
    SquareStep(b, Bindec(bits[..i]), m, s);
  }

  /**
   * Multiplying by the table entry of a window, after squaring once per
   * window bit, extends the exponent read so far by the window.
   */
  lemma WindowStep(b: int, m: int, bits: string, i: nat, j: nat, s: int, t: int)
    requires m > 0 && i + j < |bits|
    requires s == Exp(b, Bindec(bits[..i]) * Pow2(j + 1)) % m
    requires t == Exp(b, Bindec(bits[i..i + j + 1])) % m
    ensures (s * t) % m == Exp(b, Bindec(bits[..i + j + 1])) % m
  {
    var window := bits[i..i + j + 1];
    assert bits[..i + j + 1] == bits[..i] + window;
    BindecConcat(bits[..i], window);
    MultiplyStep(b, Bindec(bits[..i]) * Pow2(j + 1), Bindec(window), m, s, t);
  }

  /** The `for ($k = 0; $k <= $j; ++$k)` run of squarings: b^p becomes b^(p * 2^count). */
  method SquareTimes(r0: seq<int>, n: seq<int>, count: nat, ghost b: int, ghost p: nat) returns (r: seq<int>)
    requires Normal(r0) && Normal(n) && |n| > 0
    requires Val(n) > 0 && Val(r0) == Exp(b, p) % Val(n)
    ensures Normal(r) && Val(r) == Exp(b, p * Pow2(count)) % Val(n)
  {
    r := r0;
    var k := 0;
    while k < count
      invariant 0 <= k <= count
      invariant Normal(r) && Val(r) == Exp(b, p * Pow2(k)) % Val(n)
    {
      var previous := r;
      r := SquareReduce(r, n);
      SquareStep(b, p * Pow2(k), Val(n), Val(previous));
      assert 2 * (p * Pow2(k)) == p * Pow2(k + 1);
      k := k + 1;
    }
  }

  /**
   * One pass of the exponentiation loop at bit i: a 0 bit squares once; a
   * 1 bit opens a window ending at its last 1 bit, squares once per window
   * bit and multiplies by the window's table entry.
   */
  method ExponentStep(r0: seq<int>, bits: string, i: nat, size: nat, powers: map<int, seq<int>>,
                      n: seq<int>, ghost b: int) returns (r: seq<int>, next: nat)
    requires i < |bits| && size >= 1 && Normal(n) && |n| > 0 && Val(n) > 0
    requires PowerTable(powers, b, Val(n))
    requires forall j :: 1 <= j < Pow2(size) && j % 2 == 1 ==> j in powers
    requires Normal(r0) && Val(r0) == Exp(b, Bindec(bits[..i])) % Val(n)
    ensures i < next <= |bits|
    ensures Normal(r) && Val(r) == Exp(b, Bindec(bits[..next])) % Val(n)
  {
    if bits[i] != '1' {
      r := SquareReduce(r0, n);
      ZeroBitStep(b, Val(n), bits, i, Val(r0));
      next := i + 1;
    } else {
      var j := WindowEnd(bits, i, size);
      var squared := SquareTimes(r0, n, j + 1, b, Bindec(bits[..i]));
      var window := bits[i..i + j + 1];
      WindowEntry(window, size);
      var w := Bindec(window);                  // `bindec(substr(...))`
      r := MultiplyReduce(squared, powers[w], n);
      WindowStep(b, Val(n), bits, i, j, Val(squared), Val(powers[w]));
      next := i + j + 1;
    }
  }

  /**
   * `_slidingWindow` in Barrett mode: left-to-right k-ary exponentiation
   * with a reduction after every squaring and multiplication. The result is
   * x^e mod n.
   */
  method SlidingWindow(x: seq<int>, e: seq<int>, n: seq<int>) returns (r: seq<int>)
    requires Normal(x) && Normal(e) && |e| > 0 && Normal(n) && |n| > 0
    ensures Normal(r) && Val(n) > 0 && Val(e) >= 0 && Val(r) == Exp(Val(x), Val(e)) % Val(n)
  {
    ghost var b, m := Val(x), Val(n);
    var bits := ExponentBits(e);
    var length := |bits|;
    var size := WindowSize(length);
    var powers := Precompute(x, n, size);
    var result := Reduce([1], n);
    assert Val([1]) == 1;
    assert bits[..0] == "";
    var i := 0;
    while i < length
      invariant 0 <= i <= length
      invariant Normal(result) && Val(result) == Exp(b, Bindec(bits[..i])) % m
    {
      result, i := ExponentStep(result, bits, i, size, powers, n, b);
    }
    assert bits[..length] == bits;
    r := Reduce(result, n);
    ModOfMod(Exp(b, Val(e)), m);
  }
}

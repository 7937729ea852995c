/**
 * PHP binary strings as sequences of byte values, read as big-endian
 * unsigned integers (the reading of `pack('N', …)`, of the base-256
 * BigInteger constructor and of the DER integer fields).
 */
module Bytes {

  import opened Bits

  /** Every element is a byte value, as `ord` returns. */
  predicate IsBytes(s: seq<int>)
  {
    forall i :: 0 <= i < |s| ==> 0 <= s[i] < 256
  }

  /** The big-endian unsigned value of a byte string. */
  function BE(s: seq<int>): (r: int)
    ensures IsBytes(s) ==> r >= 0
  {
    if |s| == 0 then 0 else BE(s[..|s| - 1]) * 256 + s[|s| - 1]
  }

  /** `str_repeat(chr(0), k)`. */
  function ZeroBytes(k: nat): (r: seq<int>)
    ensures |r| == k && IsBytes(r)
    ensures forall i :: 0 <= i < k ==> r[i] == 0
  {
    seq(k, _ => 0)
  }

  /** `ltrim($s, chr(0))`: the string without its leading zero bytes. */
  function LTrim(s: seq<int>): (r: seq<int>)
    ensures |r| <= |s| && r == s[|s| - |r|..]
    ensures |r| == 0 || r[0] != 0
    ensures forall i :: 0 <= i < |s| - |r| ==> s[i] == 0
    ensures IsBytes(s) ==> IsBytes(r)
  {
    if |s| == 0 || s[0] != 0 then s else LTrim(s[1..])
  }

  /** The shortest big-endian bytes of n: empty for zero, no leading zero byte. */
  function BytesOf(n: nat): (r: seq<int>)
    ensures IsBytes(r) && BE(r) == n
    ensures |r| == 0 <==> n == 0
    ensures |r| > 0 ==> r[0] != 0
  {
    if n == 0 then []
    else
      var r := BytesOf(n / 256) + [n % 256];
      assert r[..|r| - 1] == BytesOf(n / 256);
      r
  }

  // ---------------------------------------------------------------------
  // Facts about BE
  // ---------------------------------------------------------------------

  /** A byte string of length k is below 256^k. */
  lemma {:induction false} BEBound(s: seq<int>)
    requires IsBytes(s)
    ensures 0 <= BE(s) < Pow2(8 * |s|)
  {
    if |s| > 0 {
      BEBound(s[..|s| - 1]);
      Pow2Add(8 * (|s| - 1), 8);
      Pow2Eight();
    }
  }

  lemma Pow2Eight()
    ensures Pow2(8) == 256
  {
    assert Pow2(4) == 16;
    Pow2Add(4, 4);
  }

  /** The value of a concatenation: the head shifted past the tail. */
  lemma {:induction false} BEConcat(a: seq<int>, b: seq<int>)
    ensures BE(a + b) == BE(a) * Pow2(8 * |b|) + BE(b)
    decreases |b|
  {
    if |b| == 0 {
      assert a + b == a;
    } else {
      var c := b[..|b| - 1];
      assert (a + b)[..|a + b| - 1] == a + c;
      BEConcat(a, c);
      Pow2Add(8 * |c|, 8);
      Pow2Eight();
      assert BE(a + b) == BE(a + c) * 256 + b[|b| - 1];
      assert BE(b) == BE(c) * 256 + b[|b| - 1];
      Regroup(BE(a), Pow2(8 * |c|), BE(c), b[|b| - 1]);
    }
  }

  lemma Regroup(x: int, p: int, y: int, z: int)
    ensures (x * p + y) * 256 + z == x * (p * 256) + (y * 256 + z)
  {
  }

  /** Leading zero bytes do not change the value. */
  lemma {:induction false} BEZeros(k: nat, s: seq<int>)
    ensures BE(ZeroBytes(k) + s) == BE(s)
  {
    BEConcat(ZeroBytes(k), s);
    AllZero(ZeroBytes(k));
  }

  /** A string of zero bytes is worth zero, and only such a string is. */
  lemma {:induction false} AllZero(s: seq<int>)
    ensures (forall i :: 0 <= i < |s| ==> s[i] == 0) ==> BE(s) == 0
    ensures IsBytes(s) && BE(s) == 0 ==> forall i :: 0 <= i < |s| ==> s[i] == 0
  {
    if |s| > 0 {
      AllZero(s[..|s| - 1]);
      if IsBytes(s) {
        BEBound(s[..|s| - 1]);
      }
    }
  }

  /** A string whose first byte is non-zero is at least 256^(k−1). */
  lemma BELeading(s: seq<int>)
    requires IsBytes(s) && |s| > 0 && s[0] != 0
    ensures BE(s) >= Pow2(8 * (|s| - 1))
  {
    var h, t := [s[0]], s[1..];
    assert h + t == s;
    BEConcat(h, t);
    assert h[..0] == [];
    assert BE(h) == s[0];
    BEBound(t);
    AtLeastOnce(s[0], Pow2(8 * |t|));
  }

  lemma AtLeastOnce(a: int, p: int)
    requires a >= 1 && p >= 0
    ensures a * p >= p
  {
    MulNonneg(a - 1, p);
  }

  /** Trimming leading zero bytes keeps the value. */
  lemma LTrimValue(s: seq<int>)
    ensures BE(LTrim(s)) == BE(s)
  {
    var r := LTrim(s);
    var k := |s| - |r|;
    var z := s[..k];
    assert s == z + r;
    assert z == ZeroBytes(k) by {
      assert forall i :: 0 <= i < k ==> z[i] == s[i];
    }
    BEZeros(k, r);
  }

  /** A byte string without leading zeros is the shortest form of its value. */
  lemma {:induction false} BytesOfBE(s: seq<int>)
    requires IsBytes(s) && (|s| == 0 || s[0] != 0)
    ensures BytesOf(BE(s)) == s
  {
    if |s| > 0 {
      var p := s[..|s| - 1];
      BEBound(p);
      if |p| > 0 {
        assert p[0] == s[0];
      } else {
        assert s == [s[0]];
      }
      if |p| > 0 {
        BELeading(p);
      }
      DivModUnique(BE(s), 256, BE(p), s[|s| - 1]);
      BytesOfBE(p);
      assert s == p + [s[|s| - 1]];
    }
  }

  /** The shortest form of the value of any byte string is that string, trimmed. */
  lemma BytesOfTrimmed(s: seq<int>)
    requires IsBytes(s)
    ensures BytesOf(BE(s)) == LTrim(s)
  {
    LTrimValue(s);
    BytesOfBE(LTrim(s));
  }
}

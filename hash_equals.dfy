/**
 * `Oxygen_Util::hashEquals` and `Oxygen_Security_Util::hashEquals`, which
 * have the same body: PHP's `hash_equals` when that function exists, and
 * otherwise a loop that ors together the bytes of `$known ^ $user`.
 */
module HashEquals {

  import opened Bits
  import opened Bytes

  function Min(a: nat, b: nat): nat
  {
    if a <= b then a else b
  }

  /** PHP string xor `$a ^ $b`: byte-wise, cut to the shorter operand. */
  function XorStrings(a: seq<int>, b: seq<int>): (r: seq<int>)
    requires IsBytes(a) && IsBytes(b)
    ensures |r| == Min(|a|, |b|) && IsBytes(r)
    ensures forall i :: 0 <= i < |r| ==> r[i] == Xor(a[i], b[i])
  {
    if |a| == 0 || |b| == 0 then []
    else
      Pow2Eight();
      OrBound(a[0], b[0], 8);
      [Xor(a[0], b[0])] + XorStrings(a[1..], b[1..])
  }

  /** The or of every byte, accumulated from the last byte to the first. */
  function OrAll(s: seq<int>): (r: nat)
    requires IsBytes(s)
  {
    if |s| == 0 then 0 else Or(OrAll(s[1..]), s[0])
  }

  /** The accumulated or is zero exactly when every byte is. */
  lemma {:induction false} OrAllZero(s: seq<int>)
    requires IsBytes(s)
    ensures OrAll(s) == 0 <==> forall i :: 0 <= i < |s| ==> s[i] == 0
  {
    if |s| > 0 {
      OrAllZero(s[1..]);
      OrZero(OrAll(s[1..]), s[0]);
      assert forall i :: 1 <= i < |s| ==> s[i] == s[1..][i - 1];
    }
  }

  /** The xor of two strings is all zero exactly when their common prefix agrees. */
  lemma XorAllZero(a: seq<int>, b: seq<int>)
    requires IsBytes(a) && IsBytes(b)
    ensures OrAll(XorStrings(a, b)) == 0 <==> a[..Min(|a|, |b|)] == b[..Min(|a|, |b|)]
  {
    var x := XorStrings(a, b);
    var m := Min(|a|, |b|);
    OrAllZero(x);
    forall i | 0 <= i < m
      ensures x[i] == 0 <==> a[i] == b[i]
    {
      XorZero(a[i], b[i]);
    }
    if a[..m] == b[..m] {
      assert forall i :: 0 <= i < m ==> a[i] == a[..m][i];
    } else {
      var k :| 0 <= k < m && a[..m][k] != b[..m][k];
      assert x[k] != 0;
    }
  }

  /**
   * `hashEquals($known, $user)`: with the native function (`native`), string
   * equality; with the fallback, equality of the first min(|known|, |user|)
   * bytes only, since the xor is cut to the shorter string.
   */
  function HashEquals(known: seq<int>, user: seq<int>, native: bool): (r: bool)
    requires IsBytes(known) && IsBytes(user)
    ensures native ==> (r <==> known == user)
    ensures !native ==> (r <==> known[..Min(|known|, |user|)] == user[..Min(|known|, |user|)])
    ensures |known| == |user| ==> (r <==> known == user)
  {
    XorAllZero(known, user);
    assert |known| == |user| ==> known[..|known|] == known && user[..|user|] == user;
    if native then known == user else OrAll(XorStrings(known, user)) == 0
  }

  /**
   * The fallback loop: every byte of the xor is or-ed into the accumulator,
   * from the last to the first, with no early exit; the result is whether
   * the accumulator stayed zero.
   */
  method Fallback(known: seq<int>, user: seq<int>) returns (equal: bool, ghost visits: nat)
    requires IsBytes(known) && IsBytes(user)
    ensures equal == HashEquals(known, user, false)
    ensures visits == Min(|known|, |user|)
  {
    var res := XorStrings(known, user);
    var ret: nat := 0;
    visits := 0;
    var i := |res| - 1;
    while i >= 0
      invariant -1 <= i < |res|
      invariant ret == OrAll(res[i + 1..])
      invariant visits == |res| - 1 - i
    {
      assert res[i..][1..] == res[i + 1..];
      ret := Or(ret, res[i]);
      i := i - 1;
      visits := visits + 1;
    }
    assert res[0..] == res;
    equal := ret == 0;
  }

  /** The fallback accepts any user string that is a prefix of the known one, even the empty one. */
  lemma FallbackPrefixExample()
    ensures HashEquals([115, 101, 99], [], false)
    ensures !HashEquals([115, 101, 99], [], true)
  {
  }

  /** The comparison `hash_equals` performs, which the fallback evidently meant to reproduce. */
  function HashEqualsCorrected(known: seq<int>, user: seq<int>, native: bool): (r: bool)
    requires IsBytes(known) && IsBytes(user)
    ensures r <==> known == user
  {
    |known| == |user| && HashEquals(known, user, native)
  }
}

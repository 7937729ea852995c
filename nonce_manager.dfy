/**
 * Oxygen_Security_Nonce_NonceManager: a nonce is used at most once before
 * it expires. The `{oxygen_nonce}` table becomes a map from nonce value to
 * expiry held by the manager.
 */
module NonceManager {

  import opened Wrappers
  import opened OxygenException
  import Util

  /** The text before the first '_' (all of it when there is none). */
  function BeforeUnderscore(s: string): (r: string)
    ensures |r| <= |s| && r == s[..|r|]
    ensures forall i :: 0 <= i < |r| ==> r[i] != '_'
    ensures |r| == |s| || s[|r|] == '_'
  {
    if |s| == 0 || s[0] == '_' then "" else [s[0]] + BeforeUnderscore(s[1..])
  }

  /**
   * `list($nonceValue, $expiresAt) = explode('_', $nonce)`: the first two
   * pieces; the second is null (None) when the nonce has no '_'.
   */
  function Explode(nonce: string): (parts: (string, Option<string>))
    ensures parts.0 == BeforeUnderscore(nonce)
    ensures parts.1.None? <==> |parts.0| == |nonce|
    ensures parts.1.Some? ==> |parts.0| + 1 + |parts.1.value| <= |nonce|
    ensures parts.1.Some? ==> nonce[..|parts.0| + 1 + |parts.1.value|] == parts.0 + "_" + parts.1.value
  {
    var value := BeforeUnderscore(nonce);
    if |value| == |nonce| then (value, None)
    else
      var rest := nonce[|value| + 1..];
      var expiry := BeforeUnderscore(rest);
      assert nonce[..|value| + 1 + |expiry|] == value + "_" + expiry by {
        assert nonce[..|value|] == value;
        assert nonce[|value|] == '_';
        assert rest[..|expiry|] == expiry;
      }
      (value, Some(expiry))
  }

  /** `(int)$expiresAt`; a missing piece is null, which casts to 0. */
  function ExpiryOf(part: Option<string>): int
  {
    if part.None? then 0 else Util.IntVal(part.value, 10)
  }

  /**
   * The ledger after using `value` with expiry `expiresAt` at time `now`,
   * or the exception raised: NONCE_EXPIRED before NONCE_ALREADY_USED.
   */
  function Use(ledger: map<string, int>, value: string, expiresAt: int, now: int): (r: Result<map<string, int>, Fault>)
  {
    if expiresAt < now then Failure(Coded(Nonce(Expired)))
    else if value in ledger then Failure(Coded(Nonce(AlreadyUsed)))
    else Success(ledger[value := expiresAt])
  }

  /** The one-argument `useNonce($nonce)`: split "value_expiry", then use. */
  function UseNonceSpec(ledger: map<string, int>, nonce: string, now: int): (r: Result<map<string, int>, Fault>)
  {
    var parts := Explode(nonce);
    Use(ledger, parts.0, ExpiryOf(parts.1), now)
  }

  /**
   * Expired nonces fail with NONCE_EXPIRED, expiry equal to now is accepted,
   * a value already in the ledger fails with NONCE_ALREADY_USED, and success
   * adds exactly the one entry.
   */
  lemma UseOutcomes(ledger: map<string, int>, value: string, expiresAt: int, now: int)
    ensures expiresAt < now ==> Use(ledger, value, expiresAt, now) == Failure(Coded(Nonce(Expired)))
    ensures expiresAt >= now && value in ledger ==> Use(ledger, value, expiresAt, now) == Failure(Coded(Nonce(AlreadyUsed)))
    ensures Use(ledger, value, expiresAt, now).Success? <==> expiresAt >= now && value !in ledger
    ensures Use(ledger, value, expiresAt, now).Success? ==>
      var l := Use(ledger, value, expiresAt, now).value;
      l.Keys == ledger.Keys + {value} && |l| == |ledger| + 1 && l[value] == expiresAt
      && forall k :: k in ledger ==> l[k] == ledger[k]
  {
  }

  /** Using the same value a second time fails, whatever its expiry and the time. */
  lemma SecondUseFails(ledger: map<string, int>, value: string, e1: int, e2: int, t1: int, t2: int)
    requires Use(ledger, value, e1, t1).Success?
    ensures Use(Use(ledger, value, e1, t1).value, value, e2, t2).Failure?
  {
  }

  /** Two distinct fresh values, neither expired, are both accepted one after the other. */
  lemma DistinctValuesBothSucceed(ledger: map<string, int>, a: string, b: string, ea: int, eb: int, now: int)
    requires a != b && a !in ledger && b !in ledger && ea >= now && eb >= now
    ensures Use(ledger, a, ea, now).Success?
    ensures Use(Use(ledger, a, ea, now).value, b, eb, now).Success?
  {
  }

  /** A value and an expiry without '_' joined by '_' split back into the two. */
  lemma ExplodeJoined(value: string, expiry: string)
    requires forall i :: 0 <= i < |value| ==> value[i] != '_'
    requires forall i :: 0 <= i < |expiry| ==> expiry[i] != '_'
    ensures Explode(value + "_" + expiry) == (value, Some(expiry))
  {
    var nonce := value + "_" + expiry;
    BeforeUnderscoreOf(value, "_" + expiry);
    assert nonce == value + ("_" + expiry);
    assert nonce[|value| + 1..] == expiry;
    BeforeUnderscoreOf(expiry, "");
    assert expiry + "" == expiry;
  }

  /** A nonce without '_' is all value, with expiry null, which casts to 0. */
  lemma ExplodeUnjoined(nonce: string)
    requires forall i :: 0 <= i < |nonce| ==> nonce[i] != '_'
    ensures Explode(nonce) == (nonce, None) && ExpiryOf(Explode(nonce).1) == 0
  {
    BeforeUnderscoreOf(nonce, "");
    assert nonce + "" == nonce;
  }

  lemma {:induction false} BeforeUnderscoreOf(a: string, rest: string)
    requires forall i :: 0 <= i < |a| ==> a[i] != '_'
    requires rest == "" || rest[0] == '_'
    ensures BeforeUnderscore(a + rest) == a
  {
    if |a| > 0 {
      assert (a + rest)[0] == a[0];
      assert (a + rest)[1..] == a[1..] + rest;
      BeforeUnderscoreOf(a[1..], rest);
    } else {
      assert a + rest == rest;
    }
  }

  /** The nonce ledger: the `{oxygen_nonce}` rows as value to expiry. */
  class NonceManager {
    var ledger: map<string, int>

    constructor ()
      ensures ledger == map[]
    {
      ledger := map[];
    }

    /**
     * `useNonce($nonce)`: check the expiry, then that the value is unused,
     * then record it. A failure leaves the ledger as it was.
     */
    method UseNonce(nonce: string, now: int) returns (r: Result<(), Fault>)
      modifies this
      ensures UseNonceSpec(old(ledger), nonce, now).Failure? ==> r == Failure(UseNonceSpec(old(ledger), nonce, now).error) && ledger == old(ledger)
      ensures UseNonceSpec(old(ledger), nonce, now).Success? ==> r == Success(()) && ledger == UseNonceSpec(old(ledger), nonce, now).value
    {
      var parts := Explode(nonce);
      r := UseValue(parts.0, ExpiryOf(parts.1), now);
    }

    /**
     * `useNonce($nonce, $expiresAt)` as the interface declares it: the value
     * and its expiry passed apart.
     */
    method UseValue(value: string, expiresAt: int, now: int) returns (r: Result<(), Fault>)
      modifies this
      ensures Use(old(ledger), value, expiresAt, now).Failure? ==> r == Failure(Use(old(ledger), value, expiresAt, now).error) && ledger == old(ledger)
      ensures Use(old(ledger), value, expiresAt, now).Success? ==> r == Success(()) && ledger == Use(old(ledger), value, expiresAt, now).value
    {
      if expiresAt < now {
        return Failure(Coded(Nonce(Expired)));
      }
      var used := value in ledger;
      if used {
        return Failure(Coded(Nonce(AlreadyUsed)));
      }
      ledger := ledger[value := expiresAt];
      return Success(());
    }
  }
}

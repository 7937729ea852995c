/**
 * Oxygen_EventListener_HandshakeListener: the first signed request pins
 * the dashboard's public key; every later request is verified against the
 * pinned key. The RSA verifier is a parameter (`verify(key, data,
 * signature)`), the clock a parameter `now`.
 */
module HandshakeListener {

  import opened Wrappers
  import opened OxygenException
  import opened Php
  import NonceManager
  import DrupalState

  /** What one handshake does: its outcome, the key it pins (if any) and the new nonce ledger. */
  datatype HandshakeStep = HandshakeStep(result: Result<(), Fault>, pin: Option<Value>, ledger: map<string, int>)

  /** The key the signature is checked against: the pinned one, or the one offered when none is pinned. */
  function VerificationKey(data: map<string, Value>, existing: Value): (key: Value)
    ensures !Empty(existing) ==> key == existing
    ensures Empty(existing) && "publicKey" in data ==> key == data["publicKey"]
  {
    if Empty(existing) then Get(data, "publicKey") else existing
  }

  /**
   * `onMasterRequest`: the three required fields in order (their error
   * constants are not declared by Oxygen_Exception), the signature check,
   * the nonce, and the key pinned when none was.
   */
  function HandshakeOutcome(data: map<string, Value>, existing: Value, ledger: map<string, int>,
                     verify: (Value, Value, Value) -> bool, now: int): (step: HandshakeStep)
  {
    if EmptyField(data, "publicKey") then
      HandshakeStep(Failure(MissingConstant("HANDSHAKE_PUBLIC_KEY_NOT_PROVIDED")), None, ledger)
    else if EmptyField(data, "signature") then
      HandshakeStep(Failure(MissingConstant("HANDSHAKE_SIGNATURE_NOT_PROVIDED")), None, ledger)
    else if EmptyField(data, "nonce") then
      HandshakeStep(Failure(MissingConstant("HANDSHAKE_NONCE_NOT_PROVIDED")), None, ledger)
    else if !verify(VerificationKey(data, existing), data["nonce"], data["signature"]) then
      HandshakeStep(Failure(Coded(Handshake(if Empty(existing) then VerifyTestFailed else VerifyFailed))), None, ledger)
    else Verified(data["publicKey"], data["nonce"], existing, ledger, now)
  }

  /** After the signature verified: spend the nonce, then pin the offered key if none was pinned. */
  function Verified(provided: Value, nonce: Value, existing: Value, ledger: map<string, int>, now: int): (step: HandshakeStep)
  {
    match NonceManager.UseNonceSpec(ledger, ToText(nonce), now)
    case Failure(e) => HandshakeStep(Failure(e), None, ledger)
    case Success(next) => HandshakeStep(Success(()), if Empty(existing) then Some(provided) else None, next)
  }

  /** The missing fields are reported in the order publicKey, signature, nonce. */
  lemma MissingFieldsInOrder(data: map<string, Value>, existing: Value, ledger: map<string, int>,
                             verify: (Value, Value, Value) -> bool, now: int)
    ensures var r := HandshakeOutcome(data, existing, ledger, verify, now).result;
      (EmptyField(data, "publicKey") ==> r == Failure(MissingConstant("HANDSHAKE_PUBLIC_KEY_NOT_PROVIDED")))
      && (!EmptyField(data, "publicKey") && EmptyField(data, "signature") ==>
            r == Failure(MissingConstant("HANDSHAKE_SIGNATURE_NOT_PROVIDED")))
      && (!EmptyField(data, "publicKey") && !EmptyField(data, "signature") && EmptyField(data, "nonce") ==>
            r == Failure(MissingConstant("HANDSHAKE_NONCE_NOT_PROVIDED")))
  {
  }

  /**
   * A handshake succeeds only when the signature verifies under the pinned
   * key, or under the offered key when none is pinned; a failed check is
   * HANDSHAKE_VERIFY_TEST_FAILED without a pinned key and
   * HANDSHAKE_VERIFY_FAILED with one.
   */
  lemma VerificationDecides(data: map<string, Value>, existing: Value, ledger: map<string, int>,
                            verify: (Value, Value, Value) -> bool, now: int)
    requires !EmptyField(data, "publicKey") && !EmptyField(data, "signature") && !EmptyField(data, "nonce")
    ensures var step := HandshakeOutcome(data, existing, ledger, verify, now);
      var key := if Empty(existing) then data["publicKey"] else existing;
      (step.result.Success? ==> verify(key, data["nonce"], data["signature"]))
      && (!verify(key, data["nonce"], data["signature"]) ==>
            step.result == Failure(Coded(Handshake(if Empty(existing) then VerifyTestFailed else VerifyFailed))))
  {
  }

  /** The nonce is spent only when the signature verified, and then exactly as the nonce manager spends it. */
  lemma NonceSpentAfterVerification(data: map<string, Value>, existing: Value, ledger: map<string, int>,
                                    verify: (Value, Value, Value) -> bool, now: int)
    ensures var step := HandshakeOutcome(data, existing, ledger, verify, now);
      step.ledger != ledger ==>
        !EmptyField(data, "nonce")
        && verify(VerificationKey(data, existing), data["nonce"], data["signature"])
        && step.ledger == NonceManager.UseNonceSpec(ledger, ToText(data["nonce"]), now).value
  {
  }

  /**
   * A pinned key is never replaced, a failure pins nothing, and a successful
   * handshake without a pinned key pins the key it was offered.
   */
  lemma PinningRule(data: map<string, Value>, existing: Value, ledger: map<string, int>,
                    verify: (Value, Value, Value) -> bool, now: int)
    ensures var step := HandshakeOutcome(data, existing, ledger, verify, now);
      (!Empty(existing) ==> step.pin.None?)
      && (step.result.Failure? ==> step.pin.None? && step.ledger == ledger)
      && (step.result.Success? && Empty(existing) ==> step.pin == Some(data["publicKey"]))
  {
  }

  /** A replayed handshake fails: its nonce is already in the ledger. */
  lemma ReplayFails(data: map<string, Value>, existing: Value, ledger: map<string, int>,
                    verify: (Value, Value, Value) -> bool, now: int, later: int)
    requires HandshakeOutcome(data, existing, ledger, verify, now).result.Success?
    ensures var step := HandshakeOutcome(data, existing, ledger, verify, now);
      var again := HandshakeOutcome(data, if step.pin.Some? then step.pin.value else existing, step.ledger, verify, later);
      again.result.Failure?
  {
    var step := HandshakeOutcome(data, existing, ledger, verify, now);
    var pinned := if step.pin.Some? then step.pin.value else existing;
    assert VerificationKey(data, pinned) == VerificationKey(data, existing);
    var parts := NonceManager.Explode(ToText(data["nonce"]));
    var e := NonceManager.ExpiryOf(parts.1);
    assert step.ledger == NonceManager.Use(ledger, parts.0, e, now).value;
    NonceManager.SecondUseFails(ledger, parts.0, e, e, now, later);
    assert NonceManager.UseNonceSpec(step.ledger, ToText(data["nonce"]), later).Failure?;
    PastTheChecks(data, pinned, step.ledger, verify, later);
  }

  /** Once the fields are there and the signature verifies, the outcome is the nonce's. */
  lemma PastTheChecks(data: map<string, Value>, existing: Value, ledger: map<string, int>,
                      verify: (Value, Value, Value) -> bool, now: int)
    requires !EmptyField(data, "publicKey") && !EmptyField(data, "signature") && !EmptyField(data, "nonce")
    requires verify(VerificationKey(data, existing), data["nonce"], data["signature"])
    ensures HandshakeOutcome(data, existing, ledger, verify, now).result.Failure?
            <==> NonceManager.UseNonceSpec(ledger, ToText(data["nonce"]), now).Failure?
  {
  }

  /**
   * `onMasterRequest` as written: its first line calls `$event->getData()`,
   * which Oxygen_Event_MasterRequestEvent does not declare (its getter is
   * `getRequestData`), so PHP raises an Error before any field is read.
   * Were the getter there, the data would be the stdClass the kernel cast
   * the body to, which `$data['publicKey']` cannot index either.
   */
  function HandshakeOutcomeAsWritten(data: map<string, Value>, existing: Value, ledger: map<string, int>,
                                     verify: (Value, Value, Value) -> bool, now: int): (step: HandshakeStep)
  {
    HandshakeStep(Failure(MethodMissing("Oxygen_Event_MasterRequestEvent", "getData")), None, ledger)
  }

  /**
   * As written no handshake gets past its first line: it fails with an
   * Error that `catch (Exception $e)` lets through, pins nothing and spends
   * no nonce. The corrected listener pins the offered key whenever a first
   * handshake succeeds.
   */
  lemma HandshakeNeverRunsAsWritten(data: map<string, Value>, existing: Value, ledger: map<string, int>,
                                    verify: (Value, Value, Value) -> bool, now: int)
    ensures var w := HandshakeOutcomeAsWritten(data, existing, ledger, verify, now);
      w.result == Failure(MethodMissing("Oxygen_Event_MasterRequestEvent", "getData"))
      && EngineError(w.result.error) && w.pin.None? && w.ledger == ledger
    ensures var c := HandshakeOutcome(data, existing, ledger, verify, now);
      c.result.Success? && Empty(existing) ==>
        c.pin == Some(data["publicKey"]) && c.pin != HandshakeOutcomeAsWritten(data, existing, ledger, verify, now).pin
  {
    PinningRule(data, existing, ledger, verify, now);
  }

  class HandshakeListener {
    const state: DrupalState.State
    const nonces: NonceManager.NonceManager

    constructor (state: DrupalState.State, nonces: NonceManager.NonceManager)
      ensures this.state == state && this.nonces == nonces
    {
      this.state := state;
      this.nonces := nonces;
    }

    /**
     * `onMasterRequest`: the state's pinned key and the nonce ledger change
     * as HandshakeOutcome says and in no other way.
     */
    method OnMasterRequest(data: map<string, Value>, verify: (Value, Value, Value) -> bool, now: int)
      returns (r: Result<(), Fault>)
      modifies state, nonces
      ensures var step := HandshakeOutcome(data, old(state.Lookup(DrupalState.PublicKeyVariable)), old(nonces.ledger), verify, now);
        r == step.result && nonces.ledger == step.ledger
        && state.variables == (if step.pin.Some? then old(state.variables)[DrupalState.PublicKeyVariable := step.pin.value]
                               else old(state.variables))
    {
      var existing := state.Get(DrupalState.PublicKeyVariable, Null);
      ghost var step := HandshakeOutcome(data, existing, nonces.ledger, verify, now);
      if EmptyField(data, "publicKey") {
        return Failure(MissingConstant("HANDSHAKE_PUBLIC_KEY_NOT_PROVIDED"));
      }
      var provided := data["publicKey"];
      if EmptyField(data, "signature") {
        return Failure(MissingConstant("HANDSHAKE_SIGNATURE_NOT_PROVIDED"));
      }
      var signature := data["signature"];
      if EmptyField(data, "nonce") {
        return Failure(MissingConstant("HANDSHAKE_NONCE_NOT_PROVIDED"));
      }
      var nonce := data["nonce"];
      var key := if Empty(existing) then provided else existing;
      var verified := verify(key, nonce, signature);
      if !verified {
        if Empty(existing) {
          return Failure(Coded(Handshake(VerifyTestFailed)));
        } else {
          return Failure(Coded(Handshake(VerifyFailed)));
        }
      }
      assert key == VerificationKey(data, existing);
      assert step == Verified(provided, nonce, existing, nonces.ledger, now);
      r := nonces.UseNonce(ToText(nonce), now);
      if r.Failure? {
        return;
      }
      if Empty(existing) {
        state.Set(DrupalState.PublicKeyVariable, provided);
      }
    }
  }
}

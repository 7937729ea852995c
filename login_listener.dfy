/**
 * Oxygen_EventListener_LoginListener: a signed auto-login link. The query
 * is validated, the signature over "requestId|expiresAt|userUid|username"
 * is checked against the pinned key, the request id is spent as a nonce,
 * and a closure logging the user in is deferred to Drupal's `init` hook.
 * The verifier, the user lookup, the `drupal_goto` alter hook and `url()`
 * are parameters; the clock is `now`.
 */
module LoginListener {

  import opened Wrappers
  import opened OxygenException
  import opened Php
  import Util
  import NonceManager
  import DrupalState
  import HookedClosure

  const LoginAction := "site.login"
  const LoginHook := "init"
  const DashboardPath := "admin/dashboard"
  const RedirectStatus := 302

  /** `U\d{10}` */
  predicate UidShape(s: string)
  {
    |s| == 11 && s[0] == 'U' && forall i :: 1 <= i < 11 ==> '0' <= s[i] <= '9'
  }

  /** `(string)(int)$x === (string)$x`: the value prints as the integer it casts to. */
  predicate ExpiryText(v: Value)
  {
    Decimal(ToInt(v)) == ToText(v)
  }

  /** The validated fields of a login link, the expiry cast to an integer. */
  datatype LoginRequest = LoginRequest(requestId: string, expiresAt: int, signature: string, username: string, userUid: string)

  /** `sprintf('%s|%d|%s|%s', ...)`: the text the dashboard signed. */
  function SignedMessage(req: LoginRequest): string
  {
    req.requestId + "|" + Decimal(req.expiresAt) + "|" + req.userUid + "|" + req.username
  }

  /**
   * The guards of `onPublicRequest`: Success(None) when the request is not
   * a login link, so that the listener does nothing. The USERNAME and
   * USER_UID constants are not declared by Oxygen_Exception.
   */
  function ParseLogin(query: map<string, Value>): (r: Result<Option<LoginRequest>, Fault>)
  {
    if !IsSet(query, "oxygenRequestId") then Success(None)
    else if !query["oxygenRequestId"].Str? then Failure(Coded(Protocol(RequestIdNotValid)))
    else if !IsSet(query, "actionName") then Failure(Coded(Protocol(ActionNameNotProvided)))
    else if !query["actionName"].Str? then Failure(Coded(Protocol(ActionNameNotValid)))
    else if query["actionName"].s != LoginAction then Success(None)
    else if !IsSet(query, "requestExpiresAt") then Failure(Coded(Protocol(ExpirationNotProvided)))
    else if !ExpiryText(query["requestExpiresAt"]) then Failure(Coded(Protocol(ExpirationNotValid)))
    else if !IsSet(query, "signature") then Failure(Coded(Protocol(SignatureNotProvided)))
    else if !query["signature"].Str? then Failure(Coded(Protocol(SignatureNotValid)))
    else if !IsSet(query, "username") then Failure(MissingConstant("PROTOCOL_USERNAME_NOT_PROVIDED"))
    else if !query["username"].Str? then Failure(MissingConstant("PROTOCOL_USERNAME_NOT_VALID"))
    else if !IsSet(query, "userUid") then Failure(MissingConstant("PROTOCOL_USER_UID_NOT_PROVIDED"))
    else if !query["userUid"].Str? || !AnchoredMatch(query["userUid"].s, UidShape) then
      Failure(MissingConstant("PROTOCOL_USER_UID_NOT_VALID"))
    else
      Success(Some(LoginRequest(query["oxygenRequestId"].s, ToInt(query["requestExpiresAt"]), query["signature"].s,
                                query["username"].s, query["userUid"].s)))
  }

  /** What one public request does: its outcome (the login deferred, if any) and the new nonce ledger. */
  datatype LoginStep = LoginStep(result: Result<Option<LoginRequest>, Fault>, ledger: map<string, int>)

  /**
   * `onPublicRequest` past the guards, up to the nonce: the stored key must
   * be set and the signature over the signed message must verify under it.
   */
  function Authorized(query: map<string, Value>, publicKey: Value, verify: (Value, Value, Value) -> bool)
    : (r: Result<Option<LoginRequest>, Fault>)
  {
    match ParseLogin(query)
    case Failure(e) => Failure(e)
    case Success(None) => Success(None)
    case Success(Some(req)) =>
      if Empty(publicKey) then Failure(MissingConstant("PUBLIC_KEY_MISSING"))
      else if !verify(publicKey, Str(SignedMessage(req)), Str(req.signature)) then Failure(Coded(Handshake(VerifyFailed)))
      else Success(Some(req))
  }

  /**
   * `onPublicRequest`: an authorized link spends its request id as a nonce
   * with the link's expiry. `useNonce` is called with the value and the
   * expiry apart, as Oxygen_Security_Nonce_NonceManagerInterface declares
   * it; PublicRequestOutcomeAsWritten is the call the one-argument
   * implementation receives.
   */
  function PublicRequestOutcome(query: map<string, Value>, publicKey: Value, ledger: map<string, int>,
                                verify: (Value, Value, Value) -> bool, now: int): (step: LoginStep)
  {
    match Authorized(query, publicKey, verify)
    case Failure(e) => LoginStep(Failure(e), ledger)
    case Success(None) => LoginStep(Success(None), ledger)
    case Success(Some(req)) =>
      match NonceManager.Use(ledger, req.requestId, req.expiresAt, now)
      case Failure(e) => LoginStep(Failure(e), ledger)
      case Success(next) => LoginStep(Success(Some(req)), next)
  }

  /**
   * The same, with the nonce spent as Oxygen_Security_Nonce_NonceManager
   * implements `useNonce($nonce)`: the expiry passed second is dropped and
   * the request id is split at '_' into a value and an expiry.
   */
  function PublicRequestOutcomeAsWritten(query: map<string, Value>, publicKey: Value, ledger: map<string, int>,
                                         verify: (Value, Value, Value) -> bool, now: int): (step: LoginStep)
  {
    match Authorized(query, publicKey, verify)
    case Failure(e) => LoginStep(Failure(e), ledger)
    case Success(None) => LoginStep(Success(None), ledger)
    case Success(Some(req)) =>
      match NonceManager.UseNonceSpec(ledger, req.requestId, now)
      case Failure(e) => LoginStep(Failure(e), ledger)
      case Success(next) => LoginStep(Success(Some(req)), next)
  }

  /**
   * With the query in hand (past the private-property read that
   * QueryUnreadableAsWritten covers), the nonce manager as written refuses
   * an authorized link whose request id has no '_' as NONCE_EXPIRED on its
   * first use (its expiry reads as 0), while the corrected listener
   * accepts it exactly when the link has not expired and the id is unused.
   */
  lemma PlainRequestIdExpiredAsWritten(query: map<string, Value>, publicKey: Value, ledger: map<string, int>,
                                       verify: (Value, Value, Value) -> bool, now: int)
    requires Authorized(query, publicKey, verify).Success? && Authorized(query, publicKey, verify).value.Some?
    requires var id := Authorized(query, publicKey, verify).value.value.requestId;
      forall i :: 0 <= i < |id| ==> id[i] != '_'
    requires now > 0
    ensures PublicRequestOutcomeAsWritten(query, publicKey, ledger, verify, now)
              == LoginStep(Failure(Coded(Nonce(Expired))), ledger)
    ensures var req := Authorized(query, publicKey, verify).value.value;
      (PublicRequestOutcome(query, publicKey, ledger, verify, now).result.Success?
       <==> req.expiresAt >= now && req.requestId !in ledger)
  {
    var req := Authorized(query, publicKey, verify).value.value;
    NonceManager.ExplodeUnjoined(req.requestId);
    NonceManager.UseOutcomes(ledger, req.requestId, req.expiresAt, now);
  }

  /** Which user `loginUser` looks for. */
  datatype UserQuery = ByName(name: string) | ById(id: int)

  /** An empty username selects user 1, any other the user of that name. */
  function UserQueryFor(username: string): (q: UserQuery)
    ensures |username| == 0 <==> q == ById(1)
    ensures |username| > 0 <==> q == ByName(username)
  {
    if |username| > 0 then ByName(username) else ById(1)
  }

  /** A completed login: the Drupal user, the dashboard user its session is registered to, and the redirect. */
  datatype LoginDone = LoginDone(user: int, dashboardUser: string, location: string, status: int)

  /**
   * `loginUser`: find the user, log in, and redirect to the dashboard path
   * as the `drupal_goto` alter hook leaves it (302 unless altered). The
   * session calls are represented by the result's fields.
   */
  function LoginUser(userUid: string, username: string, find: UserQuery -> Option<int>,
                     alter: (string, int) -> (string, int), url: string -> string): (r: Result<LoginDone, Fault>)
  {
    match find(UserQueryFor(username))
    case None => Failure(MissingConstant("AUTO_LOGIN_CAN_NOT_FIND_USER"))
    case Some(user) =>
      var (path, status) := alter(DashboardPath, RedirectStatus);
      Success(LoginDone(user, userUid, url(path), status))
  }

  /** The listener does nothing without a request id, or for any action other than site.login. */
  lemma NoEffectUnlessLogin(query: map<string, Value>, publicKey: Value, ledger: map<string, int>,
                            verify: (Value, Value, Value) -> bool, now: int)
    requires !IsSet(query, "oxygenRequestId")
             || (query["oxygenRequestId"].Str? && IsSet(query, "actionName") && query["actionName"].Str?
                 && query["actionName"].s != LoginAction)
    ensures PublicRequestOutcome(query, publicKey, ledger, verify, now) == LoginStep(Success(None), ledger)
  {
  }

  /** The Error the listener's first line raises: `query` is a private property of Oxygen_Http_Request. */
  const QueryUnreadable := PrivateProperty("Oxygen_Http_Request", "query")

  /**
   * `onPublicRequest` as written: it reads `$event->getRequest()->query`,
   * which Oxygen_Http_Request declares private and offers no getter for,
   * so PHP raises an Error before any field of the query is looked at.
   */
  function OnPublicRequestAsWritten(query: map<string, Value>, publicKey: Value, ledger: map<string, int>,
                                    verify: (Value, Value, Value) -> bool, now: int): (step: LoginStep)
  {
    LoginStep(Failure(QueryUnreadable), ledger)
  }

  /**
   * As written every public request fails on the listener's first line with
   * an Error that `catch (Exception $e)` lets through, and no nonce is spent;
   * even the request without a request id, which the listener means to let
   * pass untouched, fails.
   */
  lemma QueryUnreadableAsWritten(query: map<string, Value>, publicKey: Value, ledger: map<string, int>,
                                 verify: (Value, Value, Value) -> bool, now: int)
    ensures var w := OnPublicRequestAsWritten(query, publicKey, ledger, verify, now);
      w.result == Failure(PrivateProperty("Oxygen_Http_Request", "query"))
      && EngineError(w.result.error) && w.ledger == ledger
    ensures !IsSet(query, "oxygenRequestId") ==>
      PublicRequestOutcome(query, publicKey, ledger, verify, now) == LoginStep(Success(None), ledger)
      && PublicRequestOutcome(query, publicKey, ledger, verify, now) != OnPublicRequestAsWritten(query, publicKey, ledger, verify, now)
  {
    if !IsSet(query, "oxygenRequestId") {
      NoEffectUnlessLogin(query, publicKey, ledger, verify, now);
    }
  }

  /** An expiry passes exactly when it is written as `%d` writes an integer. */
  lemma ExpiryRule(s: string)
    ensures ExpiryText(Str(s)) <==> exists n :: s == Decimal(n)
  {
    if exists n :: s == Decimal(n) {
      var n :| s == Decimal(n);
      Util.IntValDecimal(n);
    }
  }

  /** So a zero-padded expiry is refused: "0" before the digits of a positive number. */
  lemma PaddedExpiryRefused(n: int)
    requires n > 0
    ensures !ExpiryText(Str("0" + Decimal(n)))
  {
    var s := "0" + Decimal(n);
    if ExpiryText(Str(s)) {
      ExpiryRule(s);
      var m :| s == Decimal(m);
      if m > 0 {
        Util.NoLeadingZero(m);
      }
    }
  }

  /**
   * Only the pinned key is ever used: a public key in the query changes
   * nothing, and a deferred login means the stored key was set and the
   * signature over the signed message verified under it.
   */
  lemma StoredKeyOnly(query: map<string, Value>, publicKey: Value, ledger: map<string, int>,
                      verify: (Value, Value, Value) -> bool, now: int, offered: Value)
    ensures PublicRequestOutcome(query["publicKey" := offered], publicKey, ledger, verify, now)
            == PublicRequestOutcome(query, publicKey, ledger, verify, now)
    ensures var step := PublicRequestOutcome(query, publicKey, ledger, verify, now);
      step.result.Success? && step.result.value.Some? ==>
        var req := step.result.value.value;
        !Empty(publicKey) && verify(publicKey, Str(SignedMessage(req)), Str(req.signature))
  {
    assert ParseLogin(query["publicKey" := offered]) == ParseLogin(query);
  }

  /**
   * The nonce is spent only after the signature verified, with the link's
   * expiry, and a deferred login always comes with it.
   */
  lemma NonceAfterVerification(query: map<string, Value>, publicKey: Value, ledger: map<string, int>,
                               verify: (Value, Value, Value) -> bool, now: int)
    ensures var step := PublicRequestOutcome(query, publicKey, ledger, verify, now);
      (step.result.Failure? || step.result.value.None? ==> step.ledger == ledger)
      && (step.result.Success? && step.result.value.Some? ==>
            var req := step.result.value.value;
            verify(publicKey, Str(SignedMessage(req)), Str(req.signature))
            && step.ledger == NonceManager.Use(ledger, req.requestId, req.expiresAt, now).value
            && req.requestId in step.ledger && req.requestId !in ledger)
  {
  }

  /** A login link works once: replaying it fails. */
  lemma ReplayRefused(query: map<string, Value>, publicKey: Value, ledger: map<string, int>,
                      verify: (Value, Value, Value) -> bool, now: int, later: int)
    requires var step := PublicRequestOutcome(query, publicKey, ledger, verify, now);
      step.result.Success? && step.result.value.Some?
    ensures var step := PublicRequestOutcome(query, publicKey, ledger, verify, now);
      PublicRequestOutcome(query, publicKey, step.ledger, verify, later).result.Failure?
  {
    var req := ParseLogin(query).value.value;
    NonceManager.SecondUseFails(ledger, req.requestId, req.expiresAt, req.expiresAt, now, later);
  }

  /** Text with no '|' in it. */
  predicate Bare(s: string)
  {
    forall i :: 0 <= i < |s| ==> s[i] != '|'
  }

  /** The position of the first '|' in s, |s| when there is none. */
  function BarAt(s: string): (k: nat)
    ensures k <= |s|
  {
    if |s| == 0 || s[0] == '|' then 0 else 1 + BarAt(s[1..])
  }

  lemma {:induction false} BarAfterBare(a: string, r: string)
    requires Bare(a)
    ensures BarAt(a + "|" + r) == |a|
  {
    if |a| > 0 {
      assert (a + "|" + r)[1..] == a[1..] + "|" + r;
      BarAfterBare(a[1..], r);
    } else {
      assert a + "|" + r == "|" + r;
    }
  }

  /** Splitting at the first '|' recovers a bare head and the rest. */
  lemma SplitAtBar(a: string, r: string, a': string, r': string)
    requires Bare(a) && Bare(a')
    requires a + "|" + r == a' + "|" + r'
    ensures a == a' && r == r'
  {
    var s := a + "|" + r;
    BarAfterBare(a, r);
    BarAfterBare(a', r');
    assert a == s[..|a|] == a';
    assert r == s[|a| + 1..] == r';
  }

  /**
   * The signed message determines the link: two requests with bare request
   * ids and valid user ids that sign the same text agree on id, expiry,
   * user id and username (the username, last, may hold '|').
   */
  lemma SignedMessageInjective(x: LoginRequest, y: LoginRequest)
    requires Bare(x.requestId) && Bare(y.requestId)
    requires UidShape(x.userUid) && UidShape(y.userUid)
    requires SignedMessage(x) == SignedMessage(y)
    ensures x.requestId == y.requestId && x.expiresAt == y.expiresAt
    ensures x.userUid == y.userUid && x.username == y.username
  {
    DecimalBare(x.expiresAt);
    DecimalBare(y.expiresAt);
    UidBare(x.userUid);
    UidBare(y.userUid);
    var restX, restY := Rest(x), Rest(y);
    MessageShape(x);
    MessageShape(y);
    SplitAtBar(x.requestId, restX, y.requestId, restY);
    SplitAtBar(Decimal(x.expiresAt), x.userUid + "|" + x.username, Decimal(y.expiresAt), y.userUid + "|" + y.username);
    Util.IntValDecimal(x.expiresAt);
    Util.IntValDecimal(y.expiresAt);
    SplitAtBar(x.userUid, x.username, y.userUid, y.username);
  }

  /** What follows the request id and its '|' in the signed message. */
  function Rest(x: LoginRequest): string
  {
    Decimal(x.expiresAt) + "|" + (x.userUid + "|" + x.username)
  }

  lemma MessageShape(x: LoginRequest)
    ensures SignedMessage(x) == x.requestId + "|" + Rest(x)
  {
    assert SignedMessage(x) == x.requestId + "|" + (Decimal(x.expiresAt) + "|" + x.userUid + "|" + x.username);
    assert Decimal(x.expiresAt) + "|" + x.userUid + "|" + x.username == Rest(x);
  }

  lemma UidBare(s: string)
    requires UidShape(s)
    ensures Bare(s)
  {
  }

  lemma DecimalBare(n: int)
    ensures Bare(Decimal(n))
  {
    if n < 0 {
      assert Decimal(n) == "-" + Decimal(-n);
    }
  }

  /** An empty username logs in user 1; a user that cannot be found is an error. */
  lemma UserSelection(userUid: string, username: string, find: UserQuery -> Option<int>,
                      alter: (string, int) -> (string, int), url: string -> string)
    ensures var r := LoginUser(userUid, username, find, alter, url);
      (|username| == 0 && find(ById(1)).Some? ==> r.Success? && r.value.user == find(ById(1)).value)
      && (|username| > 0 && find(ByName(username)).Some? ==> r.Success? && r.value.user == find(ByName(username)).value)
      && (find(UserQueryFor(username)).None? ==> r == Failure(MissingConstant("AUTO_LOGIN_CAN_NOT_FIND_USER")))
      && (r.Success? ==> r.value.dashboardUser == userUid
                         && r.value.location == url(alter(DashboardPath, RedirectStatus).0)
                         && r.value.status == alter(DashboardPath, RedirectStatus).1)
  {
  }

  /** How `loginUser` ends as written: the user whose session was started before the failure, if any, and the fault. */
  datatype LoginAbort = LoginAbort(loggedIn: Option<int>, error: Fault)

  /**
   * `loginUser` as written. A username is looked up with
   * `findUserByUsername`, which Oxygen_Drupal_UserManager does not declare
   * (it has `findUserByName`). An empty username looks up user 1 with
   * `findUserById`; once found, `userLogin` starts its session and the next
   * call, `getSessionId`, is not declared by Oxygen_Drupal_SessionManager.
   * `registerSession`, `alter` and `url`, undeclared as well, are never
   * reached.
   */
  function LoginUserAsWritten(username: string, find: UserQuery -> Option<int>): (r: LoginAbort)
  {
    if |username| > 0 then LoginAbort(None, MethodMissing("Oxygen_Drupal_UserManager", "findUserByUsername"))
    else
      match find(ById(1))
      case None => LoginAbort(None, MissingConstant("AUTO_LOGIN_CAN_NOT_FIND_USER"))
      case Some(user) => LoginAbort(Some(user), MethodMissing("Oxygen_Drupal_SessionManager", "getSessionId"))
  }

  /**
   * As written no login completes: every call ends in an Error that
   * `catch (Exception $e)` lets through. With an empty username user 1's
   * session is started first, and no redirect follows; the corrected
   * `loginUser` redirects whenever the user is found.
   */
  lemma LoginNeverCompletesAsWritten(userUid: string, username: string, find: UserQuery -> Option<int>,
                                     alter: (string, int) -> (string, int), url: string -> string)
    ensures EngineError(LoginUserAsWritten(username, find).error)
    ensures |username| > 0 ==>
              LoginUserAsWritten(username, find) == LoginAbort(None, MethodMissing("Oxygen_Drupal_UserManager", "findUserByUsername"))
    ensures |username| == 0 && find(ById(1)).Some? ==>
              LoginUserAsWritten(username, find)
                == LoginAbort(find(ById(1)), MethodMissing("Oxygen_Drupal_SessionManager", "getSessionId"))
    ensures find(UserQueryFor(username)).Some? <==> LoginUser(userUid, username, find, alter, url).Success?
  {
    UserSelection(userUid, username, find, alter, url);
  }

  class LoginListener {
    const state: DrupalState.State
    const nonces: NonceManager.NonceManager
    const find: UserQuery -> Option<int>
    const alter: (string, int) -> (string, int)
    const url: string -> string

    constructor (state: DrupalState.State, nonces: NonceManager.NonceManager, find: UserQuery -> Option<int>,
                 alter: (string, int) -> (string, int), url: string -> string)
      ensures this.state == state && this.nonces == nonces
      ensures this.find == find && this.alter == alter && this.url == url
    {
      this.state := state;
      this.nonces := nonces;
      this.find := find;
      this.alter := alter;
      this.url := url;
    }

    /**
     * `onPublicRequest`: the nonce ledger changes as PublicRequestOutcome
     * says; a login link yields a fresh, unexecuted closure on hook `init`
     * that runs `loginUser` with the link's user id and username.
     */
    method OnPublicRequest(query: map<string, Value>, verify: (Value, Value, Value) -> bool, now: int)
      returns (r: Result<Option<HookedClosure.HookedClosure<LoginDone>>, Fault>)
      modifies nonces
      ensures var step := PublicRequestOutcome(query, state.Lookup(DrupalState.PublicKeyVariable), old(nonces.ledger), verify, now);
        nonces.ledger == step.ledger
        && (step.result.Failure? ==> r == Failure(step.result.error))
        && (step.result.Success? && step.result.value.None? ==> r == Success(None))
        && (step.result.Success? && step.result.value.Some? ==>
              (var req := step.result.value.value;
               r.Success? && r.value.Some? && fresh(r.value.value)
               && r.value.value.hookName == LoginHook && !r.value.value.executed
               && r.value.value.closure() == LoginUser(req.userUid, req.username, find, alter, url)))
    {
      var parsed := ParseLogin(query);
      if parsed.Failure? {
        return Failure(parsed.error);
      }
      if parsed.value.None? {
        return Success(None);
      }
      var req := parsed.value.value;
      var publicKey := state.Get(DrupalState.PublicKeyVariable, Null);
      if Empty(publicKey) {
        return Failure(MissingConstant("PUBLIC_KEY_MISSING"));
      }
      if !verify(publicKey, Str(SignedMessage(req)), Str(req.signature)) {
        return Failure(Coded(Handshake(VerifyFailed)));
      }
      var used := nonces.UseValue(req.requestId, req.expiresAt, now);
      if used.Failure? {
        return Failure(used.error);
      }
      var f, a, u := find, alter, url;
      var closure := new HookedClosure.HookedClosure(LoginHook, () => LoginUser(req.userUid, req.username, f, a, u));
      r := Success(Some(closure));
    }
  }
}

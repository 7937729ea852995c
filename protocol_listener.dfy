/**
 * Oxygen_EventListener_ProtocolListener: the envelope of a master request
 * is checked field by field, in a fixed order, and the first defect alone
 * decides the error. `parse_url` is a parameter; `version_compare` is the
 * comparison of (major, minor) pairs, the only form the checks let through.
 */
module ProtocolListener {

  import opened Wrappers
  import opened OxygenException
  import opened Php
  import Util
  import RsaVerifier

  /** What `parse_url` reports of a URL: scheme, host, port and path, each when present. */
  datatype ParsedUrl = ParsedUrl(scheme: Option<string>, host: Option<string>, port: Option<int>, path: Option<string>)

  /** `Oxygen_Util::getUrlSlug($url)` over the parsed URL (a missing host prints as ""). */
  function Slug(u: ParsedUrl): string
  {
    Util.UrlSlug(Util.UrlParts(if u.host.Some? then u.host.value else "", u.port, u.path))
  }

  /** `[a-z0-9_]+` */
  predicate HandshakeKeyShape(s: string)
  {
    |s| > 0 && forall i :: 0 <= i < |s| ==> ('a' <= s[i] <= 'z') || ('0' <= s[i] <= '9') || s[i] == '_'
  }

  predicate Digit(c: char)
  {
    '0' <= c <= '9'
  }

  /** The position of the first '.' in s, |s| when there is none. */
  function DotAt(s: string): (k: nat)
    ensures k <= |s|
  {
    if |s| == 0 || s[0] == '.' then 0 else 1 + DotAt(s[1..])
  }

  /** `\d+\.\d+`: digits, one dot, digits. */
  predicate VersionShape(s: string)
  {
    var k := DotAt(s);
    0 < k < |s| - 1 && (forall i :: 0 <= i < k ==> Digit(s[i])) && (forall i :: k < i < |s| ==> Digit(s[i]))
  }

  /** The value of a run of decimal digits. */
  function DigitsValue(s: string): (n: nat)
  {
    if |s| == 0 then 0 else 10 * DigitsValue(s[..|s| - 1]) + (if Digit(s[|s| - 1]) then s[|s| - 1] as int - '0' as int else 0)
  }

  /** The (major, minor) pair of a version of the checked shape (a final line break dropped). */
  function VersionOf(s: string): (v: (nat, nat))
  {
    var t := if |s| > 0 && s[|s| - 1] == '\n' then s[..|s| - 1] else s;
    var k := DotAt(t);
    (DigitsValue(t[..k]), if k < |t| then DigitsValue(t[k + 1..]) else 0)
  }

  /** `version_compare($a, $b, '>')` on (major, minor) pairs. */
  predicate NewerThan(a: (nat, nat), b: (nat, nat))
  {
    a.0 > b.0 || (a.0 == b.0 && a.1 > b.1)
  }

  /** The context PROTOCOL_BASE_URL_SLUG_MISMATCHES carries. */
  function SlugContext(provided: string, providedSlug: string, current: string, currentSlug: string): map<string, string>
  {
    map["providedBaseUrl" := provided, "providedBaseUrlSlug" := providedSlug,
        "currentBaseUrl" := current, "currentBaseUrlSlug" := currentSlug]
  }

  function IsStringField(data: map<string, Value>, name: string): bool
  {
    name in data && data[name].Str?
  }

  /** A base URL passes when it is a string with an http or https scheme and a host. */
  predicate ValidBaseUrl(data: map<string, Value>, parse: string -> ParsedUrl)
  {
    IsStringField(data, "baseUrl")
    && var u := parse(data["baseUrl"].s);
    u.scheme.Some? && (u.scheme.value == "http" || u.scheme.value == "https") && u.host.Some?
  }

  /**
   * `onMasterRequest`: the fields checked in the order the code checks
   * them, raising at the first defect and changing nothing. The chain is
   * cut into four stages, each a run of consecutive checks.
   */
  function OnMasterRequest(data: map<string, Value>, version: (nat, nat), baseUrl: string, parse: string -> ParsedUrl)
    : (r: Result<(), Fault>)
  {
    var _ :- IdentityStage(data);
    var _ :- VersionStage(data, version);
    var _ :- ActionStage(data);
    BaseUrlStage(data, baseUrl, parse)
  }

  /**
   * Request id, public key, username (PROTOCOL_USERNAME_* are not declared
   * by Oxygen_Exception), signature, handshake key, handshake signature
   * and expiry.
   */
  function IdentityStage(data: map<string, Value>): (r: Result<(), Fault>)
  {
    if EmptyField(data, "oxygenRequestId") then Failure(Coded(Protocol(RequestIdNotProvided)))
    else if !data["oxygenRequestId"].Str? || |data["oxygenRequestId"].s| == 0 then Failure(Coded(Protocol(RequestIdNotValid)))
    else if EmptyField(data, "publicKey") then Failure(Coded(Protocol(PublicKeyNotProvided)))
    else if !data["publicKey"].Str? || |data["publicKey"].s| == 0 then Failure(Coded(Protocol(PublicKeyNotValid)))
    else if !IsSet(data, "username") then Failure(MissingConstant("PROTOCOL_USERNAME_NOT_PROVIDED"))
    else if !data["username"].Str? then Failure(MissingConstant("PROTOCOL_USERNAME_NOT_VALID"))
    else if EmptyField(data, "signature") then Failure(Coded(Protocol(SignatureNotProvided)))
    else if !data["signature"].Str? || !AnchoredMatch(data["signature"].s, RsaVerifier.Base64Text) then
      Failure(Coded(Protocol(SignatureNotValid)))
    else if EmptyField(data, "handshakeKey") then Failure(Coded(Protocol(HandshakeKeyNotProvided)))
    else if !data["handshakeKey"].Str? || !AnchoredMatch(data["handshakeKey"].s, HandshakeKeyShape) then
      Failure(Coded(Protocol(HandshakeKeyNotValid)))
    else if EmptyField(data, "handshakeSignature") then Failure(Coded(Protocol(HandshakeSignatureNotProvided)))
    else if !data["handshakeSignature"].Str? || !AnchoredMatch(data["handshakeSignature"].s, RsaVerifier.Base64Text) then
      Failure(Coded(Protocol(HandshakeSignatureNotValid)))
    else if EmptyField(data, "requestExpiresAt") then Failure(Coded(Protocol(ExpirationNotProvided)))
    else if !data["requestExpiresAt"].Int? then Failure(Coded(Protocol(ExpirationNotValid)))
    else Success(())
  }

  /** The required version: present, of the form major.minor, and not newer than the running one. */
  function VersionStage(data: map<string, Value>, version: (nat, nat)): (r: Result<(), Fault>)
  {
    if EmptyField(data, "requiredVersion") then Failure(Coded(Protocol(RequiredVersionNotProvided)))
    else if !data["requiredVersion"].Str? || !AnchoredMatch(data["requiredVersion"].s, VersionShape) then
      Failure(Coded(Protocol(RequiredVersionNotValid)))
    else if NewerThan(VersionOf(data["requiredVersion"].s), version) then Failure(Coded(Protocol(VersionTooLow)))
    else Success(())
  }

  /** The action name and its parameters. */
  function ActionStage(data: map<string, Value>): (r: Result<(), Fault>)
  {
    if EmptyField(data, "actionName") then Failure(Coded(Protocol(ActionNameNotProvided)))
    else if !data["actionName"].Str? then Failure(Coded(Protocol(ActionNameNotValid)))
    else if !IsSet(data, "actionParameters") then Failure(Coded(Protocol(ActionParametersNotProvided)))
    else if !data["actionParameters"].Arr? then Failure(Coded(Protocol(ActionParametersNotValid)))
    else Success(())
  }

  /** The base URL, and its slug against the site's. */
  function BaseUrlStage(data: map<string, Value>, baseUrl: string, parse: string -> ParsedUrl): (r: Result<(), Fault>)
  {
    if EmptyField(data, "baseUrl") then Failure(Coded(Protocol(BaseUrlNotProvided)))
    else if !ValidBaseUrl(data, parse) then Failure(Coded(Protocol(BaseUrlNotValid)))
    else
      var provided := data["baseUrl"].s;
      if Slug(parse(provided)) != Slug(parse(baseUrl)) then
        Failure(OxygenError(Protocol(BaseUrlSlugMismatches),
                            SlugContext(provided, Slug(parse(provided)), baseUrl, Slug(parse(baseUrl)))))
      else Success(())
  }

  /**
   * The base URL stage as written: the slug context is passed second,
   * where Oxygen_Exception takes its message, and `Exception::__construct`
   * refuses an array message with an Error. The other checks are those of
   * BaseUrlStage.
   */
  function BaseUrlStageAsWritten(data: map<string, Value>, baseUrl: string, parse: string -> ParsedUrl): (r: Result<(), Fault>)
  {
    if EmptyField(data, "baseUrl") then Failure(Coded(Protocol(BaseUrlNotProvided)))
    else if !ValidBaseUrl(data, parse) then Failure(Coded(Protocol(BaseUrlNotValid)))
    else if Slug(parse(data["baseUrl"].s)) != Slug(parse(baseUrl)) then Failure(MessageNotString("Oxygen_Exception"))
    else Success(())
  }

  /** `onMasterRequest` as written: the stages of OnMasterRequest, the last one as written. */
  function OnMasterRequestAsWritten(data: map<string, Value>, version: (nat, nat), baseUrl: string, parse: string -> ParsedUrl)
    : (r: Result<(), Fault>)
  {
    var _ :- IdentityStage(data);
    var _ :- VersionStage(data, version);
    var _ :- ActionStage(data);
    BaseUrlStageAsWritten(data, baseUrl, parse)
  }

  /**
   * The two base URL stages differ only on a slug mismatch: the corrected
   * stage reports PROTOCOL_BASE_URL_SLUG_MISMATCHES, the one as written an
   * Error that `catch (Exception $e)` lets through.
   */
  lemma BaseUrlStagesDifferOnMismatch(data: map<string, Value>, baseUrl: string, parse: string -> ParsedUrl)
    ensures var r := BaseUrlStage(data, baseUrl, parse);
      var w := BaseUrlStageAsWritten(data, baseUrl, parse);
      (r.Failure? && r.error.OxygenError? && r.error.code == Protocol(BaseUrlSlugMismatches) ==>
         w == Failure(MessageNotString("Oxygen_Exception")) && EngineError(w.error))
      && (!(r.Failure? && r.error.OxygenError? && r.error.code == Protocol(BaseUrlSlugMismatches)) ==> w == r)
  {
  }

  /** A string field holding neither "" nor "0" (what `empty` lets through). */
  predicate Text(data: map<string, Value>, name: string)
  {
    IsStringField(data, name) && data[name].s != "" && data[name].s != "0"
  }

  /**
   * The identity and signature fields of an acceptable envelope: a request
   * id and public key, a string username (possibly empty), base64
   * signatures, a handshake key of [a-z0-9_], and a non-zero integer expiry.
   */
  predicate Signed(data: map<string, Value>)
  {
    Text(data, "oxygenRequestId") && Text(data, "publicKey") && IsStringField(data, "username")
    && Text(data, "signature") && AnchoredMatch(data["signature"].s, RsaVerifier.Base64Text)
    && Text(data, "handshakeKey") && AnchoredMatch(data["handshakeKey"].s, HandshakeKeyShape)
    && Text(data, "handshakeSignature") && AnchoredMatch(data["handshakeSignature"].s, RsaVerifier.Base64Text)
    && "requestExpiresAt" in data && data["requestExpiresAt"].Int? && data["requestExpiresAt"].i != 0
  }

  /** A required version of the form major.minor, no newer than the running one. */
  predicate Supported(data: map<string, Value>, version: (nat, nat))
  {
    Text(data, "requiredVersion") && AnchoredMatch(data["requiredVersion"].s, VersionShape)
    && !NewerThan(VersionOf(data["requiredVersion"].s), version)
  }

  /** A named action with an array (possibly empty) of parameters. */
  predicate ActionGiven(data: map<string, Value>)
  {
    Text(data, "actionName") && "actionParameters" in data && data["actionParameters"].Arr?
  }

  /** A base URL of http or https with a host. */
  predicate BaseUrlGiven(data: map<string, Value>, parse: string -> ParsedUrl)
  {
    Text(data, "baseUrl") && ValidBaseUrl(data, parse)
  }

  /** What an acceptable envelope is, field by field, with no regard to order. */
  predicate Acceptable(data: map<string, Value>, version: (nat, nat), baseUrl: string, parse: string -> ParsedUrl)
  {
    Signed(data) && Supported(data, version) && ActionGiven(data) && BaseUrlGiven(data, parse)
    && Slug(parse(data["baseUrl"].s)) == Slug(parse(baseUrl))
  }

  lemma IdentityStageAccepts(data: map<string, Value>)
    ensures IdentityStage(data).Success? <==> Signed(data)
  {
  }

  lemma VersionStageAccepts(data: map<string, Value>, version: (nat, nat))
    ensures VersionStage(data, version).Success? <==> Supported(data, version)
  {
  }

  lemma ActionStageAccepts(data: map<string, Value>)
    ensures ActionStage(data).Success? <==> ActionGiven(data)
  {
  }

  lemma BaseUrlStageAccepts(data: map<string, Value>, baseUrl: string, parse: string -> ParsedUrl)
    ensures BaseUrlStage(data, baseUrl, parse).Success?
            <==> BaseUrlGiven(data, parse) && Slug(parse(data["baseUrl"].s)) == Slug(parse(baseUrl))
  {
  }

  /** The chain of checks lets a request through exactly when its envelope is acceptable. */
  lemma AcceptedIffAcceptable(data: map<string, Value>, version: (nat, nat), baseUrl: string, parse: string -> ParsedUrl)
    ensures OnMasterRequest(data, version, baseUrl, parse).Success? <==> Acceptable(data, version, baseUrl, parse)
  {
    IdentityStageAccepts(data);
    VersionStageAccepts(data, version);
    ActionStageAccepts(data);
    BaseUrlStageAccepts(data, baseUrl, parse);
  }

  /** A request id of "0" is reported as not provided, since `empty("0")` holds. */
  lemma ZeroRequestIdNotProvided(data: map<string, Value>, version: (nat, nat), baseUrl: string, parse: string -> ParsedUrl)
    requires "oxygenRequestId" in data && data["oxygenRequestId"] == Str("0")
    ensures OnMasterRequest(data, version, baseUrl, parse) == Failure(Coded(Protocol(RequestIdNotProvided)))
  {
  }

  /**
   * A signature of "0" matches the base64 pattern yet is reported as not
   * provided: `empty` is asked first.
   */
  lemma ZeroSignatureNotProvided(data: map<string, Value>, version: (nat, nat), baseUrl: string, parse: string -> ParsedUrl)
    requires Text(data, "oxygenRequestId") && Text(data, "publicKey") && IsStringField(data, "username")
    requires "signature" in data && data["signature"] == Str("0")
    ensures RsaVerifier.Base64Text("0")
    ensures OnMasterRequest(data, version, baseUrl, parse) == Failure(Coded(Protocol(SignatureNotProvided)))
  {
    assert RsaVerifier.PadCount("0") == 0;
  }

  /**
   * With the identity fields in place and a required version of the form
   * major.minor, the request fails with PROTOCOL_VERSION_TOO_LOW exactly
   * when the required version is newer than the running one.
   */
  lemma VersionGate(data: map<string, Value>, version: (nat, nat), baseUrl: string, parse: string -> ParsedUrl)
    requires Signed(data) && Text(data, "requiredVersion") && AnchoredMatch(data["requiredVersion"].s, VersionShape)
    ensures OnMasterRequest(data, version, baseUrl, parse) == Failure(Coded(Protocol(VersionTooLow)))
            <==> NewerThan(VersionOf(data["requiredVersion"].s), version)
  {
    IdentityStageAccepts(data);
  }

  /**
   * A request that passes every other check but names a base URL with
   * another slug than the site's fails with
   * PROTOCOL_BASE_URL_SLUG_MISMATCHES carrying both URLs and both slugs.
   */
  lemma SlugMismatchReported(data: map<string, Value>, version: (nat, nat), baseUrl: string, parse: string -> ParsedUrl)
    requires Signed(data) && Supported(data, version) && ActionGiven(data) && BaseUrlGiven(data, parse)
    requires Slug(parse(data["baseUrl"].s)) != Slug(parse(baseUrl))
    ensures var provided := data["baseUrl"].s;
      OnMasterRequest(data, version, baseUrl, parse)
        == Failure(OxygenError(Protocol(BaseUrlSlugMismatches),
                               SlugContext(provided, Slug(parse(provided)), baseUrl, Slug(parse(baseUrl)))))
  {
    IdentityStageAccepts(data);
    VersionStageAccepts(data, version);
    ActionStageAccepts(data);
  }

  /**
   * As written, a request that passes every other check but names a base
   * URL with another slug than the site's ends in an Error instead of
   * PROTOCOL_BASE_URL_SLUG_MISMATCHES.
   */
  lemma SlugMismatchErrorAsWritten(data: map<string, Value>, version: (nat, nat), baseUrl: string, parse: string -> ParsedUrl)
    requires Signed(data) && Supported(data, version) && ActionGiven(data) && BaseUrlGiven(data, parse)
    requires Slug(parse(data["baseUrl"].s)) != Slug(parse(baseUrl))
    ensures OnMasterRequestAsWritten(data, version, baseUrl, parse) == Failure(MessageNotString("Oxygen_Exception"))
    ensures OnMasterRequest(data, version, baseUrl, parse).Failure?
            && OnMasterRequest(data, version, baseUrl, parse).error.OxygenError?
  {
    IdentityStageAccepts(data);
    VersionStageAccepts(data, version);
    ActionStageAccepts(data);
  }

  /** A major.minor version reads as its two numbers. */
  lemma {:induction false} VersionOfParts(major: string, minor: string)
    requires |major| > 0 && |minor| > 0
    requires forall i :: 0 <= i < |major| ==> Digit(major[i])
    requires forall i :: 0 <= i < |minor| ==> Digit(minor[i])
    ensures VersionShape(major + "." + minor)
    ensures VersionOf(major + "." + minor) == (DigitsValue(major), DigitsValue(minor))
  {
    var s := major + "." + minor;
    DotAfterDigits(major, "." + minor);
    assert s == major + ("." + minor);
    assert DotAt(s) == |major|;
    assert s[|s| - 1] == minor[|minor| - 1];
    assert s[..|major|] == major;
    assert s[|major| + 1..] == minor;
  }

  lemma {:induction false} DotAfterDigits(a: string, rest: string)
    requires forall i :: 0 <= i < |a| ==> Digit(a[i])
    requires |rest| > 0 && rest[0] == '.'
    ensures DotAt(a + rest) == |a|
  {
    if |a| > 0 {
      assert (a + rest)[1..] == a[1..] + rest;
      DotAfterDigits(a[1..], rest);
    } else {
      assert a + rest == rest;
    }
  }

  /** The required version gate compares major, then minor: 1.10 is newer than 1.9. */
  lemma MinorComparedAsNumber()
    ensures VersionOf("1.10") == (1, 10) && VersionOf("1.9") == (1, 9)
    ensures NewerThan(VersionOf("1.10"), VersionOf("1.9"))
  {
    VersionOfParts("1", "10");
    VersionOfParts("1", "9");
    assert "1" + "." + "10" == "1.10";
    assert "1" + "." + "9" == "1.9";
  }
}

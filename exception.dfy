/**
 * Oxygen_Exception: the table of error codes, the code-to-name lookup
 * built lazily from that table, the default message, and the exception
 * values the rest of the model raises.
 */
module OxygenException {

  import opened Wrappers

  /** The constants of the general codes, in declaration order. */
  datatype GeneralCode =
    | GeneralError
    | FatalError

  /** The constants of the RSA key and signature codes, in declaration order. */
  datatype RsaCode =
    | OpensslVerifyError
    | ParsingFailed
    | MissingAsn1Sequence
    | MissingAsn1Object
    | MissingAsn1Bitstring
    | MissingAsn1Integer
    | InvalidLength
    | UnsupportedEncryption
    | SignatureRepresentativeOutOfRange
    | SignatureInvalid
    | InvalidFormat
    | SignatureSizeInvalid
    | ModulusSizeInvalid
    | EncodedSizeInvalid

  /** The constants of the action codes, in declaration order. */
  datatype ActionCode =
    | NotFound
    | ArgumentEmpty

  /** The constants of the nonce codes, in declaration order. */
  datatype NonceCode =
    | Expired
    | AlreadyUsed

  /** The constants of the handshake codes, in declaration order. */
  datatype HandshakeCode =
    | VerifyTestFailed
    | VerifyFailed
    | LocalKeyNotFound
    | LocalVerifyFailed

  /** The constants of the protocol-envelope codes, in declaration order. */
  datatype ProtocolCode =
    | PublicKeyNotProvided
    | PublicKeyNotValid
    | SignatureNotValid
    | SignatureNotProvided
    | ExpirationNotProvided
    | ExpirationNotValid
    | ActionNameNotProvided
    | ActionNameNotValid
    | ActionParametersNotProvided
    | ActionParametersNotValid
    | RequiredVersionNotProvided
    | RequiredVersionNotValid
    | VersionTooLow
    | HandshakeKeyNotProvided
    | HandshakeKeyNotValid
    | HandshakeSignatureNotProvided
    | HandshakeSignatureNotValid
    | BaseUrlNotProvided
    | BaseUrlNotValid
    | BaseUrlSlugMismatches
    | RequestIdNotProvided
    | RequestIdNotValid

  /** A class constant of Oxygen_Exception, by group. */
  datatype ErrorCode =
    | General(GeneralCode)
    | Rsa(RsaCode)
    | Action(ActionCode)
    | Nonce(NonceCode)
    | Handshake(HandshakeCode)
    | Protocol(ProtocolCode)

  function GeneralValue(c: GeneralCode): int
  {
    match c
    case GeneralError => 10000
    case FatalError => 10046
  }

  function GeneralName(c: GeneralCode): string
  {
    match c
    case GeneralError => "GENERAL_ERROR"
    case FatalError => "FATAL_ERROR"
  }

  function RsaValue(c: RsaCode): int
  {
    match c
    case OpensslVerifyError => 10001
    case ParsingFailed => 10002
    case MissingAsn1Sequence => 10003
    case MissingAsn1Object => 10004
    case MissingAsn1Bitstring => 10005
    case MissingAsn1Integer => 10006
    case InvalidLength => 10007
    case UnsupportedEncryption => 10008
    case SignatureRepresentativeOutOfRange => 10009
    case SignatureInvalid => 10010
    case InvalidFormat => 10011
    case SignatureSizeInvalid => 10012
    case ModulusSizeInvalid => 10013
    case EncodedSizeInvalid => 10014
  }

  function RsaName(c: RsaCode): string
  {
    match c
    case OpensslVerifyError => "RSA_KEY_OPENSSL_VERIFY_ERROR"
    case ParsingFailed => "RSA_KEY_PARSING_FAILED"
    case MissingAsn1Sequence => "RSA_KEY_MISSING_ASN1_SEQUENCE"
    case MissingAsn1Object => "RSA_KEY_MISSING_ASN1_OBJECT"
    case MissingAsn1Bitstring => "RSA_KEY_MISSING_ASN1_BITSTRING"
    case MissingAsn1Integer => "RSA_KEY_MISSING_ASN1_INTEGER"
    case InvalidLength => "RSA_KEY_INVALID_LENGTH"
    case UnsupportedEncryption => "RSA_KEY_UNSUPPORTED_ENCRYPTION"
    case SignatureRepresentativeOutOfRange => "RSA_KEY_SIGNATURE_REPRESENTATIVE_OUT_OF_RANGE"
    case SignatureInvalid => "RSA_KEY_SIGNATURE_INVALID"
    case InvalidFormat => "RSA_KEY_INVALID_FORMAT"
    case SignatureSizeInvalid => "RSA_KEY_SIGNATURE_SIZE_INVALID"
    case ModulusSizeInvalid => "RSA_KEY_MODULUS_SIZE_INVALID"
    case EncodedSizeInvalid => "RSA_KEY_ENCODED_SIZE_INVALID"
  }

  function ActionValue(c: ActionCode): int
  {
    match c
    case NotFound => 10015
    case ArgumentEmpty => 10024
  }

  function ActionName(c: ActionCode): string
  {
    match c
    case NotFound => "ACTION_NOT_FOUND"
    case ArgumentEmpty => "ACTION_ARGUMENT_EMPTY"
  }

  function NonceValue(c: NonceCode): int
  {
    match c
    case Expired => 10017
    case AlreadyUsed => 10018
  }

  function NonceName(c: NonceCode): string
  {
    match c
    case Expired => "NONCE_EXPIRED"
    case AlreadyUsed => "NONCE_ALREADY_USED"
  }

  function HandshakeValue(c: HandshakeCode): int
  {
    match c
    case VerifyTestFailed => 10022
    case VerifyFailed => 10023
    case LocalKeyNotFound => 10042
    case LocalVerifyFailed => 10043
  }

  function HandshakeName(c: HandshakeCode): string
  {
    match c
    case VerifyTestFailed => "HANDSHAKE_VERIFY_TEST_FAILED"
    case VerifyFailed => "HANDSHAKE_VERIFY_FAILED"
    case LocalKeyNotFound => "HANDSHAKE_LOCAL_KEY_NOT_FOUND"
    case LocalVerifyFailed => "HANDSHAKE_LOCAL_VERIFY_FAILED"
  }

  function ProtocolValue(c: ProtocolCode): int
  {
    match c
    case PublicKeyNotProvided => 10019
    case PublicKeyNotValid => 10025
    case SignatureNotValid => 10026
    case SignatureNotProvided => 10020
    case ExpirationNotProvided => 10021
    case ExpirationNotValid => 10027
    case ActionNameNotProvided => 10030
    case ActionNameNotValid => 10031
    case ActionParametersNotProvided => 10032
    case ActionParametersNotValid => 10033
    case RequiredVersionNotProvided => 10028
    case RequiredVersionNotValid => 10029
    case VersionTooLow => 10034
    case HandshakeKeyNotProvided => 10035
    case HandshakeKeyNotValid => 10036
    case HandshakeSignatureNotProvided => 10037
    case HandshakeSignatureNotValid => 10038
    case BaseUrlNotProvided => 10039
    case BaseUrlNotValid => 10040
    case BaseUrlSlugMismatches => 10041
    case RequestIdNotProvided => 10044
    case RequestIdNotValid => 10045
  }

  function ProtocolName(c: ProtocolCode): string
  {
    match c
    case PublicKeyNotProvided => "PROTOCOL_PUBLIC_KEY_NOT_PROVIDED"
    case PublicKeyNotValid => "PROTOCOL_PUBLIC_KEY_NOT_VALID"
    case SignatureNotValid => "PROTOCOL_SIGNATURE_NOT_VALID"
    case SignatureNotProvided => "PROTOCOL_SIGNATURE_NOT_PROVIDED"
    case ExpirationNotProvided => "PROTOCOL_EXPIRATION_NOT_PROVIDED"
    case ExpirationNotValid => "PROTOCOL_EXPIRATION_NOT_VALID"
    case ActionNameNotProvided => "PROTOCOL_ACTION_NAME_NOT_PROVIDED"
    case ActionNameNotValid => "PROTOCOL_ACTION_NAME_NOT_VALID"
    case ActionParametersNotProvided => "PROTOCOL_ACTION_PARAMETERS_NOT_PROVIDED"
    case ActionParametersNotValid => "PROTOCOL_ACTION_PARAMETERS_NOT_VALID"
    case RequiredVersionNotProvided => "PROTOCOL_REQUIRED_VERSION_NOT_PROVIDED"
    case RequiredVersionNotValid => "PROTOCOL_REQUIRED_VERSION_NOT_VALID"
    case VersionTooLow => "PROTOCOL_VERSION_TOO_LOW"
    case HandshakeKeyNotProvided => "PROTOCOL_HANDSHAKE_KEY_NOT_PROVIDED"
    case HandshakeKeyNotValid => "PROTOCOL_HANDSHAKE_KEY_NOT_VALID"
    case HandshakeSignatureNotProvided => "PROTOCOL_HANDSHAKE_SIGNATURE_NOT_PROVIDED"
    case HandshakeSignatureNotValid => "PROTOCOL_HANDSHAKE_SIGNATURE_NOT_VALID"
    case BaseUrlNotProvided => "PROTOCOL_BASE_URL_NOT_PROVIDED"
    case BaseUrlNotValid => "PROTOCOL_BASE_URL_NOT_VALID"
    case BaseUrlSlugMismatches => "PROTOCOL_BASE_URL_SLUG_MISMATCHES"
    case RequestIdNotProvided => "PROTOCOL_REQUEST_ID_NOT_PROVIDED"
    case RequestIdNotValid => "PROTOCOL_REQUEST_ID_NOT_VALID"
  }

  /** The numeric value of each constant. */
  function Code(c: ErrorCode): int
  {
    match c
    case General(k) => GeneralValue(k)
    case Rsa(k) => RsaValue(k)
    case Action(k) => ActionValue(k)
    case Nonce(k) => NonceValue(k)
    case Handshake(k) => HandshakeValue(k)
    case Protocol(k) => ProtocolValue(k)
  }

  /** The name of each constant, as reflection reports it. */
  function Name(c: ErrorCode): string
  {
    match c
    case General(k) => GeneralName(k)
    case Rsa(k) => RsaName(k)
    case Action(k) => ActionName(k)
    case Nonce(k) => NonceName(k)
    case Handshake(k) => HandshakeName(k)
    case Protocol(k) => ProtocolName(k)
  }

  /**
   * The flipped constant table (`array_flip` of the class constants): the
   * constant whose value is n, if there is one.
   */
  function ConstantOf(n: int): (r: Option<ErrorCode>)
    ensures r.Some? ==> 10000 <= n <= 10046 && Code(r.value) == n
  {
    if n < 10016 then ConstantBelow10016(n)
    else if n < 10031 then ConstantBelow10031(n)
    else ConstantFrom10031(n)
  }

  function ConstantBelow10016(n: int): (r: Option<ErrorCode>)
    ensures r.Some? ==> 10000 <= n <= 10046 && Code(r.value) == n
  {
    if n < 10008 then
      if n < 10004 then
        if n < 10002 then
          if n == 10000 then Some(General(GeneralError))
          else if n == 10001 then Some(Rsa(OpensslVerifyError))
          else None
        else
          if n == 10002 then Some(Rsa(ParsingFailed))
          else if n == 10003 then Some(Rsa(MissingAsn1Sequence))
          else None
      else
        if n < 10006 then
          if n == 10004 then Some(Rsa(MissingAsn1Object))
          else if n == 10005 then Some(Rsa(MissingAsn1Bitstring))
          else None
        else
          if n == 10006 then Some(Rsa(MissingAsn1Integer))
          else if n == 10007 then Some(Rsa(InvalidLength))
          else None
    else
      if n < 10012 then
        if n < 10010 then
          if n == 10008 then Some(Rsa(UnsupportedEncryption))
          else if n == 10009 then Some(Rsa(SignatureRepresentativeOutOfRange))
          else None
        else
          if n == 10010 then Some(Rsa(SignatureInvalid))
          else if n == 10011 then Some(Rsa(InvalidFormat))
          else None
      else
        if n < 10014 then
          if n == 10012 then Some(Rsa(SignatureSizeInvalid))
          else if n == 10013 then Some(Rsa(ModulusSizeInvalid))
          else None
        else
          if n == 10014 then Some(Rsa(EncodedSizeInvalid))
          else if n == 10015 then Some(Action(NotFound))
          else None
  }

  function ConstantBelow10031(n: int): (r: Option<ErrorCode>)
    ensures r.Some? ==> 10000 <= n <= 10046 && Code(r.value) == n
  {
    if n < 10024 then
      if n < 10020 then
        if n < 10018 then
          if n == 10017 then Some(Nonce(Expired)) else None
        else
          if n == 10018 then Some(Nonce(AlreadyUsed))
          else if n == 10019 then Some(Protocol(PublicKeyNotProvided))
          else None
      else
        if n < 10022 then
          if n == 10020 then Some(Protocol(SignatureNotProvided))
          else if n == 10021 then Some(Protocol(ExpirationNotProvided))
          else None
        else
          if n == 10022 then Some(Handshake(VerifyTestFailed))
          else if n == 10023 then Some(Handshake(VerifyFailed))
          else None
    else
      if n < 10027 then
        if n < 10025 then
          if n == 10024 then Some(Action(ArgumentEmpty)) else None
        else
          if n == 10025 then Some(Protocol(PublicKeyNotValid))
          else if n == 10026 then Some(Protocol(SignatureNotValid))
          else None
      else
        if n < 10029 then
          if n == 10027 then Some(Protocol(ExpirationNotValid))
          else if n == 10028 then Some(Protocol(RequiredVersionNotProvided))
          else None
        else
          if n == 10029 then Some(Protocol(RequiredVersionNotValid))
          else if n == 10030 then Some(Protocol(ActionNameNotProvided))
          else None
  }

  function ConstantFrom10031(n: int): (r: Option<ErrorCode>)
    ensures r.Some? ==> 10000 <= n <= 10046 && Code(r.value) == n
  {
    if n < 10039 then
      if n < 10035 then
        if n < 10033 then
          if n == 10031 then Some(Protocol(ActionNameNotValid))
          else if n == 10032 then Some(Protocol(ActionParametersNotProvided))
          else None
        else
          if n == 10033 then Some(Protocol(ActionParametersNotValid))
          else if n == 10034 then Some(Protocol(VersionTooLow))
          else None
      else
        if n < 10037 then
          if n == 10035 then Some(Protocol(HandshakeKeyNotProvided))
          else if n == 10036 then Some(Protocol(HandshakeKeyNotValid))
          else None
        else
          if n == 10037 then Some(Protocol(HandshakeSignatureNotProvided))
          else if n == 10038 then Some(Protocol(HandshakeSignatureNotValid))
          else None
    else
      if n < 10043 then
        if n < 10041 then
          if n == 10039 then Some(Protocol(BaseUrlNotProvided))
          else if n == 10040 then Some(Protocol(BaseUrlNotValid))
          else None
        else
          if n == 10041 then Some(Protocol(BaseUrlSlugMismatches))
          else if n == 10042 then Some(Handshake(LocalKeyNotFound))
          else None
      else
        if n < 10045 then
          if n == 10043 then Some(Handshake(LocalVerifyFailed))
          else if n == 10044 then Some(Protocol(RequestIdNotProvided))
          else None
        else
          if n == 10045 then Some(Protocol(RequestIdNotValid))
          else if n == 10046 then Some(General(FatalError))
          else None
  }

  lemma GeneralConstantOf(c: GeneralCode)
    ensures ConstantOf(GeneralValue(c)) == Some(General(c))
  {
    match c
    case GeneralError =>
    case FatalError =>
  }

  lemma RsaConstantOf(c: RsaCode)
    ensures ConstantOf(RsaValue(c)) == Some(Rsa(c))
  {
    match c
    case OpensslVerifyError =>
    case ParsingFailed =>
    case MissingAsn1Sequence =>
    case MissingAsn1Object =>
    case MissingAsn1Bitstring =>
    case MissingAsn1Integer =>
    case InvalidLength =>
    case UnsupportedEncryption =>
    case SignatureRepresentativeOutOfRange =>
    case SignatureInvalid =>
    case InvalidFormat =>
    case SignatureSizeInvalid =>
    case ModulusSizeInvalid =>
    case EncodedSizeInvalid =>
  }

  lemma ActionConstantOf(c: ActionCode)
    ensures ConstantOf(ActionValue(c)) == Some(Action(c))
  {
    match c
    case NotFound =>
    case ArgumentEmpty =>
  }

  lemma NonceConstantOf(c: NonceCode)
    ensures ConstantOf(NonceValue(c)) == Some(Nonce(c))
  {
    match c
    case Expired =>
    case AlreadyUsed =>
  }

  lemma HandshakeConstantOf(c: HandshakeCode)
    ensures ConstantOf(HandshakeValue(c)) == Some(Handshake(c))
  {
    match c
    case VerifyTestFailed =>
    case VerifyFailed =>
    case LocalKeyNotFound =>
    case LocalVerifyFailed =>
  }

  lemma ProtocolConstantOf(c: ProtocolCode)
    ensures ConstantOf(ProtocolValue(c)) == Some(Protocol(c))
  {
    match c
    case PublicKeyNotProvided =>
    case PublicKeyNotValid =>
    case SignatureNotValid =>
    case SignatureNotProvided =>
    case ExpirationNotProvided =>
    case ExpirationNotValid =>
    case ActionNameNotProvided =>
    case ActionNameNotValid =>
    case ActionParametersNotProvided =>
    case ActionParametersNotValid =>
    case RequiredVersionNotProvided =>
    case RequiredVersionNotValid =>
    case VersionTooLow =>
    case HandshakeKeyNotProvided =>
    case HandshakeKeyNotValid =>
    case HandshakeSignatureNotProvided =>
    case HandshakeSignatureNotValid =>
    case BaseUrlNotProvided =>
    case BaseUrlNotValid =>
    case BaseUrlSlugMismatches =>
    case RequestIdNotProvided =>
    case RequestIdNotValid =>
  }

  /** The flipped table finds every constant by its value. */
  lemma ConstantOfCode(c: ErrorCode)
    ensures ConstantOf(Code(c)) == Some(c)
  {
    match c
    case General(k) => GeneralConstantOf(k);
    case Rsa(k) => RsaConstantOf(k);
    case Action(k) => ActionConstantOf(k);
    case Nonce(k) => NonceConstantOf(k);
    case Handshake(k) => HandshakeConstantOf(k);
    case Protocol(k) => ProtocolConstantOf(k);
  }

  /** No two constants share a value, so flipping the table loses nothing. */
  lemma CodesDistinct(a: ErrorCode, b: ErrorCode)
    ensures a != b ==> Code(a) != Code(b)
  {
    ConstantOfCode(a);
    ConstantOfCode(b);
  }

  /** The value 10016 lies inside the range but names no constant. */
  lemma UnusedCode()
    ensures ConstantOf(10016) == None
    ensures forall c :: Code(c) != 10016
  {
    forall c ensures Code(c) != 10016 {
      ConstantOfCode(c);
    }
  }

  /**
   * What `getType()` returns: the constant's name, or, for a code that no
   * constant has, the value of GENERAL_ERROR (the integer 10000, not a name).
   */
  datatype TypeName = Named(name: string) | Numeric(value: int)

  function TypeForCode(code: int): (t: TypeName)
    ensures t.Named? <==> exists c :: Code(c) == code
    ensures forall c :: Code(c) == code ==> t == Named(Name(c))
    ensures t.Numeric? ==> t.value == Code(General(GeneralError))
  {
    match ConstantOf(code)
    case Some(c) =>
      assert forall d :: Code(d) == code ==> d == c by {
        forall d | Code(d) == code ensures d == c { ConstantOfCode(d); }
      }
      Named(Name(c))
    case None =>
      assert forall d :: Code(d) != code by {
        forall d ensures Code(d) != code { ConstantOfCode(d); }
      }
      Numeric(10000)
  }

  /** The flipped table as the map `array_flip` builds. */
  function Table(): (m: map<int, string>)
    ensures forall n :: n in m <==> ConstantOf(n).Some?
  {
    map n | 10000 <= n <= 10046 && ConstantOf(n).Some? :: Name(ConstantOf(n).value)
  }

  /**
   * The static `$codes` cache of `getTypeForCode`: empty until the first
   * lookup, which fills it from the class constants; later lookups reuse it.
   */
  class CodeCache {
    var codes: map<int, string>

    predicate Valid()
      reads this
    {
      codes == map[] || codes == Table()
    }

    constructor ()
      ensures codes == map[]
    {
      codes := map[];
    }

    method TypeFor(code: int) returns (t: TypeName)
      requires Valid()
      modifies this
      ensures codes == Table()
      ensures old(codes) != map[] ==> unchanged(this)
      ensures t == TypeForCode(code)
    {
      if codes == map[] {
        codes := Table();
      }
      if code in codes {
        return Named(codes[code]);
      }
      return Numeric(10000);
    }
  }

  /** The decimal text of an integer, as `%d` prints it. */
  function Decimal(n: int): (s: string)
    ensures |s| > 0
    ensures n >= 0 ==> forall i :: 0 <= i < |s| ==> '0' <= s[i] <= '9'
    decreases if n < 0 then 1 - n else n
  {
    if n < 0 then "-" + Decimal(-n)
    else if n < 10 then [(('0' as int) + n) as char]
    else Decimal(n / 10) + Decimal(n % 10)
  }

  /** The text `%s` prints for a type name. */
  function TypeText(t: TypeName): string
  {
    match t
    case Named(name) => name
    case Numeric(v) => Decimal(v)
  }

  /** The message of an exception built without one: "Error [code]: type". */
  function DefaultMessage(code: int): (m: string)
    ensures |m| == 10 + |Decimal(code)| + |TypeText(TypeForCode(code))|
    ensures "Error [" <= m && m[|m| - |TypeText(TypeForCode(code))|..] == TypeText(TypeForCode(code))
  {
    "Error [" + Decimal(code) + "]: " + TypeText(TypeForCode(code))
  }

  /** The PHP class of a thrown value. */
  datatype ExceptionClass =
    | Oxygen(errorName: TypeName, context: map<string, string>)
    | RuntimeException
    | LogicException
    | InvalidArgumentException
    | OtherException(className: string)
      /** The Error PHP raises for a class constant the code names but the class does not define. */
    | UndefinedConstant(constant: string)
      /** The Error PHP raises for a call to a method the object's class does not declare. */
    | UndefinedMethod(className: string, methodName: string)
      /** The Error PHP 7 raises when `Exception::__construct` is given a message that is not a string. */
    | WrongParameters(className: string)
      /** The Error PHP raises when code outside a class reads one of its private properties. */
    | InaccessibleProperty(className: string, property: string)

  /**
   * A thrown exception: its class, message and code, the previous exception
   * an Oxygen_Exception carries, and where it was raised.
   */
  datatype Thrown = Thrown(
    kind: ExceptionClass, message: string, code: int,
    previous: Option<Thrown>, file: string, line: int, trace: string)

  /**
   * `new Oxygen_Exception($code, $message, $context, $previous)`: the type
   * name looked up from the code, the default message when none is given,
   * and context and previous kept exactly as passed.
   */
  function NewOxygen(code: int, message: Option<string>, context: map<string, string>,
                     previous: Option<Thrown>, file: string, line: int, trace: string): (e: Thrown)
    ensures e.kind == Oxygen(TypeForCode(code), context) && e.code == code
    ensures e.previous == previous
    ensures message.Some? ==> e.message == message.value
    ensures message.None? ==> e.message == DefaultMessage(code)
  {
    Thrown(Oxygen(TypeForCode(code), context),
           if message.Some? then message.value else DefaultMessage(code),
           code, previous, file, line, trace)
  }

  /** The exception for one of the class constants, with no message, context or previous. */
  function Raise(c: ErrorCode): (e: Thrown)
    ensures e.kind.Oxygen? && e.kind.errorName == Named(Name(c)) && e.code == Code(c)
  {
    NewOxygen(Code(c), None, map[], None, "", 0, "")
  }

  /** Raise, with a context map. */
  function RaiseWith(c: ErrorCode, context: map<string, string>): (e: Thrown)
    ensures e.kind == Oxygen(Named(Name(c)), context) && e.code == Code(c)
  {
    NewOxygen(Code(c), None, context, None, "", 0, "")
  }

  /**
   * `Oxygen_Exception::NAME` for a NAME the class does not declare: PHP
   * raises an Error instead of building the exception.
   */
  function Undefined(name: string): (e: Thrown)
    ensures e.kind == UndefinedConstant(name)
  {
    Thrown(UndefinedConstant(name), "Undefined class constant '" + name + "'", 0, None, "", 0, "")
  }

  /**
   * What the request pipeline raises, before it is turned into an
   * exception value: an Oxygen_Exception constant with its context, a
   * constant the class does not declare, one of PHP's own exceptions with
   * its message, a call to a method the callee's class does not declare,
   * an Oxygen_Exception given a message that is not a string, or a read of
   * a private property from outside its class.
   */
  datatype Fault =
    | OxygenError(code: ErrorCode, context: map<string, string>)
    | MissingConstant(constant: string)
    | RuntimeError(message: string)
    | LogicError(message: string)
    | InvalidArgument(message: string)
    | MethodMissing(className: string, methodName: string)
    | MessageNotString(className: string)
    | PrivateProperty(className: string, property: string)

  /**
   * The faults PHP raises as an Error rather than an Exception, which a
   * `catch (Exception $e)` block lets through.
   */
  predicate EngineError(f: Fault)
  {
    f.MissingConstant? || f.MethodMissing? || f.MessageNotString? || f.PrivateProperty?
  }

  /** The fault for a constant, with no context. */
  function Coded(c: ErrorCode): (f: Fault)
    ensures f.OxygenError? && f.code == c && f.context == map[]
  {
    OxygenError(c, map[])
  }

  /** The exception value a fault is thrown as. */
  function ThrownOf(f: Fault): (e: Thrown)
    ensures f.OxygenError? ==> e.kind == Oxygen(Named(Name(f.code)), f.context) && e.code == Code(f.code)
    ensures f.MissingConstant? ==> e.kind == UndefinedConstant(f.constant)
    ensures f.RuntimeError? ==> e.kind == RuntimeException && e.message == f.message
    ensures f.LogicError? ==> e.kind == LogicException && e.message == f.message
    ensures f.InvalidArgument? ==> e.kind == InvalidArgumentException && e.message == f.message
    ensures f.MethodMissing? ==> e.kind == UndefinedMethod(f.className, f.methodName)
    ensures f.MessageNotString? ==> e.kind == WrongParameters(f.className)
    ensures f.PrivateProperty? ==> e.kind == InaccessibleProperty(f.className, f.property)
  {
    match f
    case OxygenError(c, context) => RaiseWith(c, context)
    case MissingConstant(name) => Undefined(name)
    case RuntimeError(m) => Thrown(RuntimeException, m, 0, None, "", 0, "")
    case LogicError(m) => Thrown(LogicException, m, 0, None, "", 0, "")
    case InvalidArgument(m) => Thrown(InvalidArgumentException, m, 0, None, "", 0, "")
    case MethodMissing(c, m) => Thrown(UndefinedMethod(c, m), "Call to undefined method " + c + "::" + m + "()", 0, None, "", 0, "")
    case MessageNotString(c) =>
      Thrown(WrongParameters(c), "Wrong parameters for " + c + "([string $message [, long $code [, Throwable $previous = NULL]]])",
             0, None, "", 0, "")
    case PrivateProperty(c, p) =>
      Thrown(InaccessibleProperty(c, p), "Cannot access private property " + c + "::$" + p, 0, None, "", 0, "")
  }
}

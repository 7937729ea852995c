/**
 * Oxygen_EventListener_ErrorListener: turns exceptions, PHP warnings and
 * fatal errors into the structured error report the dashboard reads.
 * The report is represented by the data its JSON response encodes;
 * installing the error and shutdown handlers, sending the response and
 * `exit` are outside the model.
 */
module ErrorListener {

  import opened Wrappers
  import opened OxygenException
  import opened Php
  import Request

  // PHP's error-level constants.
  const E_ERROR := 1
  const E_WARNING := 2
  const E_PARSE := 4
  const E_NOTICE := 8
  const E_CORE_ERROR := 16
  const E_CORE_WARNING := 32
  const E_COMPILE_ERROR := 64
  const E_COMPILE_WARNING := 128
  const E_USER_ERROR := 256
  const E_USER_WARNING := 512
  const E_USER_NOTICE := 1024
  const E_STRICT := 2048
  const E_RECOVERABLE_ERROR := 4096
  const E_DEPRECATED := 8192
  const E_USER_DEPRECATED := 16384

  /** `$fatalErrors`: the levels that end the script. */
  const FatalLevels: set<int> := {E_ERROR, E_PARSE, E_CORE_ERROR, E_COMPILE_ERROR, E_USER_ERROR}

  /** `str_rot13` on one character: ASCII letters move 13 places, everything else stays. */
  function Rot13Char(c: char): (r: char)
    ensures 'a' <= c <= 'z' <==> 'a' <= r <= 'z'
    ensures 'A' <= c <= 'Z' <==> 'A' <= r <= 'Z'
  {
    if 'a' <= c <= 'z' then ((((c as int - 'a' as int) + 13) % 26) + 'a' as int) as char
    else if 'A' <= c <= 'Z' then ((((c as int - 'A' as int) + 13) % 26) + 'A' as int) as char
    else c
  }

  /** `str_rot13`. */
  function Rot13(s: string): (r: string)
    ensures |r| == |s|
    ensures forall i :: 0 <= i < |s| ==> r[i] == Rot13Char(s[i])
  {
    if |s| == 0 then "" else [Rot13Char(s[0])] + Rot13(s[1..])
  }

  lemma Rot13CharInvolution(c: char)
    ensures Rot13Char(Rot13Char(c)) == c
  {
    if 'a' <= c <= 'z' {
      RotateTwice(c as int - 'a' as int);
    } else if 'A' <= c <= 'Z' {
      RotateTwice(c as int - 'A' as int);
    }
  }

  /** Thirteen places twice round an alphabet of 26 comes back. */
  lemma RotateTwice(k: int)
    requires 0 <= k < 26
    ensures (((k + 13) % 26) + 13) % 26 == k
  {
    if k < 13 {
      assert (k + 13) % 26 == k + 13;
      assert (k + 26) % 26 == k;
    } else {
      assert (k + 13) % 26 == k - 13;
    }
  }

  /** The response id is the request id rotated: rotating again gives the request id back. */
  lemma Rot13Involution(s: string)
    ensures Rot13(Rot13(s)) == s
  {
    forall i | 0 <= i < |s|
      ensures Rot13(Rot13(s))[i] == s[i]
    {
      Rot13CharInvolution(s[i]);
    }
  }

  /** `get_class` of an exception. */
  function ClassName(k: ExceptionClass): string
  {
    match k
    case Oxygen(_, _) => "Oxygen_Exception"
    case RuntimeException => "RuntimeException"
    case LogicException => "LogicException"
    case InvalidArgumentException => "InvalidArgumentException"
    case OtherException(name) => name
    case UndefinedConstant(_) => "Error"
    case UndefinedMethod(_, _) => "Error"
    case WrongParameters(_) => "Error"
    case InaccessibleProperty(_, _) => "Error"
  }

  /** `getType()`: the constant's name, or the integer GENERAL_ERROR for an unknown code. */
  function TypeValue(t: TypeName): Value
  {
    match t
    case Named(name) => Str(name)
    case Numeric(v) => Int(v)
  }

  /**
   * The array `getExceptionData` builds, one field per key; an optional
   * key is None when the array does not have it.
   */
  datatype ExceptionReport = ExceptionReport(
    className: string, message: string, code: int,
    errorType: Option<Value>, previous: Option<ExceptionReport>, context: Option<map<string, string>>,
    file: Option<string>, line: Option<int>, traceString: Option<string>)

  /**
   * `getExceptionData`: class, message and code always; for an
   * Oxygen_Exception its type and, recursively, its previous exception;
   * context, file, line and trace only when verbose.
   */
  function ExceptionData(e: Thrown, verbose: bool): (d: ExceptionReport)
    ensures d.className == ClassName(e.kind) && d.message == e.message && d.code == e.code
    ensures d.errorType.Some? <==> e.kind.Oxygen?
    ensures e.kind.Oxygen? ==> d.errorType == Some(TypeValue(e.kind.errorName))
    ensures d.previous.Some? <==> e.kind.Oxygen? && e.previous.Some?
    ensures d.context.Some? <==> e.kind.Oxygen? && verbose
    ensures d.context.Some? ==> d.context.value == e.kind.context
    ensures d.file.Some? <==> verbose
    ensures d.line.Some? <==> verbose
    ensures d.traceString.Some? <==> verbose
    ensures verbose ==> d.file == Some(e.file) && d.line == Some(e.line) && d.traceString == Some(e.trace)
    decreases e
  {
    var oxygen := e.kind.Oxygen?;
    ExceptionReport(
      ClassName(e.kind), e.message, e.code,
      if oxygen then Some(TypeValue(e.kind.errorName)) else None,
      if oxygen && e.previous.Some? then Some(ExceptionData(e.previous.value, verbose)) else None,
      if oxygen && verbose then Some(e.kind.context) else None,
      if verbose then Some(e.file) else None,
      if verbose then Some(e.line) else None,
      if verbose then Some(e.trace) else None)
  }

  /** No context, file, line or trace in the report, nor in any report nested in it. */
  predicate Discreet(d: ExceptionReport)
  {
    && d.context.None? && d.file.None? && d.line.None? && d.traceString.None?
    && (d.previous.Some? ==> Discreet(d.previous.value))
  }

  /** An unauthenticated caller never sees context, location or trace, at any depth. */
  lemma {:induction false} UnauthenticatedDiscreet(e: Thrown)
    ensures Discreet(ExceptionData(e, false))
    decreases e
  {
    if e.kind.Oxygen? && e.previous.Some? {
      UnauthenticatedDiscreet(e.previous.value);
    }
  }

  /** The number of Oxygen exceptions linked through their previous exception. */
  function ChainLength(e: Thrown): nat
    decreases e
  {
    if e.kind.Oxygen? && e.previous.Some? then 1 + ChainLength(e.previous.value) else 1
  }

  /** How deep the reports nest. */
  function Depth(d: ExceptionReport): nat
  {
    if d.previous.Some? then 1 + Depth(d.previous.value) else 1
  }

  /** Every exception of the chain is reported, one nesting level each. */
  lemma {:induction false} ChainReported(e: Thrown, verbose: bool)
    ensures Depth(ExceptionData(e, verbose)) == ChainLength(e)
    decreases e
  {
    if e.kind.Oxygen? && e.previous.Some? {
      ChainReported(e.previous.value, verbose);
    }
  }

  /** One entry of `errorLog`, as `handleError` records it. */
  datatype LogEntry = LogEntry(code: int, message: string, file: string, line: int, context: map<string, Value>)

  /** The data of the JSON error response. */
  datatype ErrorReport = ErrorReport(oxygenResponseId: Value, exception: ExceptionReport, errorLog: seq<LogEntry>)

  /** What `error_get_last` returns. */
  datatype LastError = LastError(level: int, message: string, file: string, line: int)

  /** `$lastError` as an array. */
  function LastErrorContext(last: LastError): map<string, string>
  {
    map["type" := Decimal(last.level), "message" := last.message, "file" := last.file, "line" := Decimal(last.line)]
  }

  /**
   * `new Oxygen_Exception(FATAL_ERROR, $lastError)` as written: the array
   * lands in the `$message` parameter, and Exception's constructor takes
   * only a string message, so PHP raises an error instead of building
   * the exception (None).
   */
  function FatalExceptionAsWritten(last: LastError): (e: Option<Thrown>)
  {
    var message := Arr(map["type" := Int(last.level), "message" := Str(last.message),
                           "file" := Str(last.file), "line" := Int(last.line)]);
    if message.Null? then Some(NewOxygen(Code(General(FatalError)), None, map[], None, "", 0, ""))
    else if message.Str? then Some(NewOxygen(Code(General(FatalError)), Some(message.s), map[], None, "", 0, ""))
    else None
  }

  /**
   * The FATAL_ERROR exception with the last error as its context: the
   * default message "Error [10046]: FATAL_ERROR".
   */
  function FatalException(last: LastError): (e: Thrown)
    ensures e.kind == Oxygen(Named("FATAL_ERROR"), LastErrorContext(last)) && e.code == 10046
    ensures e.message == DefaultMessage(10046) && e.previous.None?
  {
    NewOxygen(Code(General(FatalError)), None, LastErrorContext(last), None, "", 0, "")
  }

  /** `handleFatalError`'s answer: a report only for a fatal last error. */
  function FatalReport(responseId: Value, last: Option<LastError>, verbose: bool, log: seq<LogEntry>): (r: Option<ErrorReport>)
    ensures r.Some? <==> last.Some? && last.value.level in FatalLevels
    ensures r.Some? ==> r.value.exception == ExceptionData(FatalException(last.value), verbose)
    ensures r.Some? ==> r.value.oxygenResponseId == responseId && r.value.errorLog == log
  {
    if last.None? || last.value.level !in FatalLevels then None
    else Some(ErrorReport(responseId, ExceptionData(FatalException(last.value), verbose), log))
  }

  /** The same, with the exception built as written. */
  function FatalReportAsWritten(responseId: Value, last: Option<LastError>, verbose: bool, log: seq<LogEntry>): Option<ErrorReport>
  {
    if last.None? || last.value.level !in FatalLevels then None
    else
      match FatalExceptionAsWritten(last.value)
      case None => None
      case Some(e) => Some(ErrorReport(responseId, ExceptionData(e, verbose), log))
  }

  /**
   * As written, no fatal error is ever reported: for an E_ERROR the
   * exception cannot be built, while the corrected handler reports it with
   * its FATAL_ERROR type and the last error as context.
   */
  lemma FatalNeverReportedAsWritten(responseId: Value, last: LastError, verbose: bool, log: seq<LogEntry>)
    requires last.level == E_ERROR
    ensures FatalReportAsWritten(responseId, Some(last), verbose, log) == None
    ensures FatalReport(responseId, Some(last), verbose, log).Some?
    ensures FatalReport(responseId, Some(last), verbose, log).value.exception.errorType == Some(Str("FATAL_ERROR"))
  {
    ConstantOfCode(General(FatalError));
  }

  /** `codeToString`. */
  function CodeToString(code: int): (name: string)
    ensures name != "Unknown PHP error" <==> code in LevelNames().Keys
  {
    if code == E_ERROR then "E_ERROR"
    else if code == E_WARNING then "E_WARNING"
    else if code == E_PARSE then "E_PARSE"
    else if code == E_NOTICE then "E_NOTICE"
    else if code == E_CORE_ERROR then "E_CORE_ERROR"
    else if code == E_CORE_WARNING then "E_CORE_WARNING"
    else if code == E_COMPILE_ERROR then "E_COMPILE_ERROR"
    else if code == E_COMPILE_WARNING then "E_COMPILE_WARNING"
    else if code == E_USER_ERROR then "E_USER_ERROR"
    else if code == E_USER_WARNING then "E_USER_WARNING"
    else if code == E_USER_NOTICE then "E_USER_NOTICE"
    else if code == E_STRICT then "E_STRICT"
    else if code == E_RECOVERABLE_ERROR then "E_RECOVERABLE_ERROR"
    else if code == E_DEPRECATED then "E_DEPRECATED"
    else if code == E_USER_DEPRECATED then "E_USER_DEPRECATED"
    else "Unknown PHP error"
  }

  /** The table of level names, as PHP declares the constants. */
  function LevelNames(): map<int, string>
  {
    map[E_ERROR := "E_ERROR", E_WARNING := "E_WARNING", E_PARSE := "E_PARSE", E_NOTICE := "E_NOTICE",
        E_CORE_ERROR := "E_CORE_ERROR", E_CORE_WARNING := "E_CORE_WARNING",
        E_COMPILE_ERROR := "E_COMPILE_ERROR", E_COMPILE_WARNING := "E_COMPILE_WARNING",
        E_USER_ERROR := "E_USER_ERROR", E_USER_WARNING := "E_USER_WARNING", E_USER_NOTICE := "E_USER_NOTICE",
        E_STRICT := "E_STRICT", E_RECOVERABLE_ERROR := "E_RECOVERABLE_ERROR",
        E_DEPRECATED := "E_DEPRECATED", E_USER_DEPRECATED := "E_USER_DEPRECATED"]
  }

  /** Every level gets its constant's name, and distinct levels get distinct names. */
  lemma CodeToStringNames(a: int, b: int)
    ensures a in LevelNames() ==> CodeToString(a) == LevelNames()[a]
    ensures a !in LevelNames() ==> CodeToString(a) == "Unknown PHP error"
    ensures a in LevelNames() && b in LevelNames() && a != b ==> CodeToString(a) != CodeToString(b)
  {
  }

  class ErrorListener {
    const reservedMemorySize: nat
    /** The reserved block of spaces, by its length; None once released. */
    var reservedMemory: Option<nat>
    var request: Request.Request?
    var responseId: Value
    var errorLog: seq<LogEntry>
    /** Whether `handleError` and `handleFatalError` are registered with PHP. */
    var handlersInstalled: bool

    constructor (reservedMemorySize: nat)
      ensures this.reservedMemorySize == reservedMemorySize
      ensures reservedMemory.None? && request == null && responseId == Null && errorLog == [] && !handlersInstalled
    {
      this.reservedMemorySize := reservedMemorySize;
      reservedMemory := None;
      request := null;
      responseId := Null;
      errorLog := [];
      handlersInstalled := false;
    }

    /**
     * `onMasterRequest`: remembers the request, derives the response id
     * from the request id, installs the handlers and reserves
     * 1024 * size bytes to free when a fatal error strikes.
     */
    method OnMasterRequest(request: Request.Request, data: map<string, Value>)
      modifies this
      ensures this.request == request && handlersInstalled && errorLog == old(errorLog)
      ensures responseId == Str(Rot13(ToText(Get(data, "oxygenRequestId"))))
      ensures reservedMemory == Some(1024 * reservedMemorySize)
    {
      this.request := request;
      responseId := Str(Rot13(ToText(Get(data, "oxygenRequestId"))));
      handlersInstalled := true;
      reservedMemory := Some(1024 * reservedMemorySize);
    }

    /** `onException`: the report for the exception; nothing is recorded. */
    method OnException(e: Thrown, verbose: bool) returns (report: ErrorReport)
      ensures report == ErrorReport(responseId, ExceptionData(e, verbose), errorLog)
    {
      report := ErrorReport(responseId, ExceptionData(e, verbose), errorLog);
    }

    /** `handleError`: exactly one entry is appended and earlier entries stay. */
    method HandleError(code: int, message: string, file: string, line: int, context: map<string, Value>)
      modifies this
      ensures errorLog == old(errorLog) + [LogEntry(code, message, file, line, context)]
      ensures responseId == old(responseId) && request == old(request) && reservedMemory == old(reservedMemory)
    {
      errorLog := errorLog + [LogEntry(code, message, file, line, context)];
    }

    /**
     * `handleFatalError`: the reserve is released; a report only for a
     * fatal last error, verbose when the request is authenticated.
     */
    method HandleFatalError(last: Option<LastError>) returns (report: Option<ErrorReport>)
      requires request != null
      modifies this
      ensures request == old(request)
      ensures reservedMemory.None? && errorLog == old(errorLog) && responseId == old(responseId)
      ensures report == FatalReport(responseId, last, request.authenticated, errorLog)
    {
      reservedMemory := None;
      if last.None? || last.value.level !in FatalLevels {
        return None;
      }
      var exception := FatalException(last.value);
      report := Some(ErrorReport(responseId, ExceptionData(exception, request.IsAuthenticated()), errorLog));
    }
  }
}

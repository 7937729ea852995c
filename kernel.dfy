/**
 * Oxygen_Kernel: routes a request to the public path or the master
 * (dashboard) path and turns every exception of the master path into the
 * response the EXCEPTION listeners build.
 *
 * The event listeners are given by what they do (Listeners), `json_decode`
 * is the parameter `decode` (None for text that is not JSON), and the
 * PUBLIC_REQUEST event is given as it stands once its listeners ran. The
 * response type is the type parameter R.
 */
module Kernel {

  import opened Wrappers
  import opened OxygenException
  import opened Php
  import opened Request
  import opened HookedClosure
  import opened Registry
  import opened ActionKernel

  const InvalidJson := "The request does not contain valid JSON."
  const NoExceptionResponse := "The response was not set after an exception."

  /**
   * The listeners of the kernel's events: MASTER_REQUEST on the decoded
   * request data, MASTER_RESPONSE (the event's response once they ran),
   * DELAYED_ACTION, and EXCEPTION (the response they set, if any).
   */
  datatype Listeners<!R> = Listeners(
    masterRequest: Value -> Result<(), Fault>,
    masterResponse: R -> Result<R, Fault>,
    delayedAction: () -> Result<(), Fault>,
    onException: Fault -> Option<R>)

  /** The PUBLIC_REQUEST event once its listeners ran. */
  datatype PublicEvent<R> = PublicEvent(deferred: Option<HookedClosure<R>>, response: Option<R>)

  /** What `handle` returns: null, a response, or a closure to run on a hook. */
  datatype Answer<R> = NoAnswer | Answer(response: R) | Later(hooked: HookedClosure<R>)

  /**
   * `catch (Exception $e)` does not catch PHP's Error: for an undefined
   * class constant, an undefined method, or an exception given an array
   * as its message.
   */
  predicate Catchable(f: Fault)
  {
    !EngineError(f)
  }

  /** `handleException`: the response an EXCEPTION listener set, or RuntimeException. */
  function HandleException<R>(l: Listeners<R>, f: Fault): (r: Result<R, Fault>)
    ensures r.Failure? <==> l.onException(f).None?
    ensures r.Success? ==> r.value == l.onException(f).value
    ensures r.Failure? ==> r.error == RuntimeError(NoExceptionResponse)
  {
    match l.onException(f)
    case None => Failure(RuntimeError(NoExceptionResponse))
    case Some(response) => Success(response)
  }

  /** A `catch (Exception $e) { return handleException(...); }` block around an outcome. */
  function Guarded<R>(l: Listeners<R>, attempt: Result<R, Fault>): (r: Result<R, Fault>)
    ensures attempt.Success? ==> r == attempt
    ensures r.Failure? ==> r.error == RuntimeError(NoExceptionResponse) || EngineError(r.error)
  {
    if attempt.Success? || !Catchable(attempt.error) then attempt else HandleException(l, attempt.error)
  }

  /** `notifyResponse`: the response MASTER_RESPONSE leaves in its event, guarded. */
  function Notify<R>(l: Listeners<R>, response: R): Result<R, Fault>
  {
    Guarded(l, l.masterResponse(response))
  }

  /**
   * `wrapResponse` around a deferred action whose outcome is `outcome`:
   * DELAYED_ACTION, then the action, then `notifyResponse`, all guarded.
   */
  function Wrap<R>(l: Listeners<R>, outcome: Result<R, Fault>): Result<R, Fault>
  {
    Guarded(l, (var _ :- l.delayedAction(); var response :- outcome; Notify(l, response)))
  }

  /**
   * Only two things leave the kernel as failures: the RuntimeException of
   * a `handleException` no listener answered, and PHP's Errors (an
   * undefined constant or method, an array message). When the EXCEPTION
   * listeners always answer, only the latter are left.
   */
  lemma OnlyUnansweredEscapes<R>(l: Listeners<R>, attempt: Result<R, Fault>, response: R)
    requires forall f :: l.onException(f).Some?
    ensures Guarded(l, attempt).Success? || EngineError(Guarded(l, attempt).error)
    ensures Notify(l, response).Success? || EngineError(Notify(l, response).error)
    ensures Wrap(l, attempt).Success? || EngineError(Wrap(l, attempt).error)
  {
  }

  /** MASTER_RESPONSE listeners may replace the response, and the replacement is what is returned. */
  lemma NotifyReturnsEventResponse<R>(l: Listeners<R>, response: R, replaced: R)
    requires l.masterResponse(response) == Success(replaced)
    ensures Notify(l, response) == Success(replaced)
  {
  }

  /**
   * When DELAYED_ACTION fails, the deferred action's outcome plays no
   * part: the failure goes to `handleException`.
   */
  lemma DelayedActionFirst<R>(l: Listeners<R>, a: Result<R, Fault>, b: Result<R, Fault>)
    requires l.delayedAction().Failure? && Catchable(l.delayedAction().error)
    ensures Wrap(l, a) == Wrap(l, b) == HandleException(l, l.delayedAction().error)
  {
  }

  /**
   * A failing MASTER_RESPONSE listener is handled by `notifyResponse`; when
   * no EXCEPTION listener answers, the RuntimeException it then raises is
   * handled once more by the enclosing guard.
   */
  lemma NotifyFailureHandledTwice<R>(l: Listeners<R>, response: R)
    requires l.masterResponse(response).Failure? && Catchable(l.masterResponse(response).error)
    requires l.onException(l.masterResponse(response).error).None?
    ensures Notify(l, response) == Failure(RuntimeError(NoExceptionResponse))
    ensures Guarded(l, Notify(l, response)) == HandleException(l, RuntimeError(NoExceptionResponse))
  {
  }

  /** The public path: the deferred response when one was set, else the event's response or null. */
  function PublicAnswer<R>(e: PublicEvent<R>): (a: Answer<R>)
    ensures e.deferred.Some? ==> a == Later(e.deferred.value)
    ensures e.deferred.None? && e.response.Some? ==> a == Answer(e.response.value)
    ensures e.deferred.None? && e.response.None? ==> a == NoAnswer
  {
    if e.deferred.Some? then Later(e.deferred.value)
    else if e.response.Some? then Answer(e.response.value)
    else NoAnswer
  }

  /**
   * The master path up to the action kernel: read the body, decode it to
   * an array (RuntimeException otherwise) and run MASTER_REQUEST.
   */
  function Prepared<R>(l: Listeners<R>, decode: string -> Option<Value>, body: Body, input: string)
    : (r: Result<map<string, Value>, Fault>)
  {
    var content :- ContentStep(body, false, input).0;
    var data := decode(content.text);
    if data.None? || !data.value.Arr? then Failure(RuntimeError(InvalidJson))
    else
      var _ :- l.masterRequest(data.value);
      Success(data.value.entries)
  }

  /** A body that does not decode to an array is a RuntimeException, handed to `handleException`. */
  lemma InvalidJsonHandled<R>(l: Listeners<R>, decode: string -> Option<Value>, body: Body, input: string)
    requires !body.Streamed?
    requires var text := if body.Loaded? then body.text else input;
             decode(text).None? || !decode(text).value.Arr?
    ensures Prepared(l, decode, body, input) == Failure(RuntimeError(InvalidJson))
  {
  }

  /** A handler's outcome as `handle`'s answer. */
  function Answered<R>(r: Result<R, Fault>): (a: Result<Answer<R>, Fault>)
    ensures r.Success? ==> a == Success(Answer(r.value))
    ensures r.Failure? ==> a == Failure(r.error)
  {
    if r.Success? then Success(Answer(r.value)) else Failure(r.error)
  }

  /**
   * Building the EXCEPTION event: the event's constructor takes the request
   * and an `Exception`; it either holds the exception, or PHP refuses the
   * call with a TypeError because the argument in the exception's place is
   * not an Exception.
   */
  datatype ExceptionEventBuilt = Holds(exception: Fault) | ArgumentTypeError(message: string)

  /**
   * What `handle` passes to `handleException` as `$requestData`: nothing
   * (null) before the body decoded to something `isset` accepts, the
   * decoded scalar when the body was JSON but not an object or array, or
   * the stdClass object the decoded array was cast to.
   */
  datatype PassedData = Unset | Decoded(value: Value) | DataObject(fields: map<string, Value>)

  /** How PHP 7 names the type of a value that was passed, in a TypeError. */
  function GivenType(data: PassedData): (name: string)
    ensures data.DataObject? ==> name == "instance of stdClass"
    ensures data.Unset? || data == Decoded(Null) ==> name == "null"
    ensures data.Decoded? && data.value.Int? ==> name == "integer"
    ensures data.Decoded? && data.value.Bool? ==> name == "boolean"
    ensures data.Decoded? && data.value.Str? ==> name == "string"
  {
    match data
    case Unset => "null"
    case DataObject(_) => "instance of stdClass"
    case Decoded(v) =>
      match v
      case Null => "null"
      case Bool(_) => "boolean"
      case Int(_) => "integer"
      case Str(_) => "string"
      case Arr(_) => "array"
  }

  /** How PHP's TypeError for the event's second constructor argument begins. */
  const TypeErrorHead := "Argument 2 passed to Oxygen_Event_ExceptionEvent::__construct() must be an instance of Exception, "

  /**
   * `new Oxygen_Event_ExceptionEvent($request, $requestData, $exception)`
   * as `handleException` writes it: the second argument, which the
   * constructor declares as `Exception $exception`, is the request data,
   * so the call fails with a TypeError naming its type; the third argument
   * is never looked at.
   */
  function ExceptionEventAsWritten(data: PassedData, f: Fault): (e: ExceptionEventBuilt)
  {
    ArgumentTypeError(TypeErrorHead + GivenType(data) + " given")
  }

  /** `new Oxygen_Event_ExceptionEvent($request, $exception)`, as the event's constructor declares. */
  function ExceptionEvent(f: Fault): (e: ExceptionEventBuilt)
  {
    Holds(f)
  }

  /**
   * As written, the EXCEPTION event is never built: whatever the request
   * data is, the call fails with a TypeError naming its type (the stdClass
   * once the body was decoded and cast, null before), and the listeners
   * never see the exception. With two arguments the event holds the
   * exception itself.
   */
  lemma ExceptionLostAsWritten(data: PassedData, f: Fault)
    ensures ExceptionEventAsWritten(data, f).ArgumentTypeError?
    ensures data.DataObject? ==>
              ExceptionEventAsWritten(data, f).message == TypeErrorHead + "instance of stdClass given"
    ensures data.Unset? ==> ExceptionEventAsWritten(data, f).message == TypeErrorHead + "null given"
    ensures ExceptionEvent(f) == Holds(f) && ExceptionEvent(f).exception == f
  {
  }

  class Kernel<R> {
    const actionKernel: ActionKernel<R>
    const listeners: Listeners<R>
    const decode: string -> Option<Value>

    constructor (actionKernel: ActionKernel<R>, listeners: Listeners<R>, decode: string -> Option<Value>)
      ensures this.actionKernel == actionKernel && this.listeners == listeners && this.decode == decode
    {
      this.actionKernel := actionKernel;
      this.listeners := listeners;
      this.decode := decode;
    }

    /** The master path up to the action kernel, reading the body from the request. */
    method Prepare(request: Request, input: string) returns (r: Result<map<string, Value>, Fault>)
      modifies request
      ensures r == Prepared(listeners, decode, old(request.content), input)
      ensures request.content == ContentStep(old(request.content), false, input).1
      ensures request.authenticated == old(request.authenticated)
    {
      var content := request.GetContent(false, input);
      if content.Failure? {
        return Failure(content.error);
      }
      var data := decode(content.value.text);
      if data.None? || !data.value.Arr? {
        return Failure(RuntimeError(InvalidJson));
      }
      var accepted := listeners.masterRequest(data.value);
      if accepted.Failure? {
        return Failure(accepted.error);
      }
      r := Success(data.value.entries);
    }

    /**
     * `handle`. Without application/oxygen in Accept only the public
     * answer is given and the body is not read. Otherwise every failure
     * of the master path goes through `handleException`; an action on a
     * hook is answered with a fresh closure on the same hook that runs
     * `wrapResponse` around the action.
     */
    method Handle(request: Request, input: string, publicEvent: PublicEvent<R>)
      returns (r: Result<Answer<R>, Fault>)
      modifies request
      ensures request.authenticated == old(request.authenticated)
      ensures !request.Accepts(OxygenType) ==>
                r == Success(PublicAnswer(publicEvent)) && request.content == old(request.content)
      ensures r.Failure? ==> r.error == RuntimeError(NoExceptionResponse) || EngineError(r.error)
      ensures request.Accepts(OxygenType) ==>
                var prepared := Prepared(listeners, decode, old(request.content), input);
                && (prepared.Failure? ==> r == Answered(Guarded(listeners, Failure(prepared.error))))
                && (prepared.Success? ==>
                      var name := ToText(Get(prepared.value, "actionName"));
                      var supplied := Entries(Get(prepared.value, "actionParameters"));
                      var found := Find(actionKernel.registry.definitions, name);
                      && (found.Failure? ==> r == Answered(Guarded(listeners, Failure(found.error))))
                      && (found.Success? ==>
                            var definition := found.value;
                            var outcome := RawOutcome(definition, actionKernel.parameters(definition), supplied,
                                                      actionKernel.invoke, actionKernel.convert);
                            && (HookName(definition).None? ==>
                                  r == Answered(Guarded(listeners, (var response :- outcome; Notify(listeners, response)))))
                            && (HookName(definition).Some? ==>
                                  && r.Success? && r.value.Later? && fresh(r.value.hooked)
                                  && r.value.hooked.hookName == HookName(definition).value
                                  && !r.value.hooked.executed
                                  && r.value.hooked.closure() == Wrap(listeners, outcome))))
    {
      if !request.Accepts(OxygenType) {
        return Success(PublicAnswer(publicEvent));
      }
      var prepared := Prepare(request, input);
      if prepared.Failure? {
        return Answered(Guarded(listeners, Failure(prepared.error)));
      }
      var name := ToText(Get(prepared.value, "actionName"));
      var supplied := Entries(Get(prepared.value, "actionParameters"));
      var handled := actionKernel.Handle(name, supplied);
      if handled.Failure? {
        return Answered(Guarded(listeners, Failure(handled.error)));
      }
      match handled.value {
        case Immediate(response) =>
          r := Answered(Guarded(listeners, Notify(listeners, response)));
        case Deferred(inner) =>
          var l, run := listeners, inner.closure;
          var wrapped := new HookedClosure(inner.hookName, () => Wrap(l, run()));
          r := Success(Later(wrapped));
      }
    }
  }
}

/**
 * Oxygen_ActionKernel: resolves an action by name, binds the request's
 * action parameters to the action method's declared parameters by name,
 * runs the action (now, or later on a Drupal hook) and turns its result
 * into a response.
 *
 * Reflection, instance creation, the action call and the ACTION_DATA
 * listeners are parameters: `parameters(definition)` is what
 * ReflectionMethod::getParameters reports, `invoke(definition, arguments)`
 * creates the instance and calls the method, and `convert(data)` is the
 * response an ACTION_DATA listener sets (None when none does). The
 * response type is the type parameter R.
 */
module ActionKernel {

  import opened Wrappers
  import opened OxygenException
  import opened Php
  import opened Registry
  import HookedClosure

  /** A declared parameter of an action method: its name, whether it is optional, and its default. */
  datatype Parameter = Parameter(name: string, optional: bool, default: Value)

  /** What an action method returned: a PHP value, a response, or some other object. */
  datatype ActionResult<R> = Returned(value: Value) | Responded(response: R) | OtherObject

  /** `handle`: a response now, or a closure to run on a hook. */
  datatype Handled<R> = Immediate(response: R) | Deferred(hooked: HookedClosure.HookedClosure<R>)

  const NotProvided := MissingConstant("ACTION_ARGUMENT_NOT_PROVIDED")
  const NoResponse := "Action data should get converted to a response object."

  /** The LogicException message for a result that is neither an array nor a response. */
  function WrongResult(typeName: string): string
  {
    "An action should return array or an instance of Oxygen_Http_Response; " + typeName + " gotten."
  }

  /**
   * The argument for one parameter: the supplied value when it is set
   * (present and not null), else the default of an optional parameter,
   * else none.
   */
  function Argument(p: Parameter, supplied: map<string, Value>): (a: Option<Value>)
    ensures a.None? <==> !IsSet(supplied, p.name) && !p.optional
  {
    if IsSet(supplied, p.name) then Some(supplied[p.name])
    else if !p.optional then None
    else Some(p.default)
  }

  /** Every declared parameter gets an argument. */
  predicate Bindable(params: seq<Parameter>, supplied: map<string, Value>)
  {
    forall i :: 0 <= i < |params| ==> Argument(params[i], supplied).Some?
  }

  /**
   * The binding loop: one argument per declared parameter, in declaration
   * order, or `missing` when a required parameter is not supplied.
   */
  function Bind(params: seq<Parameter>, supplied: map<string, Value>, missing: Fault): (r: Result<seq<Value>, Fault>)
    ensures r.Success? <==> Bindable(params, supplied)
    ensures r.Success? ==> |r.value| == |params|
    ensures r.Success? ==> forall i :: 0 <= i < |params| ==> Argument(params[i], supplied) == Some(r.value[i])
    ensures r.Failure? ==> r.error == missing
  {
    if |params| == 0 then Success([])
    else
      match Argument(params[0], supplied)
      case None => Failure(missing)
      case Some(v) =>
        var rest :- Bind(params[1..], supplied, missing);
        assert forall i :: 1 <= i < |params| ==> params[i] == params[1..][i - 1];
        Success([v] + rest)
  }

  /** The binding loop of `handleRaw`, item by item. */
  method BindArguments(params: seq<Parameter>, supplied: map<string, Value>, missing: Fault)
    returns (r: Result<seq<Value>, Fault>)
    ensures r == Bind(params, supplied, missing)
  {
    var arguments: seq<Value> := [];
    var i := 0;
    while i < |params|
      invariant 0 <= i <= |params|
      invariant |arguments| == i
      invariant forall j :: 0 <= j < i ==> Argument(params[j], supplied) == Some(arguments[j])
    {
      var p := params[i];
      if IsSet(supplied, p.name) {
        arguments := arguments + [supplied[p.name]];
      } else {
        if !p.optional {
          return Failure(missing);
        }
        arguments := arguments + [p.default];
      }
      i := i + 1;
    }
    ghost var expected := Bind(params, supplied, missing);
    assert expected.value == arguments;
    r := Success(arguments);
  }

  /** The same rule binds for both listeners: only the fault for a missing argument differs. */
  lemma BindMissingOnly(params: seq<Parameter>, supplied: map<string, Value>, m1: Fault, m2: Fault)
    ensures Bind(params, supplied, m1).Success? ==> Bind(params, supplied, m1) == Bind(params, supplied, m2)
    ensures Bind(params, supplied, m1).Failure? ==> Bind(params, supplied, m2) == Failure(m2)
  {
    var a, b := Bind(params, supplied, m1), Bind(params, supplied, m2);
    if a.Success? {
      assert a.value == b.value;
    }
  }

  /** A null value counts as not supplied: an optional parameter then takes its default. */
  lemma NullTakesDefault()
    ensures Bind([Parameter("limit", true, Int(10))], map["limit" := Null], NotProvided) == Success([Int(10)])
    ensures Bind([Parameter("limit", false, Int(10))], map["limit" := Null], NotProvided) == Failure(NotProvided)
  {
    var optional, required := [Parameter("limit", true, Int(10))], [Parameter("limit", false, Int(10))];
    assert optional[1..] == [];
    assert Bind(optional[1..], map["limit" := Null], NotProvided) == Success([]);
    assert Argument(optional[0], map["limit" := Null]) == Some(Int(10));
    assert Argument(required[0], map["limit" := Null]) == None;
    assert Bind(optional, map["limit" := Null], NotProvided).Success?;
    assert Bind(optional, map["limit" := Null], NotProvided).value == [Int(10)];
  }

  /** `convertResultToResponse`: the response an ACTION_DATA listener set, or LogicException. */
  function Converted<R>(data: map<string, Value>, convert: map<string, Value> -> Option<R>): (r: Result<R, Fault>)
    ensures r.Success? <==> convert(data).Some?
    ensures r.Success? ==> r.value == convert(data).value
    ensures r.Failure? ==> r.error == LogicError(NoResponse)
  {
    match convert(data)
    case None => Failure(LogicError(NoResponse))
    case Some(response) => Success(response)
  }

  /** What an action's result becomes: a response, converted array data, or LogicException. */
  function Respond<R>(result: ActionResult<R>, convert: map<string, Value> -> Option<R>): Result<R, Fault>
  {
    match result
    case Responded(response) => Success(response)
    case OtherObject => Failure(LogicError(WrongResult("object")))
    case Returned(v) =>
      if v.Arr? then Converted(v.entries, convert) else Failure(LogicError(WrongResult(TypeOf(v))))
  }

  /** `handleRaw`: bind, then create and call the action, then respond. */
  function RawOutcome<R>(definition: Definition, params: seq<Parameter>, supplied: map<string, Value>,
                         invoke: (Definition, seq<Value>) -> Result<ActionResult<R>, Fault>,
                         convert: map<string, Value> -> Option<R>): Result<R, Fault>
  {
    var arguments :- Bind(params, supplied, NotProvided);
    var result :- invoke(definition, arguments);
    Respond(result, convert)
  }

  /** A missing required argument is reported before the action is created or called, whatever it would do. */
  lemma MissingBeforeCall<R>(definition: Definition, params: seq<Parameter>, supplied: map<string, Value>,
                             invoke: (Definition, seq<Value>) -> Result<ActionResult<R>, Fault>,
                             convert: map<string, Value> -> Option<R>)
    requires !Bindable(params, supplied)
    ensures RawOutcome(definition, params, supplied, invoke, convert) == Failure(NotProvided)
  {
  }

  /**
   * `handleRaw` succeeds exactly when every parameter is bound, the call
   * returns, and its result is a response or array data some ACTION_DATA
   * listener converted; every other result is a LogicException.
   */
  lemma RawOutcomeCases<R>(definition: Definition, params: seq<Parameter>, supplied: map<string, Value>,
                           invoke: (Definition, seq<Value>) -> Result<ActionResult<R>, Fault>,
                           convert: map<string, Value> -> Option<R>)
    requires Bindable(params, supplied)
    ensures var called := invoke(definition, Bind(params, supplied, NotProvided).value);
            var r := RawOutcome(definition, params, supplied, invoke, convert);
            && (called.Failure? ==> r == Failure(called.error))
            && (called.Success? && called.value.Responded? ==> r == Success(called.value.response))
            && (called.Success? && called.value.Returned? && called.value.value.Arr? ==>
                  r == Converted(called.value.value.entries, convert))
            && (called.Success? && called.value.Returned? && !called.value.value.Arr? ==>
                  r == Failure(LogicError(WrongResult(TypeOf(called.value.value)))))
            && (called.Success? && called.value.OtherObject? ==> r == Failure(LogicError(WrongResult("object"))))
  {
  }

  /** The hook an action is deferred to: its `hook_name` option, unless absent or null. */
  function HookName(definition: Definition): (h: Option<string>)
    ensures h.Some? <==> "hook_name" in definition.options && !definition.options["hook_name"].Null?
  {
    if "hook_name" in definition.options && !definition.options["hook_name"].Null?
    then Some(ToText(definition.options["hook_name"]))
    else None
  }

  /**
   * The fault `handle` raises as written: after the registry lookup, line
   * 42 calls `getOption('hook_name')`, which Oxygen_Action_Definition does
   * not declare (it has `getOptions`), so a known action raises an Error
   * and never runs, now or on a hook.
   */
  function HandleAsWritten(definitions: map<string, Definition>, actionName: string): (f: Fault)
  {
    match Find(definitions, actionName)
    case Failure(e) => e
    case Success(_) => MethodMissing("Oxygen_Action_Definition", "getOption")
  }

  /**
   * As written an unknown action is still ACTION_NOT_FOUND, and every
   * known one ends in an Error that `catch (Exception $e)` lets through,
   * whatever its options say about a hook.
   */
  lemma NoActionRunsAsWritten(definitions: map<string, Definition>, actionName: string)
    ensures actionName !in definitions ==>
              HandleAsWritten(definitions, actionName) == OxygenError(Action(NotFound), NotFoundContext(actionName))
    ensures actionName in definitions ==>
              HandleAsWritten(definitions, actionName) == MethodMissing("Oxygen_Action_Definition", "getOption")
              && EngineError(HandleAsWritten(definitions, actionName))
    ensures EngineError(HandleAsWritten(definitions, actionName)) <==> actionName in definitions
  {
  }

  class ActionKernel<R> {
    const registry: Registry
    const parameters: Definition -> seq<Parameter>
    const invoke: (Definition, seq<Value>) -> Result<ActionResult<R>, Fault>
    const convert: map<string, Value> -> Option<R>

    constructor (registry: Registry, parameters: Definition -> seq<Parameter>,
                 invoke: (Definition, seq<Value>) -> Result<ActionResult<R>, Fault>,
                 convert: map<string, Value> -> Option<R>)
      ensures this.registry == registry && this.parameters == parameters
      ensures this.invoke == invoke && this.convert == convert
    {
      this.registry := registry;
      this.parameters := parameters;
      this.invoke := invoke;
      this.convert := convert;
    }

    /** `handleRaw`: the binding loop, then the call and the conversion. */
    method HandleRaw(definition: Definition, supplied: map<string, Value>) returns (r: Result<R, Fault>)
      ensures r == RawOutcome(definition, parameters(definition), supplied, invoke, convert)
    {
      var bound := BindArguments(parameters(definition), supplied, NotProvided);
      if bound.Failure? {
        return Failure(bound.error);
      }
      var called := invoke(definition, bound.value);
      if called.Failure? {
        return Failure(called.error);
      }
      r := Respond(called.value, convert);
    }

    /**
     * `handle`: an unknown action is ACTION_NOT_FOUND; without a hook name
     * the action runs now; with one, a fresh, unexecuted HookedClosure on
     * that hook is returned and nothing runs until it is executed.
     */
    method Handle(actionName: string, supplied: map<string, Value>) returns (r: Result<Handled<R>, Fault>)
      ensures Find(registry.definitions, actionName).Failure? ==>
                r == Failure(Find(registry.definitions, actionName).error)
      ensures Find(registry.definitions, actionName).Success? ==>
                var definition := Find(registry.definitions, actionName).value;
                var now := RawOutcome(definition, parameters(definition), supplied, invoke, convert);
                && (HookName(definition).None? ==>
                      (now.Failure? ==> r == Failure(now.error)) && (now.Success? ==> r == Success(Immediate(now.value))))
                && (HookName(definition).Some? ==>
                      && r.Success? && r.value.Deferred? && fresh(r.value.hooked)
                      && r.value.hooked.hookName == HookName(definition).value
                      && !r.value.hooked.executed
                      && r.value.hooked.closure() == now)
    {
      var found := registry.GetDefinition(actionName);
      if found.Failure? {
        return Failure(found.error);
      }
      var definition := found.value;
      var hookName := HookName(definition);
      if hookName.None? {
        var response := HandleRaw(definition, supplied);
        if response.Failure? {
          return Failure(response.error);
        }
        return Success(Immediate(response.value));
      }
      var params, invoke, convert := parameters(definition), this.invoke, this.convert;
      var hooked := new HookedClosure.HookedClosure(hookName.value,
        () => RawOutcome(definition, params, supplied, invoke, convert));
      r := Success(Deferred(hooked));
    }
  }
}

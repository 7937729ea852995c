/**
 * Oxygen_EventListener_ActionListener: runs the requested action on the
 * master request and answers with a JSON response holding its result.
 * The request data is the decoded body; reflection and the static action
 * call are parameters, as in ActionKernel. The JSON response is
 * represented by the data it encodes.
 */
module ActionListener {

  import opened Wrappers
  import opened OxygenException
  import opened Php
  import opened Registry
  import opened ActionKernel

  const EmptyArgument := Coded(Action(ArgumentEmpty))

  /** The body of the JSON response: `{"actionResult": result}`. */
  function JsonBody(result: Value): (body: Value)
    ensures body.Arr? && body.entries.Keys == {"actionResult"} && body.entries["actionResult"] == result
  {
    Arr(map["actionResult" := result])
  }

  /**
   * `onMasterRequest`: nothing (None) unless actionName and
   * actionParameters are both set; otherwise the definition, the binding
   * (ACTION_ARGUMENT_EMPTY for a missing required argument), the call and
   * the JSON body.
   */
  function ListenerOutcome(data: map<string, Value>, definitions: map<string, Definition>,
                           parameters: Definition -> seq<Parameter>,
                           call: (Definition, seq<Value>) -> Result<Value, Fault>): Result<Option<Value>, Fault>
  {
    if !IsSet(data, "actionName") || !IsSet(data, "actionParameters") then Success(None)
    else
      var definition :- Find(definitions, ToText(data["actionName"]));
      var arguments :- Bind(parameters(definition), Entries(data["actionParameters"]), EmptyArgument);
      var result :- call(definition, arguments);
      Success(Some(JsonBody(result)))
  }

  /** Without both fields the listener does nothing, and it answers only when both are set. */
  lemma NoOpUnlessBoth(data: map<string, Value>, definitions: map<string, Definition>,
                       parameters: Definition -> seq<Parameter>,
                       call: (Definition, seq<Value>) -> Result<Value, Fault>)
    ensures (ListenerOutcome(data, definitions, parameters, call) == Success(None))
              <==> (!IsSet(data, "actionName") || !IsSet(data, "actionParameters"))
  {
  }

  /** An unknown action name is ACTION_NOT_FOUND from the registry, naming the action. */
  lemma UnknownAction(data: map<string, Value>, definitions: map<string, Definition>,
                      parameters: Definition -> seq<Parameter>,
                      call: (Definition, seq<Value>) -> Result<Value, Fault>)
    requires IsSet(data, "actionName") && IsSet(data, "actionParameters")
    requires ToText(data["actionName"]) !in definitions
    ensures ListenerOutcome(data, definitions, parameters, call)
              == Failure(OxygenError(Action(NotFound), map["action" := ToText(data["actionName"])]))
  {
  }

  /**
   * The kernel's binding rule: a missing required argument is
   * ACTION_ARGUMENT_EMPTY here, raised before the call; otherwise the
   * arguments are exactly the kernel's.
   */
  lemma SameBindingRule(data: map<string, Value>, definitions: map<string, Definition>,
                        parameters: Definition -> seq<Parameter>,
                        call: (Definition, seq<Value>) -> Result<Value, Fault>)
    requires IsSet(data, "actionName") && IsSet(data, "actionParameters")
    requires ToText(data["actionName"]) in definitions
    ensures var definition := definitions[ToText(data["actionName"])];
            var supplied := Entries(data["actionParameters"]);
            var kernel := Bind(parameters(definition), supplied, NotProvided);
            var r := ListenerOutcome(data, definitions, parameters, call);
            && (kernel.Failure? ==> r == Failure(EmptyArgument))
            && (kernel.Success? && call(definition, kernel.value).Failure? ==>
                  r == Failure(call(definition, kernel.value).error))
            && (kernel.Success? && call(definition, kernel.value).Success? ==>
                  r == Success(Some(JsonBody(call(definition, kernel.value).value))))
  {
    var definition := definitions[ToText(data["actionName"])];
    BindMissingOnly(parameters(definition), Entries(data["actionParameters"]), NotProvided, EmptyArgument);
  }

  /**
   * `onMasterRequest` as written: its first line calls `$event->getData()`,
   * which Oxygen_Event_MasterRequestEvent does not declare, so PHP raises
   * an Error before the fields are tested; no action is looked up or run.
   */
  function ListenerOutcomeAsWritten(data: map<string, Value>, definitions: map<string, Definition>,
                                    parameters: Definition -> seq<Parameter>,
                                    call: (Definition, seq<Value>) -> Result<Value, Fault>): (r: Result<Option<Value>, Fault>)
  {
    Failure(MethodMissing("Oxygen_Event_MasterRequestEvent", "getData"))
  }

  /**
   * As written every master request fails in this listener with an Error
   * that `catch (Exception $e)` lets through, even one the corrected
   * listener ignores for want of actionName or actionParameters.
   */
  lemma ActionNeverRunsAsWritten(data: map<string, Value>, definitions: map<string, Definition>,
                                 parameters: Definition -> seq<Parameter>,
                                 call: (Definition, seq<Value>) -> Result<Value, Fault>)
    ensures var w := ListenerOutcomeAsWritten(data, definitions, parameters, call);
      w.Failure? && w.error == MethodMissing("Oxygen_Event_MasterRequestEvent", "getData") && EngineError(w.error)
    ensures !IsSet(data, "actionName") || !IsSet(data, "actionParameters") ==>
      ListenerOutcome(data, definitions, parameters, call) == Success(None)
      && ListenerOutcomeAsWritten(data, definitions, parameters, call) != Success(None)
  {
    NoOpUnlessBoth(data, definitions, parameters, call);
  }

  class ActionListener {
    const registry: Registry

    constructor (registry: Registry)
      ensures this.registry == registry
    {
      this.registry := registry;
    }

    /** `onMasterRequest`, with the kernel's binding loop. */
    method OnMasterRequest(data: map<string, Value>, parameters: Definition -> seq<Parameter>,
                           call: (Definition, seq<Value>) -> Result<Value, Fault>)
      returns (r: Result<Option<Value>, Fault>)
      ensures r == ListenerOutcome(data, registry.definitions, parameters, call)
    {
      if !IsSet(data, "actionName") || !IsSet(data, "actionParameters") {
        return Success(None);
      }
      var found := registry.GetDefinition(ToText(data["actionName"]));
      if found.Failure? {
        return Failure(found.error);
      }
      var definition := found.value;
      var bound := BindArguments(parameters(definition), Entries(data["actionParameters"]), EmptyArgument);
      if bound.Failure? {
        return Failure(bound.error);
      }
      var result := call(definition, bound.value);
      if result.Failure? {
        return Failure(result.error);
      }
      r := Success(Some(JsonBody(result.value)));
    }
  }
}

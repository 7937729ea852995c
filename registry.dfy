/**
 * Oxygen_Action_Registry: the map from action name to its definition
 * (the class and method to call and the options, such as `hook_name`).
 */
module Registry {

  import opened Wrappers
  import opened OxygenException
  import opened Php

  /** Oxygen_Action_Definition: class, method and options. */
  datatype Definition = Definition(className: string, methodName: string, options: map<string, Value>)

  /** The context ACTION_NOT_FOUND carries. */
  function NotFoundContext(name: string): map<string, string>
  {
    map["action" := name]
  }

  /** `getDefinition` over a registry: the definition, or ACTION_NOT_FOUND naming the action. */
  function Find(definitions: map<string, Definition>, name: string): (r: Result<Definition, Fault>)
    ensures r.Success? <==> name in definitions
    ensures r.Success? ==> r.value == definitions[name]
    ensures r.Failure? ==> r.error == OxygenError(Action(NotFound), NotFoundContext(name))
  {
    if name !in definitions then Failure(OxygenError(Action(NotFound), NotFoundContext(name)))
    else Success(definitions[name])
  }

  /** After registering d under n, n finds d and every other name finds what it found before. */
  lemma FindAfterSet(definitions: map<string, Definition>, n: string, d: Definition, m: string)
    ensures Find(definitions[n := d], m) == if m == n then Success(d) else Find(definitions, m)
  {
  }

  class Registry {
    var definitions: map<string, Definition>

    constructor ()
      ensures definitions == map[]
    {
      definitions := map[];
    }

    /** `setDefinition`: this name is (re)bound and no other entry changes. */
    method SetDefinition(name: string, definition: Definition)
      modifies this
      ensures definitions == old(definitions)[name := definition]
      ensures Find(definitions, name) == Success(definition)
      ensures forall m :: m != name ==> Find(definitions, m) == Find(old(definitions), m)
    {
      definitions := definitions[name := definition];
      forall m | m != name
        ensures Find(definitions, m) == Find(old(definitions), m)
      {
        FindAfterSet(old(definitions), name, definition, m);
      }
    }

    /** `getDefinition`: a lookup that changes nothing. */
    method GetDefinition(name: string) returns (r: Result<Definition, Fault>)
      ensures r == Find(definitions, name)
    {
      if name !in definitions {
        return Failure(OxygenError(Action(NotFound), NotFoundContext(name)));
      }
      return Success(definitions[name]);
    }
  }
}

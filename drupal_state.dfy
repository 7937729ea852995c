/**
 * Oxygen_Drupal_State: the site's persistent variables, here a map from
 * name to value held by the object.
 */
module DrupalState {

  import opened Php

  /** The variable the RSA public key the dashboard pinned is stored under. */
  const PublicKeyVariable := "oxygen_public_key"

  class State {
    var variables: map<string, Value>

    constructor (initial: map<string, Value>)
      ensures variables == initial
    {
      variables := initial;
    }

    /** `get($name)` with the default null. */
    function Lookup(name: string): (v: Value)
      reads this
      ensures name !in variables ==> v == Null
      ensures name in variables ==> v == variables[name]
    {
      if name in variables then variables[name] else Null
    }

    /**
     * `get($name, $default)`: `variable_get` tests the variable with `isset`,
     * so a variable stored as null gives the default, as an unset one does.
     */
    method Get(name: string, default: Value) returns (v: Value)
      ensures name in variables && !variables[name].Null? ==> v == variables[name]
      ensures name !in variables || variables[name].Null? ==> v == default
      ensures default == Null ==> v == Lookup(name)
    {
      v := if name in variables && !variables[name].Null? then variables[name] else default;
    }

    /** `set($name, $value)`: this variable changes and no other. */
    method Set(name: string, value: Value)
      modifies this
      ensures variables == old(variables)[name := value]
      ensures Lookup(name) == value
      ensures forall n :: n != name ==> Lookup(n) == old(Lookup(n))
    {
      variables := variables[name := value];
    }

    /** `delete($name)`: this variable is no longer set, and no other changes. */
    method Delete(name: string)
      modifies this
      ensures variables == old(variables) - {name}
      ensures Lookup(name) == Null
      ensures forall n :: n != name ==> Lookup(n) == old(Lookup(n))
    {
      variables := variables - {name};
    }
  }
}

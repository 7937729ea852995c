/**
 * Oxygen_Drupal_Context: the global variables and the constants Drupal's
 * bootstrap reads and sets, held by the object. When no array is given,
 * the object works on the process's `$GLOBALS` and on its defined
 * constants; here both are tables handed to the constructor.
 */
module DrupalContext {

  import opened Wrappers
  import opened Php
  import opened OxygenException

  /** The RuntimeException `setConstant` throws for a constant that is already there. */
  function AlreadyDefined(name: string): (f: Fault)
    ensures f.RuntimeError? && f.message == "The constant \"" + name + "\" is already defined."
  {
    RuntimeError("The constant \"" + name + "\" is already defined.")
  }

  /**
   * `setConstant` on a table of constants: a name already there is refused
   * when `throw` is set and otherwise left alone; a new name is added. A
   * constant, once there, never changes.
   */
  function DefineOnce(table: map<string, Value>, name: string, value: Value, throw: bool)
    : (r: Result<map<string, Value>, Fault>)
    ensures r.Failure? <==> name in table && throw
    ensures r.Failure? ==> r.error == AlreadyDefined(name)
    ensures r.Success? ==> r.value.Keys == table.Keys + {name}
    ensures r.Success? ==> forall n | n in table :: r.value[n] == table[n]
    ensures r.Success? && name !in table ==> r.value[name] == value
  {
    if name in table then
      if throw then Failure(AlreadyDefined(name)) else Success(table)
    else Success(table[name := value])
  }

  /** Defining a name twice without throwing leaves the table as defining it once. */
  lemma DefineTwice(table: map<string, Value>, name: string, first: Value, second: Value)
    ensures DefineOnce(table, name, first, false).Success?
    ensures var once := DefineOnce(table, name, first, false).value;
            DefineOnce(once, name, second, false) == Success(once)
            && DefineOnce(once, name, second, true) == Failure(AlreadyDefined(name))
  {
  }

  class Context {
    var globals: map<string, Value>
    var constants: map<string, Value>

    /**
     * `new Oxygen_Drupal_Context($globals, $constants)`: a null argument
     * means the process's global variables or constants, which are passed
     * in here as `processGlobals` and `processConstants`.
     */
    constructor (globals: Option<map<string, Value>>, constants: Option<map<string, Value>>,
                 processGlobals: map<string, Value>, processConstants: map<string, Value>)
      ensures this.globals == if globals.Some? then globals.value else processGlobals
      ensures this.constants == if constants.Some? then constants.value else processConstants
    {
      this.globals := if globals.Some? then globals.value else processGlobals;
      this.constants := if constants.Some? then constants.value else processConstants;
    }

    /** `setGlobal($name, $value)`: this variable changes and no other. */
    method SetGlobal(name: string, value: Value)
      modifies this
      ensures globals == old(globals)[name := value] && constants == old(constants)
      ensures GetGlobal(name, Null) == value
      ensures forall n, d | n != name :: GetGlobal(n, d) == old(GetGlobal(n, d))
    {
      globals := globals[name := value];
    }

    /** `getGlobal($name, $default)`: a variable that is set, even to null, wins over the default. */
    function GetGlobal(name: string, default: Value): (v: Value)
      reads this
      ensures name in globals ==> v == globals[name]
      ensures name !in globals ==> v == default
    {
      if name in globals then globals[name] else default
    }

    /** `hasConstant($constant)`: the name is in the table, whatever its value. */
    function HasConstant(name: string): (b: bool)
      reads this
      ensures b <==> name in constants
    {
      name in constants
    }

    /** `getConstant($constant, $default)`: the constant's value, or the default when it is not there. */
    function GetConstant(name: string, default: Value): (v: Value)
      reads this
      ensures HasConstant(name) ==> v == constants[name]
      ensures !HasConstant(name) ==> v == default
    {
      if !HasConstant(name) then default else constants[name]
    }

    /**
     * `setConstant($name, $value, $throw)`: the table becomes what
     * `DefineOnce` gives, or stays as it was when that refuses; a constant
     * already there keeps its value either way.
     */
    method SetConstant(name: string, value: Value, throw: bool) returns (r: Result<(), Fault>)
      modifies this
      ensures globals == old(globals)
      ensures DefineOnce(old(constants), name, value, throw).Failure? ==>
                r == Failure(AlreadyDefined(name)) && constants == old(constants)
      ensures DefineOnce(old(constants), name, value, throw).Success? ==>
                r == Success(()) && constants == DefineOnce(old(constants), name, value, throw).value
      ensures old(HasConstant(name)) ==> GetConstant(name, Null) == old(GetConstant(name, Null))
      ensures r.Success? ==> HasConstant(name)
    {
      if HasConstant(name) {
        if throw {
          return Failure(AlreadyDefined(name));
        }
        return Success(());
      }
      constants := constants[name := value];
      r := Success(());
    }
  }
}

/**
 * Oxygen_Container_Abstract: the container's parameters, with their
 * defaults, and the registry that keeps every service once its factory has
 * made it. The factories (`create*`) belong to the concrete container and
 * are not part of this model: the object a factory would return is passed
 * to the accessor.
 */
module Container {

  import opened Wrappers
  import opened Php
  import opened OxygenException

  /** The services the container hands out, one per `get*` accessor. */
  datatype Service =
    | RsaVerifier
    | Connection
    | ActionRegistry
    | Dispatcher
    | NonceManager
    | State
    | ProjectManager
    | ActionKernel
    | UserManager
    | SessionManager
    | Context

  /** What a factory returns: null, or an object (told apart by identity). */
  datatype Instance = NullInstance | Object(id: nat)

  /**
   * The defaults the constructor adds: the module version "0.0", the module
   * path (the directory three levels above the container's file, given
   * here), the base URL "http://.", OpenSSL enabled, and 1024 bytes of memory
   * kept for fatal errors.
   */
  function Defaults(modulePath: string): (d: map<string, Value>)
    ensures d.Keys == {"module_version", "module_path", "base_url", "disable_openssl", "fatal_error_reserved_memory_size"}
    ensures d["module_version"] == Str("0.0") && d["module_path"] == Str(modulePath)
    ensures d["base_url"] == Str("http://.") && d["disable_openssl"] == Bool(false)
    ensures d["fatal_error_reserved_memory_size"] == Int(1024)
  {
    map["module_version" := Str("0.0"),
        "module_path" := Str(modulePath),
        "base_url" := Str("http://."),
        "disable_openssl" := Bool(false),
        "fatal_error_reserved_memory_size" := Int(1024)]
  }

  /** PHP's array union `$left + $right`: every key of either, the left one's value winning. */
  function Union(left: map<string, Value>, right: map<string, Value>): (u: map<string, Value>)
    ensures u.Keys == left.Keys + right.Keys
    ensures forall k | k in left :: u[k] == left[k]
    ensures forall k | k in right && k !in left :: u[k] == right[k]
  {
    map k | k in left.Keys + right.Keys :: if k in left then left[k] else right[k]
  }

  /** The message of the InvalidArgumentException `getParameter` throws. */
  function NoSuchParameter(name: string): (f: Fault)
    ensures f.InvalidArgument? && f.message == "The parameter named \"" + name + "\" does not exist."
  {
    InvalidArgument("The parameter named \"" + name + "\" does not exist.")
  }

  /** A parameter the caller gives is never replaced by a default, and every default is there. */
  lemma CallerWins(given: map<string, Value>, modulePath: string, name: string)
    ensures name in given ==> Union(given, Defaults(modulePath))[name] == given[name]
    ensures name !in given && name in Defaults(modulePath) ==>
              Union(given, Defaults(modulePath))[name] == Defaults(modulePath)[name]
    ensures name in Union(given, Defaults(modulePath)) <==> name in given || name in Defaults(modulePath)
  {
  }

  class ContainerBase {
    var parameters: map<string, Value>
    /** The services made so far; a factory's null is not kept. */
    var registry: map<Service, Instance>
    /** How many times each factory has been called. */
    ghost var made: map<Service, nat>

    /** Every kept service is an object, made by a call of its factory. */
    ghost predicate Valid()
      reads this
    {
      (forall s | s in registry :: registry[s].Object?)
      && (forall s | s in registry :: s in made && made[s] >= 1)
    }

    /** `new ($parameters)`: the caller's parameters over the defaults; no service made yet. */
    constructor (given: map<string, Value>, modulePath: string)
      ensures Valid()
      ensures parameters == Union(given, Defaults(modulePath))
      ensures registry == map[] && made == map[]
    {
      parameters := Union(given, Defaults(modulePath));
      registry := map[];
      made := map[];
    }

    /** `getParameter($name)`: the stored value, even null, or InvalidArgumentException for an unknown name. */
    function GetParameter(name: string): (r: Result<Value, Fault>)
      reads this
      ensures r.Success? <==> name in parameters
      ensures r.Success? ==> r.value == parameters[name]
      ensures r.Failure? ==> r.error == NoSuchParameter(name)
    {
      if name !in parameters then Failure(NoSuchParameter(name)) else Success(parameters[name])
    }

    /** How many times a factory has been called so far. */
    ghost function Calls(s: Service): nat
      reads this
    {
      if s in made then made[s] else 0
    }

    /**
     * `get*()` for the service `s`: a service already kept is returned and
     * its factory not called; otherwise the factory is called once, its
     * result returned, and kept unless it is null. No other service's slot
     * changes.
     */
    method Get(s: Service, fromFactory: Instance) returns (instance: Instance)
      requires Valid()
      modifies this
      ensures Valid() && parameters == old(parameters)
      ensures s in old(registry) ==>
                instance == old(registry)[s] && registry == old(registry) && made == old(made)
      ensures s !in old(registry) ==>
                instance == fromFactory && Calls(s) == old(Calls(s)) + 1
                && (forall t | t != s :: Calls(t) == old(Calls(t)))
      ensures s !in old(registry) && fromFactory.Object? ==> registry == old(registry)[s := fromFactory]
      ensures s !in old(registry) && fromFactory.NullInstance? ==> registry == old(registry)
      ensures forall t | t != s :: (t in registry <==> t in old(registry))
                                   && (t in registry ==> registry[t] == old(registry)[t])
      ensures instance.Object? ==> s in registry && registry[s] == instance
    {
      if s !in registry {
        made := made[s := Calls(s) + 1];
        if fromFactory.Object? {
          registry := registry[s := fromFactory];
        }
        return fromFactory;
      }
      instance := registry[s];
    }
  }
}

/**
 * Oxygen_Util_HookedClosure: a closure to be run on a named Drupal hook,
 * at most once. The closure is a function value whose result is what
 * `call_user_func` returns, or the exception it raises.
 */
module HookedClosure {

  import opened Wrappers
  import opened OxygenException

  const ExecutedTwice := "The hooked action should never get executed twice."

  /** `getHookName` is the constant `hookName`, fixed by the constructor. */
  class HookedClosure<T> {
    const hookName: string
    const closure: () -> Result<T, Fault>
    var executed: bool

    constructor (hookName: string, closure: () -> Result<T, Fault>)
      ensures this.hookName == hookName && this.closure == closure && !executed
    {
      this.hookName := hookName;
      this.closure := closure;
      executed := false;
    }

    /**
     * `execute`: the first call marks the closure executed and then runs
     * it, so a closure that throws is still spent; any later call raises
     * LogicException without running it.
     */
    method Execute() returns (r: Result<T, Fault>)
      modifies this
      ensures executed
      ensures old(executed) ==> r == Failure(LogicError(ExecutedTwice))
      ensures !old(executed) ==> r == closure()
    {
      if executed {
        return Failure(LogicError(ExecutedTwice));
      }
      executed := true;
      r := closure();
    }
  }

  /** Whatever the closure does, a second run is refused. */
  method RunTwice<T>(h: HookedClosure<T>) returns (first: Result<T, Fault>, second: Result<T, Fault>)
    requires !h.executed
    modifies h
    ensures first == h.closure()
    ensures second == Failure(LogicError(ExecutedTwice))
  {
    first := h.Execute();
    second := h.Execute();
  }
}

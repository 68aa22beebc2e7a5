/**
  `execOnce(fn)`: a wrapper that invokes `fn` on its first call only and answers every call with
  the result of that first invocation. The closure's captured `used` and `result` variables are
  the fields of an object; `invocations` records the arguments `fn` was actually invoked with.
  `fn` may throw (`Failure`): `used` is already set by then, so `result` stays `undefined` and
  every later call answers `undefined` without invoking `fn` again.
*/
module ExecOnce {
  import opened Wrappers

  /** What `result = fn(...args)` leaves in `result`: the value, or `undefined` when `fn` threw. */
  function Stored<T, E>(outcome: Result<T, E>): Option<T> {
    match outcome
    case Success(v) => Some(v)
    case Failure(_) => None
  }

  class Once<A, T, E> {
    /** The wrapped function; a `Failure` is an exception it throws. */
    const fn: A -> Result<T, E>
    /** Whether the wrapper has been called. */
    var used: bool
    /** The result of the first invocation; `None` while it is `undefined`. */
    var result: Option<T>
    /** The arguments `fn` has been invoked with. */
    ghost var invocations: seq<A>

    /**
      `fn` has been invoked at most once, exactly when the wrapper has been used, and `result`
      holds what that invocation returned (`undefined` if it threw).
    */
    ghost predicate Valid()
      reads this
    {
      && |invocations| <= 1
      && (used <==> |invocations| == 1)
      && (used ==> result == Stored(fn(invocations[0])))
      && (!used ==> result == None)
    }

    /** `execOnce(fn)`: nothing has been invoked yet. */
    constructor (f: A -> Result<T, E>)
      ensures Valid()
      ensures fn == f && !used && result == None && invocations == []
    {
      fn := f;
      used := false;
      result := None;
      invocations := [];
    }

    /**
      One call of the wrapper. The first call sets `used`, then invokes `fn` with its arguments
      and returns what `fn` returns or throws. Later calls invoke nothing, ignore their arguments
      and return the stored result: the first invocation's value, or `undefined` if it threw.
      `used` stays true from then on.
    */
    method Call(args: A) returns (r: Result<Option<T>, E>)
      requires Valid()
      modifies this
      ensures Valid()
      ensures used
      ensures invocations == (if old(used) then old(invocations) else [args])
      ensures result == Stored(fn(invocations[0]))
      ensures !old(used) ==> r == match fn(args) case Success(v) => Success(Some(v)) case Failure(e) => Failure(e)
      ensures old(used) ==> r == Success(old(result)) && result == old(result)
      ensures fn(invocations[0]).Success? ==> r == Success(Some(fn(invocations[0]).value))
    {
      if !used {
        used := true;
        var outcome := fn(args);
        invocations := [args];
        match outcome {
          case Success(v) =>
            result := Some(v);
          case Failure(e) =>
            return Failure(e);
        }
      }
      r := Success(result);
    }
  }
}

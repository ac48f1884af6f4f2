/**
 * Option and Result types shared by every module of the model.
 *
 * Go reports failure as an `error` value next to the result; here a failed
 * call is `Err(msg)` carrying the text `err.Error()` would print, and a
 * pointer that may be nil is an `Option`.
 */
module Wrappers {

  datatype Option<+T> = None | Some(value: T) {
    function GetOr(default: T): T {
      match this
      case Some(v) => v
      case None => default
    }
  }

  datatype Result<+T> = Ok(value: T) | Err(msg: string) {
    predicate IsFailure() {
      Err?
    }

    function PropagateFailure<U>(): Result<U>
      requires Err?
    {
      Err(msg)
    }

    function Extract(): T
      requires Ok?
    {
      value
    }
  }

  /** The text of `errors.Wrap(cause, context)` from github.com/pkg/errors
      (and of `fmt.Errorf("context: %w", cause)`). */
  function Wrap(context: string, cause: string): (s: string)
    ensures |s| == |context| + 2 + |cause|
    ensures s[..|context|] == context && s[|context| + 2..] == cause
  {
    context + ": " + cause
  }
}

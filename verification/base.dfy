/**
 * Shared vocabulary of the PL/v8 bridge model: identifiers handed out by the
 * host (object identifiers) and by the script engine (handles), the optional
 * value, and the two failure domains that cross the bridge.
 */
module Base {

  /** A host object identifier (function, type, relation or role OID). */
  type Oid = nat

  /** An engine handle (compiled function, context, receiver object). */
  type Handle = nat

  datatype Option<+T> = None | Some(value: T) {
    function GetOr(default: T): T {
      match this
      case Some(v) => v
      case None => default
    }
  }

  /**
   * A script-side error as the bridge captures it: a message that may be
   * missing and an optional detail line (script name, line, source text).
   */
  datatype JsError = JsError(msg: Option<string>, detail: Option<string>)

  /**
   * The two failure domains: an error raised inside the script engine, and
   * a host-side structured error (its message and optional detail) that is
   * re-raised verbatim.
   */
  datatype Failure =
    | ScriptError(js: JsError)
    | HostError(message: string, detail: Option<string>)

  datatype Result<+T> = Ok(value: T) | Fail(failure: Failure) {
    predicate IsFailure() {
      Fail?
    }

    function PropagateFailure<U>(): Result<U>
      requires Fail?
    {
      Fail(failure)
    }

    function Extract(): T
      requires Ok?
    {
      value
    }
  }

  /** A script-side failure carrying only a message. */
  function ScriptFail<T>(message: string): Result<T> {
    Fail(ScriptError(JsError(Some(message), None)))
  }

  /** A host-side failure raised with a message only, as `elog`/`ereport` with `errmsg` does. */
  function HostFail<T>(message: string): Result<T> {
    Fail(HostError(message, None))
  }

  /** No element occurs twice. */
  predicate NoDup<T(==)>(xs: seq<T>) {
    forall i, j :: 0 <= i < j < |xs| ==> xs[i] != xs[j]
  }
}

/** Optional values and the outcome of a computation that may raise.

    The generator never catches anything: where its JavaScript would raise
    (indexing the first character of an empty name, reducing an empty array
    without a seed) the model returns `Throws`, and the `:-` operator
    propagates it the way the exception unwinds the call stack.
 */
module Results {

  datatype Option<+T> = None | Some(value: T) {

    /** The value, or `default` when absent. */
    function GetOr(default: T): T {
      match this
      case Some(v) => v
      case None => default
    }

    /** Zero or one element, as `optionalToArray` builds it. */
    function ToSeq(): (s: seq<T>)
      ensures |s| <= 1
      ensures Some? <==> |s| == 1
      ensures Some? ==> s[0] == value
    {
      match this
      case Some(v) => [v]
      case None => []
    }
  }

  datatype Result<+T> = Ok(value: T) | Throws {

    predicate IsFailure() {
      Throws?
    }

    function PropagateFailure<U>(): Result<U>
      requires Throws?
    {
      Throws
    }

    function Extract(): T
      requires Ok?
    {
      value
    }
  }
}

/** The optional value used wherever the modelled code returns `None`, `nullptr`
    or a sentinel instead of a value. */
module Wrappers {

  datatype Option<+T> = None | Some(value: T) {

    /** Returns the carried value, or `default` when there is none. */
    function GetOr(default: T): T
    {
      match this
      case Some(v) => v
      case None => default
    }

    /** The carried value as a sequence of at most one element. */
    function ToSeq(): (s: seq<T>)
      ensures |s| <= 1
      ensures |s| == 1 <==> Some?
    {
      if Some? then [value] else []
    }
  }
}

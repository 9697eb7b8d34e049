/**
 An optional value, and the two ends of a stack.
 */
module Common {
  datatype Option<+T> = None | Some(value: T)

  /** The top of a stack. */
  function Last<T>(s: seq<T>): T
    requires s != []
  {
    s[|s| - 1]
  }

  /** All but the top of a stack. */
  function Front<T>(s: seq<T>): seq<T>
    requires s != []
  {
    s[..|s| - 1]
  }
}

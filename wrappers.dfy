/** Python's `None` or a value, as returned by `get_ticker` and `parse_header`. */
module Wrappers {

  datatype Option<+T> = None | Some(value: T)

  /** The first of two searches that finds something: `a` if it is a value, otherwise `b`. */
  function OrElse<T>(a: Option<T>, b: Option<T>): (r: Option<T>)
    ensures r == a || r == b
    ensures r.None? <==> a.None? && b.None?
  {
    if a.Some? then a else b
  }
}

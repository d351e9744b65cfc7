/** The optional value the list uses for its cursor item. */
module Wrappers {

  datatype Option<T> = None | Some(value: T)

  /** The elements an option iterates over: none or exactly one. */
  function ToSeq<T>(o: Option<T>): (r: seq<T>)
    ensures |r| <= 1
    ensures o.Some? <==> |r| == 1
    ensures o.Some? ==> r[0] == o.value
  {
    match o
    case None => []
    case Some(v) => [v]
  }
}

/** The result shapes the components share. */
module Wrappers {
  datatype Option<+T> = None | Some(value: T)

  datatype Result<+T, +E> = Ok(value: T) | Err(error: E)

  /** A list parser's result with elements read before it put in front. */
  function Prepend<X, Rest, E>(elems: seq<X>, r: Result<(seq<X>, Rest), E>): Result<(seq<X>, Rest), E> {
    match r
    case Ok((more, rest)) => Ok((elems + more, rest))
    case Err(e) => Err(e)
  }

  lemma PrependNothing<X, Rest, E>(r: Result<(seq<X>, Rest), E>)
    ensures Prepend([], r) == r
  {
    if r.Ok? { assert [] + r.value.0 == r.value.0; }
  }

  lemma PrependTwice<X, Rest, E>(a: seq<X>, b: seq<X>, r: Result<(seq<X>, Rest), E>)
    ensures Prepend(a, Prepend(b, r)) == Prepend(a + b, r)
  {
    if r.Ok? { assert a + (b + r.value.0) == (a + b) + r.value.0; }
  }
}

/** Reading values one after the other from a buffer: what both decoders of the sidecar have in common. */
module Parsing {
  import opened Wrappers
  import opened Bytes

  /** A value and the position after it, or an error. */
  type Parsed<+T, +E> = Result<(T, nat), E>

  function TakeAt<E>(buf: bytes, pos: nat, n: nat, short: E): (r: Parsed<bytes, E>)
    ensures r.Ok? ==> r.value.1 == pos + n <= |buf| && |r.value.0| == n
  {
    if pos + n <= |buf| then Ok((buf[pos..pos + n], pos + n)) else Err(short)
  }

  /** A read gave what the position said, and moved to where it said. */
  ghost predicate Reads<T, E>(want: Parsed<T, E>, r: Result<T, E>, pos: nat) {
    match want
    case Ok(vp) => r == Ok(vp.0) && pos == vp.1
    case Err(e) => r == Err(e)
  }

  /** What is already read, in front of what is still to be read. */
  function Prepended<T, E>(read: seq<T>, rest: Parsed<seq<T>, E>): Parsed<seq<T>, E> {
    match rest
    case Ok(vp) => Ok((read + vp.0, vp.1))
    case Err(e) => Err(e)
  }

  lemma {:induction false} PrependNothing<T, E>(rest: Parsed<seq<T>, E>)
    ensures Prepended([], rest) == rest
  {
    if rest.Ok? {
      assert [] + rest.value.0 == rest.value.0;
    }
  }

  lemma {:induction false} PrependMore<T, E>(read: seq<T>, x: T, rest: Parsed<seq<T>, E>)
    ensures Prepended(read + [x], rest) == Prepended(read, Prepended([x], rest))
  {
    if rest.Ok? {
      assert (read + [x]) + rest.value.0 == read + ([x] + rest.value.0);
    }
  }
}

/** The optional value the Rust code uses for "no character" and "no token". */
module Wrappers {

  datatype Option<+T> = None | Some(value: T)

  /** The element at index `i` of `s`, or None past its end. */
  function At<T>(s: seq<T>, i: nat): (r: Option<T>)
    ensures r.Some? <==> i < |s|
    ensures r.Some? ==> r.value == s[i]
  {
    if i < |s| then Some(s[i]) else None
  }

  lemma AtCons<T>(x: T, s: seq<T>, i: nat)
    ensures At([x] + s, i + 1) == At(s, i)
  {
  }
}

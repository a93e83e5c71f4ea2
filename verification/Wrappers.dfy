/** A value that may be missing, and a function applied to every element of a sequence. */
module Wrappers {
  datatype Option<+T> = None | Some(value: T)

  function Mapped<S, T>(f: S -> T, s: seq<S>): (r: seq<T>)
    ensures |r| == |s| && forall i :: 0 <= i < |r| ==> r[i] == f(s[i])
  {
    seq(|s|, i requires 0 <= i < |s| => f(s[i]))
  }
}

/** Sequences of bytes and of equal elements. */
module Sequences {

  function Repeat<T>(x: T, n: nat): (s: seq<T>)
    ensures |s| == n && forall i | 0 <= i < n :: s[i] == x
  {
    seq(n, _ => x)
  }

  ghost predicate AreBytes(s: seq<nat>) {
    forall i | 0 <= i < |s| :: s[i] < 256
  }
}

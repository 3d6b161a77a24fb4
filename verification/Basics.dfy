/** Bytes, optional values and the character constants shared by every component. */
module Basics {
  newtype byte = x: int | 0 <= x < 256

  const NUL: byte := 0
  const BACKSPACE: byte := 8
  const NEWLINE: byte := 10
  const RETURN: byte := 13
  const SPACE: byte := 32

  datatype Option<+T> = None | Some(value: T)

  ghost predicate NoDup<T>(s: seq<T>) {
    forall i, j :: 0 <= i < j < |s| ==> s[i] != s[j]
  }

  function Min(a: int, b: int): int {
    if a <= b then a else b
  }

  function Last<T>(s: seq<T>): T
    requires s != []
  {
    s[|s| - 1]
  }

  lemma Join<T>(s: seq<T>, a: nat, b: nat, c: nat)
    requires a <= b <= c <= |s|
    ensures s[a..b] + s[b..c] == s[a..c]
  {
  }

  function Repeat(b: byte, n: nat): (r: seq<byte>)
    ensures |r| == n && forall i :: 0 <= i < n ==> r[i] == b
  {
    seq(n, _ => b)
  }

  /** A non-zero multiple of p is at least p away from zero. */
  lemma Multiple(x: int, p: int)
    requires p >= 0
    ensures x >= 1 ==> x * p >= p
    ensures x <= -1 ==> x * p <= -p
  {
  }
}

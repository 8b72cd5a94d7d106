/** Types that several components share. */
module Wrappers {

  type byte = x: int | 0 <= x < 256

  type bytes = seq<byte>

  datatype Option<+T> = None | Some(value: T)

  const CR: byte := 13
  const LF: byte := 10
  const SPACE: byte := 32

  lemma Associate<T>(a: seq<T>, b: seq<T>, c: seq<T>)
    ensures (a + b) + c == a + (b + c)
  {
  }

  /** A list that grows at its end: the last element outermost. */
  datatype Snocs<T> = Nil | Snoc(init: Snocs<T>, last: T)

  function Len<T>(list: Snocs<T>): nat {
    if list.Nil? then 0 else Len(list.init) + 1
  }

  /** The first `m` elements. */
  function Take<T>(list: Snocs<T>, m: nat): (r: Snocs<T>)
    requires m <= Len(list)
    ensures Len(r) == m
  {
    if m == Len(list) then list else Take(list.init, m)
  }

  lemma {:induction false} TakeNext<T>(list: Snocs<T>, m: nat)
    requires m < Len(list)
    ensures Take(list, m + 1).Snoc? && Take(list, m + 1).init == Take(list, m)
  {
    if m + 1 < Len(list) {
      TakeNext(list.init, m);
    }
  }
}

/** Small shared definitions: optional values, and table lookup by scanning. */
module Basics {

  datatype Option<+T> = None | Some(value: T)

  /** The first index of `c` in `table`, or -1. */
  function FirstIndex<T(==)>(table: seq<T>, c: T): (n: int)
    ensures -1 <= n < |table|
    ensures n >= 0 ==> table[n] == c && forall k :: 0 <= k < n ==> table[k] != c
    ensures n == -1 ==> c !in table
  {
    IndexFrom(table, c, 0)
  }

  function IndexFrom<T(==)>(table: seq<T>, c: T, i: nat): (n: int)
    requires i <= |table|
    ensures n == -1 || i <= n < |table|
    ensures n >= 0 ==> table[n] == c && forall k :: i <= k < n ==> table[k] != c
    ensures n == -1 ==> forall k :: i <= k < |table| ==> table[k] != c
    decreases |table| - i
  {
    if i == |table| then -1
    else if table[i] == c then i
    else IndexFrom(table, c, i + 1)
  }

  /** The scanning loop of the C sources. */
  method Scan<T(==)>(table: seq<T>, c: T) returns (n: int)
    ensures n == FirstIndex(table, c)
  {
    var i := 0;
    while i < |table|
      invariant i <= |table|
      invariant IndexFrom(table, c, i) == FirstIndex(table, c)
    {
      if table[i] == c {
        return i;
      }
      i := i + 1;
    }
    return -1;
  }

  function Min(a: nat, b: nat): nat {
    if a <= b then a else b
  }

  /** `s` with `bs` over what stands at `at`. */
  function Splice<T>(s: seq<T>, at: nat, bs: seq<T>): (r: seq<T>)
    requires at + |bs| <= |s|
    ensures |r| == |s|
  {
    s[..at] + bs + s[at + |bs|..]
  }
}

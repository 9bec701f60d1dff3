/** Bytes, pointers and optional results, as every component uses them. */
module Basics {

  type byte = x: int | 0 <= x < 256

  /** A C string of `strlen` bytes: no byte of it is zero. */
  type Key = s: seq<byte> | forall i :: 0 <= i < |s| ==> s[i] != 0

  /** A `void *`; zero is NULL. */
  type Address = nat

  const NULL: Address := 0

  datatype Option<+T> = None | Some(value: T)

  function Min(a: int, b: int): int {
    if a < b then a else b
  }

  lemma {:induction false} SubsetSize<T>(a: set<T>, b: set<T>)
    requires a <= b
    ensures |a| <= |b|
  {
    if a != {} {
      var x :| x in a;
      SubsetSize(a - {x}, b - {x});
    }
  }

  /** Two to the `k`. */
  function Twice(k: nat): (p: nat)
    ensures p > 0
  {
    if k == 0 then 1 else 2 * Twice(k - 1)
  }

  /** `n`, doubled `k` times. */
  function Doubled(n: nat, k: nat): nat {
    if k == 0 then n else 2 * Doubled(n, k - 1)
  }

  lemma {:induction false} DoubledOnce(n: nat, k: nat)
    ensures Doubled(2 * n, k) == Doubled(n, k + 1)
  {
    if k > 0 { DoubledOnce(n, k - 1); }
  }

  lemma {:induction false} DivideExact(m: nat, q: nat, r: nat)
    requires r < m
    ensures (m * q + r) / m == q && (m * q + r) % m == r
  {
    var x := (m * q + r) / m;
    assert m * q + r == m * x + (m * q + r) % m;
    TimesGrows(m, x + 1, q);
    TimesGrows(m, q + 1, x);
  }

  lemma {:induction false} TimesGrows(m: nat, a: int, b: int)
    ensures a <= b ==> m * a <= m * b
  {
    assert a <= b ==> 0 <= m * (b - a);
  }
}

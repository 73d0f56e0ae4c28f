/** A few facts on products, quotients and concatenations that the solver needs spelled out. */
module Arithmetic {

  lemma LessEq(x: nat, y: nat, size: nat)
    requires x <= y
    ensures x * size <= y * size && size * x <= size * y
  {
  }

  lemma DivModUnique(x: nat, n: nat, q: nat, r: nat)
    requires n > 0 && x == n * q + r && r < n
    ensures x / n == q && x % n == r
  {
    var q', r' := x / n, x % n;
    assert n * q' + r' == n * q + r;
    if q' < q {
      LessEq(q' + 1, q, n);
    } else if q < q' {
      LessEq(q + 1, q', n);
    }
  }

  lemma Regroup<T>(a: seq<T>, b: seq<T>, c: seq<T>)
    ensures a + (b + c) == (a + b) + c
  {
  }
}

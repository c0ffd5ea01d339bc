/** Facts about products and remainders. */
module Arithmetic {

  lemma {:induction false} ProductsOrdered(n: nat)
    ensures forall a, b {:trigger a * n, b * n} :: a <= b ==> a * n <= b * n
  {
  }

  /** Quotient and remainder are unique. */
  lemma {:induction false} RemainderOf(x: nat, q: nat, r: nat, n: nat)
    requires r < n && x == q * n + r
    ensures x % n == r
  {
    var d := x / n;
    assert (d + 1) * n == d * n + n && (q + 1) * n == q * n + n;
    ProductsOrdered(n);
  }

  /** The next position in a ring of size `n`. */
  lemma {:induction false} NextRemainder(x: nat, n: nat)
    requires n > 0
    ensures (x + 1) % n == if x % n + 1 == n then 0 else x % n + 1
  {
    var q, r := x / n, x % n;
    if r + 1 == n {
      assert x + 1 == (q + 1) * n;
      RemainderOf(x + 1, q + 1, 0, n);
    } else {
      RemainderOf(x + 1, q, r + 1, n);
    }
  }
}

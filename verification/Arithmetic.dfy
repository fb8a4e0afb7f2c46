/** The few facts about products and remainders that the models need. */
module Arithmetic {

  /** A multiple of `n` is not strictly between 0 and `n`. */
  lemma MultipleOutside(n: nat, d: int)
    ensures !(0 < n * d < n)
  {
    if d >= 1 { assert n * d == n + n * (d - 1); }
  }

  /** The only multiple of `n` strictly between -n and n is 0. */
  lemma MultipleSmall(n: int, d: int)
    requires n > 0
    ensures -n < n * d < n ==> d == 0
  {
    if d >= 1 { assert n * d == n + n * (d - 1); }
    if d <= -1 { assert n * d == -n + n * (d + 1); }
  }

  lemma Residue(q: int, n: nat, r: nat)
    requires r < n
    ensures (n * q + r) % n == r
  {
    var d := (n * q + r) / n - q;
    assert n * ((n * q + r) / n) == n * q + n * d;
    assert r == n * d + (n * q + r) % n;
    MultipleSmall(n, d);
  }

  /** Fewer than `n` apart, two numbers have different remainders. */
  lemma ResiduesDistinct(a: nat, b: nat, n: nat)
    requires n > 0 && a < b < a + n
    ensures a % n != b % n
  {
    var d := b / n - a / n;
    assert b - a == n * d + (b % n - a % n);
    MultipleOutside(n, d);
  }

  lemma ResiduesRepeat(a: nat, n: nat)
    requires n > 0
    ensures (a + n) % n == a % n
  {
    var d := (a + n) / n - a / n;
    assert n == n * d + ((a + n) % n - a % n);
    MultipleOutside(n, d - 1);
    MultipleOutside(n, 1 - d);
  }

  lemma ResidueSmall(a: nat, n: nat)
    requires a < n
    ensures a % n == a
  {
    Residue(0, n, a);
  }

  lemma AtLeastOnce(n: nat, k: nat)
    requires k >= 1
    ensures n * k >= n
  {
    assert n * k == n + n * (k - 1);
  }
}

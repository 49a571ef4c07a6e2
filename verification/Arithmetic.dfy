/**
  Division and remainder by a divisor that is not a constant.
 */
module Arithmetic {

  lemma Split(o: nat, n: nat)
    requires n > 0
    ensures o == n * (o / n) + o % n
  {
  }

  lemma DifferentParts(o: nat, p: nat, n: nat)
    requires n > 0 && o != p
    ensures o / n != p / n || o % n != p % n
  {
    Split(o, n);
    Split(p, n);
  }

  lemma {:induction false} QuotientBelow(o: nat, n: nat, k: nat)
    requires n > 0 && o < k * n
    ensures o / n < k
  {
    Split(o, n);
    if o / n >= k {
      MulMonotone(k, o / n, n);
    }
  }

  lemma {:induction false} MulMonotone(a: nat, b: nat, n: nat)
    requires a <= b
    ensures a * n <= b * n
  {
  }

  /** Taking k times the divisor off lowers the quotient by k. */
  lemma {:induction false} DropMultiple(o: nat, n: nat, k: nat)
    requires n > 0 && k * n <= o
    ensures (o - k * n) / n == o / n - k && (o - k * n) % n == o % n
    ensures k <= o / n
  {
    var p: nat := o - k * n;
    Split(o, n);
    Split(p, n);
    var a, b := o / n, k + p / n;
    assert n * a + o % n == n * b + p % n;
    if a < b {
      MulMonotone(a + 1, b, n);
    } else if b < a {
      MulMonotone(b + 1, a, n);
    }
  }

  lemma QuotientIs(x: nat, n: nat, d: nat, r: nat)
    requires r < n && x == d * n + r
    ensures x / n == d
  {
    DropMultiple(x, n, d);
    QuotientBelow(r, n, 1);
  }

  lemma SameQuotient(o: nat, n: nat, i: nat)
    requires n > 0 && o % n + i < n
    ensures (o + i) / n == o / n
  {
    Split(o, n);
    var d := o / n;
    assert n * d == d * n;
    QuotientIs(o + i, n, d, o % n + i);
  }

  lemma NextQuotient(o: nat, n: nat)
    requires n > 0
    ensures o / n <= (o + 1) / n <= o / n + 1
  {
    Split(o, n);
    Split(o + 1, n);
    if (o + 1) / n < o / n {
      MulMonotone((o + 1) / n + 1, o / n, n);
    } else if (o + 1) / n > o / n + 1 {
      MulMonotone(o / n + 2, (o + 1) / n, n);
    }
  }

  lemma RemainderIs(x: nat, n: nat, d: nat, r: nat)
    requires r < n && x == d * n + r
    ensures x % n == r
  {
    QuotientIs(x, n, d, r);
    Split(x, n);
    assert n * d == d * n;
  }
}

/** Bounds on an average computed exactly over the reals. */
module Averages {
  /** A total of `n` values, each between `lo` and `hi`, divided by `n` lies between them. */
  lemma AverageBetween(total: nat, n: nat, lo: nat, hi: nat)
    requires n > 0 && n * lo <= total <= n * hi
    ensures lo as real <= total as real / n as real <= hi as real
  {
    IntToRealProduct(n, lo);
    IntToRealProduct(n, hi);
    assert lo as real * n as real <= total as real;
    QuotientBetween(total as real, n as real, lo as real, hi as real);
  }

  lemma IntToRealProduct(a: nat, b: nat)
    ensures (a * b) as real == a as real * b as real
  {
  }

  lemma QuotientBetween(a: real, n: real, lo: real, hi: real)
    requires n > 0.0 && lo * n <= a <= hi * n
    ensures lo <= a / n <= hi
  {
    assert a / n - lo == (a - lo * n) / n;
    assert hi - a / n == (hi * n - a) / n;
  }
}

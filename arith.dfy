/** Facts about Euclidean division and multiplication that the solver does not find alone. */
module Arith {

  lemma MulMono(a: int, b: int, s: int)
    requires a <= b && s >= 0
    ensures a * s <= b * s
  {
    assert (b - a) * s >= 0;
  }

  /** Quotient and remainder are determined by `n == q * k + r` with `0 <= r < k`. */
  lemma DivModUnique(n: int, k: int, q: int, r: int)
    requires k > 0 && 0 <= r < k && n == q * k + r
    ensures n / k == q && n % k == r
  {
    var q', r' := n / k, n % k;
    assert (q - q') * k == r' - r;
    if q - q' >= 1 {
      assert false;
    } else if q - q' <= -1 {
      assert false;
    }
  }

  lemma MultipleHasNoRemainder(d: int, m: int)
    requires d > 0
    ensures (d * m) % d == 0
  {
    DivModUnique(d * m, d, m, 0);
  }

  lemma DividesWitness(d: int, n: int)
    requires d > 0 && n % d == 0
    ensures n == d * (n / d)
  {
  }

  /** A positive multiple of `d` is at least `d`. */
  lemma DivisorBound(d: int, n: int)
    requires d > 0 && n > 0 && n % d == 0
    ensures d <= n
  {
    DividesWitness(d, n);
    if n / d <= 0 {
      assert false;
    }
  }

  /** Counting the multiples of `k` in 1..n one step at a time. */
  lemma DivStep(n: int, k: int)
    requires n >= 1 && k >= 1
    ensures n / k == (n - 1) / k + (if n % k == 0 then 1 else 0)
  {
    var q, r := (n - 1) / k, (n - 1) % k;
    if r == k - 1 {
      DivModUnique(n, k, q + 1, 0);
    } else {
      DivModUnique(n, k, q, r + 1);
    }
  }

  /** Dafny's remainder only depends on the magnitude of the divisor. */
  lemma ModNegDivisor(n: int, k: int)
    requires k != 0
    ensures n % k == n % (if k < 0 then -k else k)
  {
    if k < 0 {
      DivModUnique(n, -k, -(n / k), n % k);
    }
  }

  /** `i` lies in block `r` of width `s` exactly when `i / s == r`. */
  lemma DivBlock(i: int, s: int, r: int)
    requires s > 0
    ensures i / s == r <==> r * s <= i < r * s + s
  {
    if r * s <= i < r * s + s {
      DivModUnique(i, s, r, i - r * s);
    }
  }
}

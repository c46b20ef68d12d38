/** Facts about Dafny's Euclidean remainder by a positive modulus, used
    for the wraparound arithmetic of the next and previous buttons. */
module Modular {

  /** `d * n >= n` for positive `d` and `n`. */
  lemma MulAtLeast(d: int, n: int)
    requires d >= 1 && n > 0
    ensures d * n >= n
  {
    if d > 1 {
      MulAtLeast(d - 1, n);
      assert d * n == (d - 1) * n + n;
    }
  }

  /** A value written as `k * n + r` with `0 <= r < n` has quotient `k`
      and remainder `r` modulo `n`. */
  lemma ModUnique(x: int, k: int, r: int, n: int)
    requires n > 0 && 0 <= r < n && x == k * n + r
    ensures x % n == r && x / n == k
  {
    var q := x / n;
    var m := x % n;
    assert x == q * n + m;
    var d := q - k;
    assert d * n == q * n - k * n;
    assert d * n == r - m;
    if d >= 1 {
      MulAtLeast(d, n);
    } else if d <= -1 {
      MulAtLeast(-d, n);
    }
  }

  /** Stepping forward once after reducing modulo `n` is the same as
      reducing the incremented value. */
  lemma SuccMod(a: int, n: int)
    requires n > 0
    ensures (a % n + 1) % n == (a + 1) % n
  {
    var q := a / n;
    var m := a % n;
    assert a == q * n + m;
    if m + 1 < n {
      ModUnique(a + 1, q, m + 1, n);
      ModUnique(m + 1, 0, m + 1, n);
    } else {
      assert (q + 1) * n == q * n + n;
      ModUnique(a + 1, q + 1, 0, n);
      ModUnique(m + 1, 1, 0, n);
    }
  }

  /** Stepping back once, the way the previous button does it, after
      reducing modulo `n` is the same as reducing the decremented value. */
  lemma PredMod(a: int, n: int)
    requires n > 0
    ensures (a % n - 1 + n) % n == (a - 1) % n
  {
    var q := a / n;
    var m := a % n;
    assert a == q * n + m;
    if m >= 1 {
      ModUnique(m - 1 + n, 1, m - 1, n);
      ModUnique(a - 1, q, m - 1, n);
    } else {
      ModUnique(m - 1 + n, 0, n - 1, n);
      assert (q - 1) * n == q * n - n;
      ModUnique(a - 1, q - 1, n - 1, n);
    }
  }
}

/** Facts about Euclidean division by a positive modulus, used by the ciphers and the key-length search. */
module Arith {
  lemma MulNonNeg(a: int, b: int)
    requires a >= 0 && b >= 0
    ensures a * b >= 0
  {
  }

  lemma MulSign(k: int, n: int)
    requires n > 0
    ensures k >= 1 ==> k * n >= n
    ensures k <= -1 ==> k * n <= -n
  {
    if k >= 1 {
      assert k * n == (k - 1) * n + n;
      MulNonNeg(k - 1, n);
    } else if k <= -1 {
      assert k * n == -((-k - 1) * n) - n;
      MulNonNeg(-k - 1, n);
    }
  }

  /** Quotient and remainder are the only such pair. */
  lemma ModUnique(a: int, q: int, r: int, n: int)
    requires n > 0 && 0 <= r < n && a == q * n + r
    ensures a % n == r && a / n == q
  {
    var k := q - a / n;
    assert k * n == q * n - (a / n) * n;
    MulSign(k, n);
  }

  lemma ModSmall(x: int, n: int)
    requires 0 <= x < n
    ensures x % n == x
  {
    ModUnique(x, 0, x, n);
  }

  lemma ModShift(x: int, n: int)
    requires 0 < n
    ensures (x + n) % n == x % n
  {
    ModUnique(x + n, x / n + 1, x % n, n);
  }

  /** Shifting by k and back by k modulo n is the identity on residues, in either order. */
  lemma AddSubMod(x: int, k: int, n: int)
    requires 0 <= x < n && 0 <= k < n
    ensures ((x + k) % n - k) % n == x
    ensures (k + (x - k) % n) % n == x
  {
    if x + k < n {
      ModSmall(x + k, n);
      ModSmall(x, n);
    } else {
      ModUnique(x + k, 1, x + k - n, n);
      ModUnique(x - n, -1, x, n);
    }
    if x >= k {
      ModSmall(x - k, n);
      ModSmall(x, n);
    } else {
      ModUnique(x - k, -1, x - k + n, n);
      ModUnique(x + n, 1, x, n);
    }
  }

  /** From one multiple of n below another, the next multiple is still at most the other. */
  lemma NextMultiple(i: int, m: int, n: int)
    requires n > 0 && i % n == 0 && m % n == 0 && i < m
    ensures i + n <= m
  {
    var k := m / n - i / n;
    assert m - i == k * n;
    MulSign(k, n);
  }
}

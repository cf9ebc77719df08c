/** Facts about Euclidean division that several modules use. */
module Arithmetic {

  /** Quotient and remainder are unique. */
  lemma DivModUnique(x: int, n: int, q: int, r: int)
    requires n > 0 && x == n * q + r && 0 <= r < n
    ensures x / n == q && x % n == r
  {
    var d := q - x / n;
    assert x == n * (x / n) + x % n;
    assert n * d == x % n - r by {
      assert n * d == n * q - n * (x / n);
    }
    assert d >= 1 ==> n * d >= n;
    assert d <= -1 ==> n * d <= n * -1;
  }

  lemma ModOfMultiple(n: int, q: int)
    requires n > 0
    ensures (n * q) % n == 0
  {
    DivModUnique(n * q, n, q, 0);
  }

  /** Subtracting `h` and reducing depends on `h` only through its remainder. */
  lemma ModOfDifference(i: int, h: int, n: int)
    requires 0 <= i < n
    ensures (i - h) % n == if h % n <= i then i - h % n else i - h % n + n
  {
    var q, r := h / n, h % n;
    assert h == n * q + r;
    if r <= i {
      assert i - h == n * -q + (i - r);
      DivModUnique(i - h, n, -q, i - r);
    } else {
      assert n * (-q - 1) == n * -q - n;
      DivModUnique(i - h, n, -q - 1, i - r + n);
    }
  }

  /** The remainder of the successor. */
  lemma ModOfSuccessor(h: int, n: int)
    requires n > 0
    ensures (h + 1) % n == if h % n == n - 1 then 0 else h % n + 1
  {
    var q, r := h / n, h % n;
    assert h == n * q + r;
    if r == n - 1 {
      assert n * (q + 1) == n * q + n;
      DivModUnique(h + 1, n, q + 1, 0);
    } else {
      DivModUnique(h + 1, n, q, r + 1);
    }
  }
}

/// Facts about Dafny's Euclidean division and remainder that the index
/// arithmetic of the window buffer and of the wind zones relies on.
module ModArith {

  lemma MulAtLeast(a: int, n: int)
    requires a >= 1 && n > 0
    ensures a * n >= n
  {
    assert a * n == n + (a - 1) * n;
  }

  /// Euclidean division is unique: a quotient and a remainder in [0, n) that
  /// recompose x are x / n and x % n.
  lemma DivModUnique(x: int, n: int, q: int, r: int)
    requires n > 0 && 0 <= r < n && x == q * n + r
    ensures x / n == q && x % n == r
  {
    var q0, r0 := x / n, x % n;
    assert x == q0 * n + r0;
    assert (q - q0) * n == r0 - r;
    if q - q0 >= 1 {
      MulAtLeast(q - q0, n);
    } else if q0 - q >= 1 {
      assert (q0 - q) * n == r - r0;
      MulAtLeast(q0 - q, n);
    }
  }

  lemma DivModSplit(x: int, n: int)
    requires n > 0
    ensures x == (x / n) * n + x % n
  {
  }

  lemma ModAddMultiple(x: int, q: int, n: int)
    requires n > 0
    ensures (x + q * n) % n == x % n
  {
    assert x == (x / n) * n + x % n;
    assert x + q * n == (x / n + q) * n + x % n;
    DivModUnique(x + q * n, n, x / n + q, x % n);
  }

  /// Two numbers whose difference is a multiple of n have the same remainder.
  lemma ModCongruent(x: int, y: int, n: int)
    requires n > 0 && (x - y) % n == 0
    ensures x % n == y % n
  {
    var q := (x - y) / n;
    assert x - y == q * n + (x - y) % n;
    assert x == y + q * n;
    ModAddMultiple(y, q, n);
  }

  /// A remainder leaves a number in [0, n) alone.
  lemma ModOfSmall(x: int, n: int)
    requires 0 <= x < n
    ensures x % n == x && x / n == 0
  {
    DivModUnique(x, n, 0, x);
  }

  /// Adding offsets from [0, n) to the same base gives distinct remainders.
  lemma ModInjective(c: int, j1: int, j2: int, n: int)
    requires n > 0 && 0 <= j1 < n && 0 <= j2 < n
    requires (c + j1) % n == (c + j2) % n
    ensures j1 == j2
  {
    var r := (c + j1) % n;
    var q1, q2 := (c + j1) / n, (c + j2) / n;
    assert c + j1 == q1 * n + r;
    assert c + j2 == q2 * n + r;
    assert (q1 - q2) * n == j1 - j2;
    if q1 - q2 >= 1 {
      MulAtLeast(q1 - q2, n);
    } else if q2 - q1 >= 1 {
      assert (q2 - q1) * n == j2 - j1;
      MulAtLeast(q2 - q1, n);
    }
  }

  lemma MulMonotone(a: int, b: int, n: int)
    requires a >= b && n > 0
    ensures a * n >= b * n
  {
    assert a * n - b * n == (a - b) * n;
  }

  /// A number below q * n has quotient below q.
  lemma DivBelow(i: int, n: int, q: int)
    requires n > 0 && 0 <= i < q * n
    ensures i / n < q
  {
    assert i == (i / n) * n + i % n;
    if i / n >= q {
      MulMonotone(i / n, q, n);
    }
  }
}

/** Small facts about products, quotients and remainders, stated one step at a time. */
module Arith {

  lemma SmallMultipleIsZero(z: int, m: int)
    requires -m < z * m < m
    ensures z == 0
  {
    if z >= 1 {
      assert false;
    } else if z <= -1 {
      assert false;
    }
  }

  lemma DivModUnique(a: int, q: int, r: int, m: int)
    requires m > 0 && 0 <= r < m && a == q * m + r
    ensures a / m == q && a % m == r
  {
    var q0, r0 := a / m, a % m;
    assert a == q0 * m + r0;
    assert (q - q0) * m == r0 - r;
    SmallMultipleIsZero(q - q0, m);
  }

  lemma ModAddMultiple(a: int, k: int, m: int)
    requires m > 0
    ensures (a + k * m) % m == a % m
  {
    var q := a / m;
    assert a == q * m + a % m;
    assert a + k * m == (q + k) * m + a % m;
    DivModUnique(a + k * m, q + k, a % m, m);
  }

  lemma ModMul(x: int, y: int, m: int)
    requires m > 0
    ensures (x % m) * y % m == x * y % m
  {
    var q := x / m;
    assert x == q * m + x % m;
    assert x * y == (x % m) * y + (q * y) * m by {
      assert (q * m + x % m) * y == (x % m) * y + (q * y) * m;
    }
    ModAddMultiple((x % m) * y, q * y, m);
  }

  lemma ExactQuotient(x: int, m: int, q: int)
    requires m > 0 && x == q * m
    ensures x % m == 0 && x / m == q
  {
    DivModUnique(x, q, 0, m);
  }

  lemma MulDistributes(a: int, b: int, c: int)
    ensures (a - b) * c == a * c - b * c
  {
  }

  lemma MulAssociates(a: int, b: int, c: int)
    ensures (a * b) * c == a * (b * c)
  {
  }

  lemma CancelFactor(a: int, b: int, m: int)
    requires m > 0 && a * m == b * m
    ensures a == b
  {
    MulDistributes(a, b, m);
    SmallMultipleIsZero(a - b, m);
  }

  lemma SumTimes(x: int, y: int, m: int)
    ensures (x + y) * m == x * m + y * m
  {
  }

  lemma MulAtMost(a: int, b: int, c: int)
    requires a <= b && c >= 0
    ensures a * c <= b * c
  {
  }
}

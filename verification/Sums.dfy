/** Finite sums of real-valued functions and vectors read with a zero default. */
module Sums {

  ghost function Sum(n: nat, f: int -> real): real {
    if n == 0 then 0.0 else Sum(n - 1, f) + f(n - 1)
  }

  lemma {:induction false} SumEqual(n: nat, f: int -> real, g: int -> real)
    requires forall i :: 0 <= i < n ==> f(i) == g(i)
    ensures Sum(n, f) == Sum(n, g)
  {
    if n != 0 {
      SumEqual(n - 1, f, g);
    }
  }

  lemma {:induction false} SumZero(n: nat, f: int -> real)
    requires forall i :: 0 <= i < n ==> f(i) == 0.0
    ensures Sum(n, f) == 0.0
  {
    if n != 0 {
      SumZero(n - 1, f);
    }
  }

  /** The sum of a pointwise linear combination is the combination of the sums. */
  lemma {:induction false} SumLinear(n: nat, f: int -> real, a: real, g: int -> real, b: real, h: int -> real)
    requires forall i :: 0 <= i < n ==> f(i) == a * g(i) + b * h(i)
    ensures Sum(n, f) == a * Sum(n, g) + b * Sum(n, h)
  {
    if n != 0 {
      SumLinear(n - 1, f, a, g, b, h);
    }
  }

  lemma {:induction false} SumNonNegative(n: nat, f: int -> real)
    requires forall i :: 0 <= i < n ==> f(i) >= 0.0
    ensures Sum(n, f) >= 0.0
    ensures Sum(n, f) == 0.0 ==> forall i :: 0 <= i < n ==> f(i) == 0.0
  {
    if n != 0 {
      SumNonNegative(n - 1, f);
    }
  }

  lemma {:induction false} SumConstant(n: nat, x: real, f: int -> real)
    requires forall i :: f(i) == x
    ensures Sum(n, f) == n as real * x
  {
    if n != 0 {
      SumConstant(n - 1, x, f);
    }
  }

  /** Only one index below n contributes. */
  lemma {:induction false} SumSingle(n: nat, f: int -> real, k: int)
    requires 0 <= k < n
    requires forall i :: 0 <= i < n && i != k ==> f(i) == 0.0
    ensures Sum(n, f) == f(k)
  {
    if k == n - 1 {
      SumZero(n - 1, f);
    } else {
      SumSingle(n - 1, f, k);
    }
  }

  /** Summing by rows or by columns gives the same total. */
  lemma {:induction false} SumSwap(m: nat, n: nat, f: (int, int) -> real)
    ensures Sum(m, i => Sum(n, j => f(i, j))) == Sum(n, j => Sum(m, i => f(i, j)))
  {
    var rows := i => Sum(n, j => f(i, j));
    var columns := j => Sum(m, i => f(i, j));
    if m == 0 {
      SumZero(n, columns);
    } else {
      var columns' := j => Sum(m - 1, i => f(i, j));
      var last := j => f(m - 1, j);
      SumSwap(m - 1, n, f);
      SumLinear(n, columns, 1.0, columns', 1.0, last);
      SumEqual(n, last, j => f(m - 1, j));
      assert Sum(m, rows) == Sum(m - 1, rows) + rows(m - 1);
    }
  }

  /** Entry i of a vector, zero outside it. */
  function At(v: seq<real>, i: int): real {
    if 0 <= i < |v| then v[i] else 0.0
  }

  function Entry(m: seq<seq<real>>, i: int, j: int): real {
    if 0 <= i < |m| then At(m[i], j) else 0.0
  }

  ghost function Dot(n: nat, u: seq<real>, v: seq<real>): real {
    Sum(n, i => At(u, i) * At(v, i))
  }
}

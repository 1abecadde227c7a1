/**
 Standardised ridge regression by the normal equations, over exact reals.

 The square root is a parameter: every result here holds for whatever nonzero scale it returns.
 */
module Ridge {
  import opened Wrappers
  import opened Sums
  import opened Solver

  datatype Error = BadShape | ZeroDeviation(column: nat) | SolverFailed

  datatype Fit = Fit(means: Vector, stds: Vector, coefficients: Vector, intercept: real)

  // ---------- what the fit is about ----------

  ghost function Mean(v: Vector): real
    requires |v| > 0
  {
    Sum(|v|, i => At(v, i)) / |v| as real
  }

  function Column(x: Matrix, j: int): Vector {
    seq(|x|, i => Entry(x, i, j))
  }

  /** Every feature minus its mean, divided by its scale. */
  function Standardized(x: Matrix, width: nat, means: Vector, stds: Vector): (z: Matrix)
    requires |means| == |stds| == width
    requires forall j :: 0 <= j < width ==> stds[j] != 0.0
    ensures Shaped(z, |x|, width)
    ensures forall i, j :: 0 <= i < |x| && 0 <= j < width ==> z[i][j] == (Entry(x, i, j) - means[j]) / stds[j]
  {
    seq(|x|, i => seq(width, j requires 0 <= j < width => (Entry(x, i, j) - means[j]) / stds[j]))
  }

  function Centered(y: Vector, center: real): (c: Vector)
    ensures |c| == |y| && forall i :: 0 <= i < |y| ==> c[i] == y[i] - center
  {
    seq(|y|, i requires 0 <= i < |y| => y[i] - center)
  }

  ghost function Squares(n: nat, v: Vector): real {
    Sum(n, i => At(v, i) * At(v, i))
  }

  /** What the model with intercept a and coefficients w leaves of target i. */
  ghost function Residual(z: Matrix, y: Vector, width: nat, a: real, w: Vector, i: int): real {
    At(y, i) - a - Prediction(z, width, w, i)
  }

  ghost function Prediction(z: Matrix, width: nat, w: Vector, i: int): real {
    Sum(width, j => Entry(z, i, j) * At(w, j))
  }

  /** The ridge loss: squared residuals plus lambda times the squared coefficients. */
  ghost function Loss(z: Matrix, y: Vector, width: nat, lambda: real, a: real, w: Vector): real {
    Sum(|y|, i => Residual(z, y, width, a, w, i) * Residual(z, y, width, a, w, i)) + lambda * Squares(width, w)
  }

  // ---------- the normal equations ----------

  ghost function Gram(z: Matrix, n: nat, j: int, k: int): real {
    Sum(n, i => Entry(z, i, j) * Entry(z, i, k))
  }

  ghost predicate Normal(m: Matrix, z: Matrix, n: nat, width: nat, lambda: real) {
    Shaped(m, width, width) &&
    forall j, k :: 0 <= j < width && 0 <= k < width ==>
      m[j][k] == Gram(z, n, j, k) + if j == k then lambda else 0.0
  }

  ghost predicate RightHandSide(r: Vector, z: Matrix, c: Vector, width: nat) {
    |r| == width && forall j :: 0 <= j < width ==> r[j] == Sum(|c|, i => Entry(z, i, j) * At(c, i))
  }

  /** Sum over samples of g(i) times the prediction of v is the sum over features of v(j) times g against column j. */
  lemma PredictionTransposes(z: Matrix, n: nat, width: nat, v: Vector, g: int -> real)
    ensures Sum(n, i => g(i) * Prediction(z, width, v, i))
         == Sum(width, j => At(v, j) * Against(z, n, g, j))
  {
    hide Sum, Entry, At, Prediction, Against;
    var f := (i: int, j: int) => g(i) * Entry(z, i, j) * At(v, j);
    SumSwap(n, width, f);
    forall i: int {
      SampleSide(z, width, v, g, i, j => f(i, j));
    }
    SumEqual(n, i => g(i) * Prediction(z, width, v, i), i => Sum(width, j => f(i, j)));
    forall j: int {
      FeatureSide(z, n, v, g, j, i => f(i, j));
    }
    SumEqual(width, j => At(v, j) * Against(z, n, g, j), j => Sum(n, i => f(i, j)));
  }

  ghost function Against(z: Matrix, n: nat, g: int -> real, j: int): real {
    Sum(n, i => g(i) * Entry(z, i, j))
  }

  lemma SampleSide(z: Matrix, width: nat, v: Vector, g: int -> real, i: int, row: int -> real)
    requires forall j :: row(j) == g(i) * Entry(z, i, j) * At(v, j)
    ensures g(i) * Prediction(z, width, v, i) == Sum(width, row)
  {
    hide Sum, Entry, At;
    SumLinear(width, row, g(i), j => Entry(z, i, j) * At(v, j), 0.0, j => 0.0);
  }

  lemma FeatureSide(z: Matrix, n: nat, v: Vector, g: int -> real, j: int, column: int -> real)
    requires forall i :: column(i) == g(i) * Entry(z, i, j) * At(v, j)
    ensures At(v, j) * Against(z, n, g, j) == Sum(n, column)
  {
    hide Sum, Entry, At;
    SumLinear(n, column, At(v, j), i => g(i) * Entry(z, i, j), 0.0, i => 0.0);
  }

  lemma AgainstColumn(z: Matrix, n: nat, j: int, k: int, g: int -> real)
    requires forall i :: g(i) == Entry(z, i, j)
    ensures Against(z, n, g, k) == Gram(z, n, j, k)
  {
    hide Sum, Entry;
    SumEqual(n, i => g(i) * Entry(z, i, k), i => Entry(z, i, j) * Entry(z, i, k));
  }

  /** A row of the normal matrix applied to v: the predictions of v against that column, plus lambda v(j). */
  lemma NormalRow(m: Matrix, z: Matrix, n: nat, width: nat, lambda: real, v: Vector, j: int)
    requires Normal(m, z, n, width, lambda) && 0 <= j < width
    ensures Against(z, n, i => Prediction(z, width, v, i), j) == Dot(width, m[j], v) - lambda * At(v, j)
  {
    hide Sum, Entry, Prediction, Against, Gram;
    var g := i => Entry(z, i, j);
    var predicted := i => Prediction(z, width, v, i);
    AgainstSwaps(z, n, predicted, g, j, i => g(i) * Prediction(z, width, v, i));
    PredictionTransposes(z, n, width, v, g);
    var diagonal := k => if k == j then lambda * At(v, j) else 0.0;
    var product := k => At(v, k) * Against(z, n, g, k);
    forall k: int | 0 <= k < width
      ensures product(k) == At(m[j], k) * At(v, k) - diagonal(k)
    {
      AgainstColumn(z, n, j, k, g);
    }
    SumLinear(width, product, 1.0, k => At(m[j], k) * At(v, k), -1.0, diagonal);
    SumSingle(width, diagonal, j);
  }

  lemma AgainstSwaps(z: Matrix, n: nat, p: int -> real, g: int -> real, j: int, both: int -> real)
    requires forall i :: g(i) == Entry(z, i, j)
    requires forall i :: both(i) == g(i) * p(i)
    ensures Against(z, n, p, j) == Sum(n, both)
  {
    hide Sum, Entry;
    SumEqual(n, i => p(i) * Entry(z, i, j), both);
  }

  // ---------- a positive lambda leaves no zero pivot ----------

  lemma SquaresVanish(n: nat, v: Vector)
    ensures Squares(n, v) >= 0.0
    ensures Squares(n, v) == 0.0 ==> forall j :: 0 <= j < n ==> At(v, j) == 0.0
  {
    hide Sum, At;
    var square := j => At(v, j) * At(v, j);
    SumNonNegative(n, square);
    if Squares(n, v) == 0.0 {
      forall j | 0 <= j < n
        ensures At(v, j) == 0.0
      {
        assert square(j) == 0.0;
        if At(v, j) != 0.0 {
          SquareIsPositive(At(v, j), square(j));
        }
      }
    }
  }

  lemma SquareIsPositive(x: real, square: real)
    requires x != 0.0 && square == x * x
    ensures square > 0.0
  {
    if x > 0.0 {
      PositiveProduct(x, x, square);
    } else {
      assert (-x) * (-x) == square;
      PositiveProduct(-x, -x, square);
    }
  }

  lemma PositiveProduct(x: real, y: real, product: real)
    requires x > 0.0 && y > 0.0 && product == x * y
    ensures product > 0.0
  {
  }

  /** For a vector the normal matrix sends to zero, squared predictions plus lambda times squares add up to zero. */
  lemma KernelEnergy(m: Matrix, z: Matrix, n: nat, width: nat, lambda: real, v: Vector)
    requires Normal(m, z, n, width, lambda)
    requires forall j :: 0 <= j < width ==> Dot(width, m[j], v) == 0.0
    ensures Sum(n, i => Prediction(z, width, v, i) * Prediction(z, width, v, i)) == -lambda * Squares(width, v)
  {
    hide Sum, Prediction, Against, Dot, At, Entry;
    var p := i => Prediction(z, width, v, i);
    SumEqual(n, i => p(i) * Prediction(z, width, v, i), i => Prediction(z, width, v, i) * Prediction(z, width, v, i));
    PredictionTransposes(z, n, width, v, p);
    forall j: int | 0 <= j < width
      ensures At(v, j) * Against(z, n, p, j) == -lambda * (At(v, j) * At(v, j))
    {
      NormalRow(m, z, n, width, lambda, v, j);
    }
    SumLinear(width, j => At(v, j) * Against(z, n, p, j), -lambda, j => At(v, j) * At(v, j), 0.0, j => 0.0);
  }

  lemma KernelIsTrivial(m: Matrix, z: Matrix, n: nat, width: nat, lambda: real, v: Vector)
    requires Normal(m, z, n, width, lambda) && lambda > 0.0
    requires Solves(m, Zeros(|m|), v)
    ensures !NonZero(v)
  {
    hide Sum, Prediction, Squares;
    KernelEnergy(m, z, n, width, lambda, v);
    SumNonNegative(n, i => Prediction(z, width, v, i) * Prediction(z, width, v, i));
    SquaresVanish(width, v);
    ProductNotPositive(lambda, Squares(width, v));
    assert forall j :: 0 <= j < |v| ==> v[j] == At(v, j);
  }

  lemma ProductNotPositive(a: real, b: real)
    requires a > 0.0 && b >= 0.0 && -a * b >= 0.0
    ensures b == 0.0
  {
    if b > 0.0 {
      assert false;
    }
  }

  lemma PositiveLambdaIsRegular(m: Matrix, z: Matrix, n: nat, width: nat, lambda: real)
    requires Normal(m, z, n, width, lambda) && lambda > 0.0
    ensures !Singular(m)
  {
    hide Normal, Solves, NonZero;
    forall v: Vector | |v| == |m| && Solves(m, Zeros(|m|), v)
      ensures !NonZero(v)
    {
      KernelIsTrivial(m, z, n, width, lambda, v);
    }
  }

  // ---------- the fitted parameters minimise the loss ----------

  ghost function ColumnTotal(z: Matrix, n: nat, j: int): real {
    Sum(n, i => Entry(z, i, j))
  }

  ghost predicate CenteredColumns(z: Matrix, n: nat, width: nat) {
    forall j :: 0 <= j < width ==> ColumnTotal(z, n, j) == 0.0
  }

  function Minus(u: Vector, v: Vector): (d: Vector)
    requires |u| == |v|
    ensures |d| == |u| && forall j :: 0 <= j < |u| ==> d[j] == u[j] - v[j]
  {
    seq(|u|, j requires 0 <= j < |u| => u[j] - v[j])
  }

  ghost function Cross(n: nat, u: Vector, v: Vector): real {
    Sum(n, j => At(u, j) * At(v, j))
  }

  /** Predictions of centred features add up to zero. */
  lemma PredictionsCancel(z: Matrix, n: nat, width: nat, v: Vector)
    requires CenteredColumns(z, n, width)
    ensures Sum(n, i => Prediction(z, width, v, i)) == 0.0
  {
    hide Sum, Prediction, At, Entry, Against, ColumnTotal;
    var one := (i: int) => 1.0;
    PredictionTransposes(z, n, width, v, one);
    SumEqual(n, i => one(i) * Prediction(z, width, v, i), i => Prediction(z, width, v, i));
    forall j: int | 0 <= j < width
      ensures At(v, j) * Against(z, n, one, j) == 0.0
    {
      AgainstOne(z, n, j, one);
    }
    SumZero(width, j => At(v, j) * Against(z, n, one, j));
  }

  lemma AgainstOne(z: Matrix, n: nat, j: int, one: int -> real)
    requires forall i :: one(i) == 1.0
    ensures Against(z, n, one, j) == ColumnTotal(z, n, j)
  {
    hide Sum, Entry;
    SumEqual(n, i => one(i) * Entry(z, i, j), i => Entry(z, i, j));
  }

  /** What a solution of the normal equations leaves is, against column j, lambda times its coefficient. */
  lemma ResidualAgainstColumn(m: Matrix, r: Vector, z: Matrix, c: Vector, width: nat, lambda: real, w: Vector,
                              residual: int -> real, j: int)
    requires Normal(m, z, |c|, width, lambda) && RightHandSide(r, z, c, width) && Solves(m, r, w)
    requires forall i :: residual(i) == At(c, i) - Prediction(z, width, w, i)
    requires 0 <= j < width
    ensures Against(z, |c|, residual, j) == lambda * At(w, j)
  {
    hide Sum, Prediction, At, Entry, Dot, Gram;
    NormalRow(m, z, |c|, width, lambda, w, j);
    SumLinear(|c|, i => residual(i) * Entry(z, i, j), 1.0, i => Entry(z, i, j) * At(c, i),
              -1.0, i => (i => Prediction(z, width, w, i))(i) * Entry(z, i, j));
  }

  /** The residuals of the fit, against the predictions of any change of coefficients. */
  lemma ResidualAgainstChange(m: Matrix, r: Vector, z: Matrix, c: Vector, width: nat, lambda: real, w: Vector,
                              residual: int -> real, change: Vector)
    requires Normal(m, z, |c|, width, lambda) && RightHandSide(r, z, c, width) && Solves(m, r, w)
    requires forall i :: residual(i) == At(c, i) - Prediction(z, width, w, i)
    ensures Sum(|c|, i => residual(i) * Prediction(z, width, change, i)) == lambda * Cross(width, change, w)
  {
    hide Sum, Prediction, At, Against, Normal, RightHandSide, Solves;
    PredictionTransposes(z, |c|, width, change, residual);
    forall j: int | 0 <= j < width
      ensures At(change, j) * Against(z, |c|, residual, j) == lambda * (At(change, j) * At(w, j))
    {
      ResidualAgainstColumn(m, r, z, c, width, lambda, w, residual, j);
    }
    SumLinear(width, j => At(change, j) * Against(z, |c|, residual, j), lambda, j => At(change, j) * At(w, j), 0.0, j => 0.0);
  }

  lemma SquaresOfChange(n: nat, u: Vector, w: Vector, change: Vector)
    requires |u| == |w| == |change| == n && change == Minus(u, w)
    ensures Squares(n, u) == Squares(n, w) + 2.0 * Cross(n, change, w) + Squares(n, change)
  {
    hide Sum;
    var both := j => At(w, j) * At(w, j) + 2.0 * (At(change, j) * At(w, j));
    SumLinear(n, both, 1.0, j => At(w, j) * At(w, j), 2.0, j => At(change, j) * At(w, j));
    forall j: int | 0 <= j < n
      ensures At(u, j) * At(u, j) == both(j) + At(change, j) * At(change, j)
    {
      assert At(u, j) == At(w, j) + At(change, j);
      SquareOfSum(At(w, j), At(change, j));
    }
    SumLinear(n, j => At(u, j) * At(u, j), 1.0, both, 1.0, j => At(change, j) * At(change, j));
  }

  lemma SquareOfSum(x: real, y: real)
    ensures (x + y) * (x + y) == x * x + 2.0 * (y * x) + y * y
  {
  }

  lemma PredictionOfChange(z: Matrix, width: nat, u: Vector, w: Vector, change: Vector, i: int)
    requires |u| == |w| == width && change == Minus(u, w)
    ensures Prediction(z, width, u, i) == Prediction(z, width, w, i) + Prediction(z, width, change, i)
  {
    hide Sum, Entry;
    forall j: int | 0 <= j < width
      ensures Entry(z, i, j) * At(u, j) == Entry(z, i, j) * At(w, j) + Entry(z, i, j) * At(change, j)
    {
      assert At(u, j) == At(w, j) + At(change, j);
    }
    SumLinear(width, j => Entry(z, i, j) * At(u, j), 1.0, j => Entry(z, i, j) * At(w, j),
              1.0, j => Entry(z, i, j) * At(change, j));
  }

  /** Sum of (r(i) - e - d(i)) squared, when r and d add up to zero and r against d is known. */
  lemma SquaredShift(n: nat, r: int -> real, d: int -> real, e: real, cross: real, shifted: int -> real)
    requires Sum(n, r) == 0.0 && Sum(n, d) == 0.0
    requires Sum(n, i => r(i) * d(i)) == cross
    requires forall i :: 0 <= i < n ==> shifted(i) == r(i) - e - d(i)
    ensures Sum(n, i => shifted(i) * shifted(i))
         == Sum(n, i => r(i) * r(i)) - 2.0 * cross + n as real * (e * e) + Sum(n, i => d(i) * d(i))
  {
    hide Sum;
    var rr, rd, dd := (i: int) => r(i) * r(i), (i: int) => r(i) * d(i), (i: int) => d(i) * d(i);
    var linear := i => (-2.0 * e) * r(i) + (2.0 * e) * d(i);
    SumLinear(n, linear, -2.0 * e, r, 2.0 * e, d);
    assert Sum(n, linear) == 0.0;
    ShiftTotals(n, rr, rd, dd, linear, e * e, i => shifted(i) * shifted(i)) by {
      forall i: int | 0 <= i < n
        ensures shifted(i) * shifted(i) == rr(i) + dd(i) + linear(i) - 2.0 * rd(i) + e * e
      {
        SquareOfShift(r(i), e, d(i));
      }
    }
    SumEqual(n, rr, i => r(i) * r(i));
    SumEqual(n, rd, i => r(i) * d(i));
    SumEqual(n, dd, i => d(i) * d(i));
  }

  lemma ShiftTotals(n: nat, rr: int -> real, rd: int -> real, dd: int -> real, linear: int -> real, c: real, total: int -> real)
    requires forall i :: 0 <= i < n ==> total(i) == rr(i) + dd(i) + linear(i) - 2.0 * rd(i) + c
    ensures Sum(n, total) == Sum(n, rr) + Sum(n, dd) + Sum(n, linear) - 2.0 * Sum(n, rd) + n as real * c
  {
    hide Sum;
    var squares := i => rr(i) + dd(i);
    SumLinear(n, squares, 1.0, rr, 1.0, dd);
    var mixed := i => linear(i) - 2.0 * rd(i);
    SumLinear(n, mixed, 1.0, linear, -2.0, rd);
    var constant := (i: int) => c;
    SumConstant(n, c, constant);
    var rest := i => mixed(i) + constant(i);
    SumLinear(n, rest, 1.0, mixed, 1.0, constant);
    SumLinear(n, total, 1.0, squares, 1.0, rest);
  }

  lemma SquareOfShift(r: real, e: real, d: real)
    ensures (r - e - d) * (r - e - d)
         == r * r + d * d + ((-2.0 * e) * r + (2.0 * e) * d) - 2.0 * (r * d) + e * e
  {
  }

  /** What one choice of (a, w) costs beyond the fitted one: never negative, and zero only there. */
  ghost function Excess(z: Matrix, n: nat, width: nat, lambda: real, e: real, change: Vector): real {
    n as real * (e * e) + Sum(n, i => Prediction(z, width, change, i) * Prediction(z, width, change, i))
      + lambda * Squares(width, change)
  }

  /** The facts the fit establishes about its own parameters. */
  ghost predicate Fitted(m: Matrix, r: Vector, z: Matrix, y: Vector, width: nat, lambda: real, intercept: real, w: Vector) {
    && Shaped(z, |y|, width) && |w| == width
    && Normal(m, z, |y|, width, lambda)
    && RightHandSide(r, z, Centered(y, intercept), width)
    && Solves(m, r, w)
    && CenteredColumns(z, |y|, width)
    && Total(Centered(y, intercept)) == 0.0
  }

  ghost function Total(v: Vector): real {
    Sum(|v|, i => At(v, i))
  }

  lemma FitResiduals(m: Matrix, r: Vector, z: Matrix, c: Vector, width: nat, lambda: real, w0: Vector,
                     residual: int -> real, change: Vector)
    requires Normal(m, z, |c|, width, lambda) && RightHandSide(r, z, c, width) && Solves(m, r, w0)
    requires CenteredColumns(z, |c|, width) && Total(c) == 0.0
    requires forall i :: residual(i) == At(c, i) - Prediction(z, width, w0, i)
    ensures Sum(|c|, residual) == 0.0
    ensures Sum(|c|, i => Prediction(z, width, change, i)) == 0.0
    ensures Sum(|c|, i => residual(i) * Prediction(z, width, change, i)) == lambda * Cross(width, change, w0)
  {
    hide Sum, Prediction, Normal, RightHandSide, Solves, CenteredColumns, Cross, At;
    PredictionsCancel(z, |c|, width, w0);
    PredictionsCancel(z, |c|, width, change);
    SumLinear(|c|, residual, 1.0, i => At(c, i), -1.0, i => Prediction(z, width, w0, i));
    ResidualAgainstChange(m, r, z, c, width, lambda, w0, residual, change);
  }

  lemma LossBySquares(z: Matrix, y: Vector, width: nat, lambda: real, a: real, w: Vector, f: int -> real)
    requires forall i :: 0 <= i < |y| ==> f(i) == Residual(z, y, width, a, w, i)
    ensures Loss(z, y, width, lambda, a, w) == Sum(|y|, i => f(i) * f(i)) + lambda * Squares(width, w)
  {
    hide Sum, Residual, Squares;
    SumEqual(|y|, i => f(i) * f(i), i => Residual(z, y, width, a, w, i) * Residual(z, y, width, a, w, i));
  }

  lemma ExcessBySquares(z: Matrix, n: nat, width: nat, lambda: real, e: real, change: Vector, f: int -> real)
    requires forall i :: 0 <= i < n ==> f(i) == Prediction(z, width, change, i)
    ensures Excess(z, n, width, lambda, e, change) ==
            n as real * (e * e) + Sum(n, i => f(i) * f(i)) + lambda * Squares(width, change)
  {
    hide Sum, Prediction, Squares;
    SumEqual(n, i => f(i) * f(i), i => Prediction(z, width, change, i) * Prediction(z, width, change, i));
  }

  lemma LossOfChange(m: Matrix, r: Vector, z: Matrix, y: Vector, width: nat, lambda: real, a0: real, w0: Vector, a: real, w: Vector)
    requires Fitted(m, r, z, y, width, lambda, a0, w0) && |w| == |w0| == width
    ensures Loss(z, y, width, lambda, a, w)
         == Loss(z, y, width, lambda, a0, w0) + Excess(z, |y|, width, lambda, a - a0, Minus(w, w0))
  {
    hide Sum, Prediction, Squares, Cross, Normal, RightHandSide, Solves, CenteredColumns, Total, Loss, Excess;
    var change := Minus(w, w0);
    var residual := i => At(Centered(y, a0), i) - Prediction(z, width, w0, i);
    var moved := i => Prediction(z, width, change, i);
    var shifted := i => Residual(z, y, width, a, w, i);
    FitResiduals(m, r, z, Centered(y, a0), width, lambda, w0, residual, change);
    var cross := lambda * Cross(width, change, w0);
    SumEqual(|y|, moved, i => Prediction(z, width, change, i));
    SumEqual(|y|, i => residual(i) * moved(i), i => residual(i) * Prediction(z, width, change, i));
    forall i: int | 0 <= i < |y|
      ensures shifted(i) == residual(i) - (a - a0) - moved(i)
      ensures residual(i) == Residual(z, y, width, a0, w0, i)
    {
      PredictionOfChange(z, width, w, w0, change, i);
    }
    SquaredShift(|y|, residual, moved, a - a0, cross, shifted);
    LossBySquares(z, y, width, lambda, a0, w0, residual);
    LossBySquares(z, y, width, lambda, a, w, shifted);
    ExcessBySquares(z, |y|, width, lambda, a - a0, change, moved);
    SquaresOfChange(width, w, w0, change);
    Distribute(lambda, Squares(width, w0), Cross(width, change, w0), Squares(width, change));
  }

  lemma Distribute(k: real, x: real, y: real, z: real)
    ensures k * (x + 2.0 * y + z) == k * x + 2.0 * (k * y) + k * z
  {
  }

  lemma ExcessIsPositive(z: Matrix, n: nat, width: nat, lambda: real, e: real, change: Vector)
    requires n > 0 && lambda > 0.0 && |change| == width
    ensures Excess(z, n, width, lambda, e, change) >= 0.0
    ensures Excess(z, n, width, lambda, e, change) == 0.0 ==> e == 0.0 && !NonZero(change)
  {
    hide Sum, Prediction;
    var predicted := i => Prediction(z, width, change, i) * Prediction(z, width, change, i);
    SumNonNegative(n, predicted);
    SumEqual(n, predicted, i => Prediction(z, width, change, i) * Prediction(z, width, change, i));
    SquaresVanish(width, change);
    assert forall j :: 0 <= j < |change| ==> change[j] == At(change, j);
    ScaledSquare(n as real, e);
    ScaledNonNegative(lambda, Squares(width, change));
  }

  lemma ScaledSquare(k: real, e: real)
    requires k > 0.0
    ensures k * (e * e) >= 0.0
    ensures k * (e * e) == 0.0 ==> e == 0.0
  {
    if e != 0.0 {
      SquareIsPositive(e, e * e);
      PositiveProduct(k, e * e, k * (e * e));
    }
  }

  lemma ScaledNonNegative(k: real, x: real)
    requires k > 0.0 && x >= 0.0
    ensures k * x >= 0.0
    ensures k * x == 0.0 ==> x == 0.0
  {
    if x > 0.0 {
      PositiveProduct(k, x, k * x);
    }
  }

  /** The fitted intercept and coefficients beat every other choice. */
  lemma FitIsTheMinimum(m: Matrix, r: Vector, z: Matrix, y: Vector, width: nat, lambda: real, a0: real, w0: Vector, a: real, w: Vector)
    requires Fitted(m, r, z, y, width, lambda, a0, w0) && |w| == |w0| == width
    requires |y| > 0 && lambda > 0.0
    ensures Loss(z, y, width, lambda, a0, w0) <= Loss(z, y, width, lambda, a, w)
    ensures Loss(z, y, width, lambda, a0, w0) == Loss(z, y, width, lambda, a, w) ==> a == a0 && w == w0
  {
    hide Loss, Excess, Fitted;
    LossOfChange(m, r, z, y, width, lambda, a0, w0, a, w);
    ExcessIsPositive(z, |y|, width, lambda, a - a0, Minus(w, w0));
    if !NonZero(Minus(w, w0)) {
      assert forall j :: 0 <= j < width ==> Minus(w, w0)[j] == 0.0;
    }
  }

  // ---------- the fit itself ----------

  ghost function Variance(v: Vector): real
    requires |v| > 0
  {
    Squares(|v|, Centered(v, Mean(v))) / |v| as real
  }

  lemma CenteringCancels(v: Vector)
    requires |v| > 0
    ensures Total(Centered(v, Mean(v))) == 0.0
  {
    var mean := Mean(v);
    var constant := (i: int) => mean;
    SumConstant(|v|, mean, constant);
    SumLinear(|v|, i => At(Centered(v, mean), i), 1.0, i => At(v, i), -1.0, constant);
    MeanTimesCount(Sum(|v|, i => At(v, i)), |v| as real);
  }

  lemma MeanTimesCount(total: real, n: real)
    requires n > 0.0
    ensures n * (total / n) == total
  {
  }

  /** A column has zero variance exactly when all its entries are equal. */
  lemma ZeroVarianceMeansConstant(v: Vector)
    requires |v| > 0
    ensures Variance(v) == 0.0 <==> forall i :: 0 <= i < |v| ==> v[i] == Mean(v)
  {
    hide Sum, Mean;
    var c := Centered(v, Mean(v));
    SquaresVanish(|v|, c);
    MeanTimesCount(Squares(|v|, c), |v| as real);
    if forall i :: 0 <= i < |v| ==> v[i] == Mean(v) {
      SumZero(|v|, i => At(c, i) * At(c, i));
      assert Squares(|v|, c) == 0.0;
    } else {
      assert Variance(v) == 0.0 ==> forall j :: 0 <= j < |v| ==> At(c, j) == 0.0;
      assert forall j :: 0 <= j < |v| ==> At(c, j) == v[j] - Mean(v);
    }
  }

  lemma StandardizedColumnsCancel(x: Matrix, width: nat, means: Vector, stds: Vector, z: Matrix)
    requires |means| == |stds| == width && |x| > 0
    requires forall j :: 0 <= j < width ==> means[j] == Mean(Column(x, j)) && stds[j] != 0.0
    requires z == Standardized(x, width, means, stds)
    ensures CenteredColumns(z, |x|, width)
  {
    hide Sum, Mean, At;
    forall j | 0 <= j < width
      ensures ColumnTotal(z, |x|, j) == 0.0
    {
      StandardizedColumn(x, width, means, stds, z, j);
    }
  }

  lemma StandardizedColumn(x: Matrix, width: nat, means: Vector, stds: Vector, z: Matrix, j: int)
    requires |means| == |stds| == width && |x| > 0 && 0 <= j < width
    requires forall j :: 0 <= j < width ==> means[j] == Mean(Column(x, j)) && stds[j] != 0.0
    requires z == Standardized(x, width, means, stds)
    ensures ColumnTotal(z, |x|, j) == 0.0
  {
    hide Sum, Mean;
    var c := Centered(Column(x, j), means[j]);
    CenteringCancels(Column(x, j));
    forall i: int | 0 <= i < |x|
      ensures Entry(z, i, j) == (1.0 / stds[j]) * At(c, i)
    {
      DivideIsScale(Entry(x, i, j) - means[j], stds[j]);
    }
    SumLinear(|x|, i => Entry(z, i, j), 1.0 / stds[j], i => At(c, i), 0.0, i => 0.0);
  }

  /** Where the scale is an exact square root, a standardized feature has mean square one. */
  lemma StandardizedHasUnitVariance(v: Vector, u: Vector, s: real)
    requires |u| == |v| > 0 && s != 0.0 && s * s == Variance(v)
    requires forall i :: 0 <= i < |v| ==> u[i] == (v[i] - Mean(v)) / s
    ensures Sum(|u|, i => At(u, i) * At(u, i)) == |u| as real
  {
    hide Sum, Mean;
    UnitSquares(Centered(v, Mean(v)), u, s);
  }

  /** Dividing centred values by their scale leaves squares that add up to their number. */
  lemma UnitSquares(c: Vector, u: Vector, s: real)
    requires |u| == |c| > 0 && s != 0.0 && s * s == Squares(|c|, c) / |c| as real
    requires forall i :: 0 <= i < |c| ==> u[i] == c[i] / s
    ensures Squares(|u|, u) == |u| as real
  {
    hide Sum;
    var n := |c|;
    NonzeroSquare(s);
    var k := 1.0 / (s * s);
    var uu, cc := (i: int) => At(u, i) * At(u, i), (i: int) => At(c, i) * At(c, i);
    forall i: int | 0 <= i < n
      ensures uu(i) == k * cc(i) + 0.0 * cc(i)
    {
      QuotientSquared(c[i], s);
    }
    SumLinear(n, uu, k, cc, 0.0, cc);
    SumEqual(n, cc, i => At(c, i) * At(c, i));
    SumEqual(n, uu, i => At(u, i) * At(u, i));
    InverseTimes(s, Squares(n, c), n as real);
  }

  lemma QuotientSquared(x: real, s: real)
    requires s != 0.0
    ensures s * s != 0.0 && (x / s) * (x / s) == (1.0 / (s * s)) * (x * x)
  {
    var q := x / s;
    assert q * s == x;
    var w := s * s;
    assert w != 0.0 by { NonzeroSquare(s); }
    assert x * x == (q * q) * w by { SwapFactors(q, s); }
    UndoScale(q * q, w);
  }

  lemma UndoScale(a: real, w: real)
    requires w != 0.0
    ensures (1.0 / w) * (a * w) == a
  {
  }

  lemma SwapFactors(q: real, s: real)
    ensures (q * s) * (q * s) == (q * q) * (s * s)
  {
  }

  lemma NonzeroSquare(s: real)
    requires s != 0.0
    ensures s * s != 0.0
  {
  }

  lemma InverseTimes(s: real, total: real, n: real)
    requires n > 0.0 && s != 0.0 && s * s == total / n
    ensures s * s != 0.0 && (1.0 / (s * s)) * total == n
  {
    NonzeroSquare(s);
    var w := s * s;
    assert total == n * w by { MeanTimesCount(total, n); }
    UndoScale(n, w);
  }

  lemma DivideIsScale(x: real, s: real)
    requires s != 0.0
    ensures x / s == (1.0 / s) * x
  {
  }

  method SumOf(values: Vector) returns (total: real)
    ensures total == Total(values)
  {
    total := 0.0;
    for i := 0 to |values|
      invariant total == Sum(i, k => At(values, k))
    {
      total := total + values[i];
    }
  }

  method MeanOf(values: Vector) returns (mean: real)
    requires |values| > 0
    ensures mean == Mean(values)
  {
    var total := SumOf(values);
    mean := total / |values| as real;
  }

  /** Mean and scale of every feature; stops at the first feature whose scale is zero. */
  method Moments(x: Matrix, width: nat, sqrt: real -> real) returns (r: Result<(Vector, Vector), Error>)
    requires |x| > 0
    ensures r.Ok? ==>
      && |r.value.0| == |r.value.1| == width
      && forall j :: 0 <= j < width ==>
        && r.value.0[j] == Mean(Column(x, j))
        && r.value.1[j] == sqrt(Variance(Column(x, j))) != 0.0
    ensures r.Err? ==>
      && r.error.ZeroDeviation? && 0 <= r.error.column < width
      && sqrt(Variance(Column(x, r.error.column))) == 0.0
      && forall j :: 0 <= j < r.error.column ==> sqrt(Variance(Column(x, j))) != 0.0
  {
    hide Mean, Squares;
    var means: Vector, stds: Vector := [], [];
    for j := 0 to width
      invariant |means| == |stds| == j
      invariant forall k :: 0 <= k < j ==> means[k] == Mean(Column(x, k))
      invariant forall k :: 0 <= k < j ==> stds[k] == sqrt(Variance(Column(x, k))) != 0.0
    {
      var column := Column(x, j);
      var mean := MeanOf(column);
      var centered := Centered(column, mean);
      var variance := MeanOf(seq(|column|, i requires 0 <= i < |column| => centered[i] * centered[i]));
      MeanOfSquares(column, centered, seq(|column|, i requires 0 <= i < |column| => centered[i] * centered[i]));
      var std := sqrt(variance);
      if std == 0.0 {
        return Err(ZeroDeviation(j));
      }
      means, stds := means + [mean], stds + [std];
    }
    r := Ok((means, stds));
  }

  lemma MeanOfSquares(v: Vector, c: Vector, squares: Vector)
    requires |v| == |squares| > 0 && c == Centered(v, Mean(v))
    requires forall i :: 0 <= i < |v| ==> squares[i] == c[i] * c[i]
    ensures Mean(squares) == Variance(v)
  {
    hide Sum;
    SumEqual(|v|, i => At(squares, i), i => At(c, i) * At(c, i));
  }

  method ProductsWithColumn(z: Matrix, j: nat, others: Vector) returns (total: real)
    requires |z| == |others|
    ensures total == Sum(|z|, i => Entry(z, i, j) * At(others, i))
  {
    hide Sum;
    var products := seq(|z|, i => Entry(z, i, j) * At(others, i));
    total := SumOf(products);
    SumEqual(|z|, i => At(products, i), i => Entry(z, i, j) * At(others, i));
  }

  /** Row j of the normal matrix: products of column j with every column, then lambda on the diagonal. */
  method NormalMatrixRow(z: Matrix, width: nat, lambda: real, j: nat) returns (row: Vector)
    requires j < width
    ensures |row| == width
    ensures forall k :: 0 <= k < width ==> row[k] == Gram(z, |z|, j, k) + if j == k then lambda else 0.0
  {
    hide Sum;
    row := Zeros(width);
    for k := 0 to width
      invariant |row| == width
      invariant forall l :: 0 <= l < k ==> row[l] == Gram(z, |z|, j, l)
    {
      var total := ProductsWithColumn(z, j, Column(z, k));
      SumEqual(|z|, i => Entry(z, i, j) * At(Column(z, k), i), i => Entry(z, i, j) * Entry(z, i, k));
      row := row[k := total];
    }
    row := row[j := row[j] + lambda];
  }

  method NormalEquations(z: Matrix, c: Vector, width: nat, lambda: real) returns (normal: Matrix, rhs: Vector)
    requires |z| == |c|
    ensures Normal(normal, z, |c|, width, lambda)
    ensures RightHandSide(rhs, z, c, width)
  {
    hide Sum, Gram;
    normal, rhs := [], [];
    for j := 0 to width
      invariant Shaped(normal, j, width) && |rhs| == j
      invariant forall k :: 0 <= k < j ==> rhs[k] == Sum(|c|, i => Entry(z, i, k) * At(c, i))
      invariant forall k, l :: 0 <= k < j && 0 <= l < width ==>
        normal[k][l] == Gram(z, |c|, k, l) + if k == l then lambda else 0.0
    {
      var total := ProductsWithColumn(z, j, c);
      var row := NormalMatrixRow(z, width, lambda, j);
      normal, rhs := normal + [row], rhs + [total];
    }
  }

  /** The fitted standardised model is the unique minimiser of the ridge loss. */
  ghost predicate Minimizes(z: Matrix, y: Vector, width: nat, lambda: real, a0: real, w0: Vector) {
    && |w0| == width
    && forall a: real, w: Vector | |w| == width ::
      && Loss(z, y, width, lambda, a0, w0) <= Loss(z, y, width, lambda, a, w)
      && (Loss(z, y, width, lambda, a0, w0) == Loss(z, y, width, lambda, a, w) ==> a == a0 && w == w0)
  }

  ghost predicate WellShaped(x: Matrix, y: Vector) {
    |x| == |y| >= 2 && |x[0]| > 0 && Shaped(x, |x|, |x[0]|)
  }

  /**
   Standardises the features, solves the centred normal equations and returns the fit.  With a
   positive lambda the solver always succeeds and the fit is the unique minimiser of the loss.
   */
  method FitRidgeMatrix(x: Matrix, y: Vector, lambda: real, sqrt: real -> real) returns (r: Result<Fit, Error>)
    ensures r.Err? && r.error.BadShape? <==> !WellShaped(x, y)
    ensures r.Err? && r.error.ZeroDeviation? ==>
      WellShaped(x, y) && 0 <= r.error.column < |x[0]| && sqrt(Variance(Column(x, r.error.column))) == 0.0
    ensures r.Ok? ==> forall j :: 0 <= j < |x[0]| ==> sqrt(Variance(Column(x, j))) != 0.0
    ensures lambda > 0.0 ==> !(r.Err? && r.error.SolverFailed?)
    ensures r.Ok? ==>
      && |r.value.means| == |r.value.stds| == |x[0]|
      && r.value.intercept == Mean(y)
      && forall j :: 0 <= j < |x[0]| ==>
        r.value.means[j] == Mean(Column(x, j)) && r.value.stds[j] == sqrt(Variance(Column(x, j))) != 0.0
    ensures r.Ok? && lambda > 0.0 ==>
      Minimizes(Standardized(x, |x[0]|, r.value.means, r.value.stds), y, |x[0]|, lambda, r.value.intercept, r.value.coefficients)
  {
    hide Sum, Mean, Squares, Normal, RightHandSide, Minimizes, Variance, Standardized;
    if |x| != |y| || |x| < 2 {
      return Err(BadShape);
    }
    var width := |x[0]|;
    if width == 0 || exists i :: 0 <= i < |x| && |x[i]| != width {
      return Err(BadShape);
    }
    var moments := Moments(x, width, sqrt);
    if moments.Err? {
      return Err(moments.error);
    }
    var (means, stds) := moments.value;
    var z := Standardized(x, width, means, stds);
    var intercept := MeanOf(y);
    var c := Centered(y, intercept);
    var normal, rhs := NormalEquations(z, c, width, lambda);
    NormalIsSquare(normal, z, |c|, width, lambda, rhs, c);
    var solved := Solve(normal, rhs);
    if lambda > 0.0 {
      PositiveLambdaIsRegular(normal, z, |c|, width, lambda);
    }
    if solved.Err? {
      return Err(SolverFailed);
    }
    var coefficients := solved.value;
    CenteringCancels(y);
    StandardizedColumnsCancel(x, width, means, stds, z);
    SolutionIsTheFit(normal, rhs, z, y, width, lambda, intercept, coefficients);
    r := Ok(Fit(means, stds, coefficients, intercept));
  }

  lemma NormalIsSquare(m: Matrix, z: Matrix, n: nat, width: nat, lambda: real, rhs: Vector, c: Vector)
    requires Normal(m, z, n, width, lambda) && RightHandSide(rhs, z, c, width)
    ensures Shaped(m, width, width) && |rhs| == width
  {
  }

  lemma SolutionIsTheFit(m: Matrix, r: Vector, z: Matrix, y: Vector, width: nat, lambda: real, a0: real, w0: Vector)
    requires |y| > 0 && Shaped(z, |y|, width) && Normal(m, z, |y|, width, lambda)
    requires RightHandSide(r, z, Centered(y, a0), width) && Solves(m, r, w0)
    requires CenteredColumns(z, |y|, width) && Total(Centered(y, a0)) == 0.0
    ensures lambda > 0.0 ==> Minimizes(z, y, width, lambda, a0, w0)
  {
    hide Loss, Sum;
    if lambda > 0.0 {
      assert |w0| == width;
      forall a: real, w: Vector | |w| == width
        ensures Loss(z, y, width, lambda, a0, w0) <= Loss(z, y, width, lambda, a, w)
        ensures Loss(z, y, width, lambda, a0, w0) == Loss(z, y, width, lambda, a, w) ==> a == a0 && w == w0
      {
        FitIsTheMinimum(m, r, z, y, width, lambda, a0, w0, a, w);
      }
    }
  }
}

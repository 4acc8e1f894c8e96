/** Least squares for a design matrix given by its columns. */
module LeastSquares {
  import opened LinearAlgebra

  /** n columns, one per feature, with one entry per data point. */
  ghost predicate IsDesign(cols: seq<Vector>, m: nat) {
    forall j :: 0 <= j < |cols| ==> |cols[j]| == m
  }

  /** The sum of the columns weighted by c. */
  function Fitted(cols: seq<Vector>, m: nat, c: Vector): (v: Vector)
    requires IsDesign(cols, m) && |c| <= |cols|
    ensures |v| == m
  {
    if |c| == 0 then Zeros(m)
    else AddScaled(Fitted(cols, m, c[..|c| - 1]), c[|c| - 1], cols[|c| - 1])
  }

  function Residuals(cols: seq<Vector>, t: Vector, c: Vector): (r: Vector)
    requires IsDesign(cols, |t|) && |c| <= |cols|
    ensures |r| == |t|
  {
    AddScaled(Fitted(cols, |t|, c), -1.0, t)
  }

  /** What the fit is to minimise. */
  function SumSquares(cols: seq<Vector>, t: Vector, c: Vector): real
    requires IsDesign(cols, |t|) && |c| <= |cols|
  {
    Dot(Residuals(cols, t, c), Residuals(cols, t, c))
  }

  /** a*c = b are the normal equations of the fit. */
  ghost predicate IsNormal(cols: seq<Vector>, t: Vector, a: Matrix, b: Vector)
    requires IsDesign(cols, |t|)
  {
    && IsMatrix(a, |cols|) && |b| == |cols|
    && (forall i, j :: 0 <= i < |cols| && 0 <= j < |cols| ==> a[i][j] == Dot(cols[i], cols[j]))
    && (forall i :: 0 <= i < |cols| ==> b[i] == Dot(cols[i], t))
  }

  lemma {:induction false} DotFitted(cols: seq<Vector>, m: nat, c: Vector, u: Vector, row: Vector)
    requires IsDesign(cols, m) && |c| <= |cols| && |u| == m && |row| == |c|
    requires forall j :: 0 <= j < |c| ==> row[j] == Dot(u, cols[j])
    ensures Dot(u, Fitted(cols, m, c)) == Dot(row, c)
  {
    if |c| == 0 {
      DotSymmetric(u, Zeros(m));
      DotZeros(u);
    } else {
      var k := |c| - 1;
      DotFitted(cols, m, c[..k], u, row[..k]);
      DotSymmetric(u, Fitted(cols, m, c));
      DotAddScaled(Fitted(cols, m, c[..k]), c[k], cols[k], u);
      DotSymmetric(u, Fitted(cols, m, c[..k]));
      DotSymmetric(u, cols[k]);
    }
  }

  lemma {:induction false} FittedSum(cols: seq<Vector>, m: nat, c: Vector, d: Vector)
    requires IsDesign(cols, m) && |c| == |d| <= |cols|
    ensures Fitted(cols, m, AddScaled(c, 1.0, d)) == AddScaled(Fitted(cols, m, c), 1.0, Fitted(cols, m, d))
  {
    if |c| > 0 {
      var k := |c| - 1;
      FittedSum(cols, m, c[..k], d[..k]);
      assert AddScaled(c, 1.0, d)[..k] == AddScaled(c[..k], 1.0, d[..k]);
      var u, v := Fitted(cols, m, c[..k]), Fitted(cols, m, d[..k]);
      AddScaledTwice(u, v, c[k], d[k], cols[k]);
    }
  }

  lemma AddScaledTwice(u: Vector, v: Vector, p: real, q: real, w: Vector)
    requires |u| == |v| == |w|
    ensures AddScaled(AddScaled(u, 1.0, v), p + q, w) == AddScaled(AddScaled(u, p, w), 1.0, AddScaled(v, q, w))
  {
    forall i | 0 <= i < |u|
      ensures AddScaled(AddScaled(u, 1.0, v), p + q, w)[i] == AddScaled(AddScaled(u, p, w), 1.0, AddScaled(v, q, w))[i]
    {
      assert (p + q) * w[i] == p * w[i] + q * w[i];
    }
  }

  /** |r + q|^2 = |r|^2 + 2 r.q + |q|^2. */
  lemma DotSquare(r: Vector, q: Vector)
    requires |r| == |q|
    ensures Dot(AddScaled(r, 1.0, q), AddScaled(r, 1.0, q)) == Dot(r, r) + 2.0 * Dot(r, q) + Dot(q, q)
  {
    hide Dot, AddScaled;
    var s := AddScaled(r, 1.0, q);
    DotAddScaled(r, 1.0, q, s);
    DotSymmetric(r, s);
    DotSymmetric(q, s);
    DotAddScaled(r, 1.0, q, r);
    DotAddScaled(r, 1.0, q, q);
    DotSymmetric(r, q);
  }

  lemma PositiveProduct(u: real, v: real) returns (m: real)
    requires (u > 0.0 && v > 0.0) || (u < 0.0 && v < 0.0)
    ensures m == u * v && m > 0.0
  {
    m := u * v;
  }

  lemma SumWithSquare(s: real, u: real)
    requires s >= 0.0
    ensures s + u * u >= 0.0
    ensures s + u * u == 0.0 ==> s == 0.0 && u == 0.0
  {
    if u != 0.0 {
      var m := PositiveProduct(u, u);
    }
  }

  lemma {:induction false} DotSelf(q: Vector)
    ensures Dot(q, q) >= 0.0
    ensures Dot(q, q) == 0.0 ==> q == Zeros(|q|)
  {
    if |q| > 0 {
      var k := |q| - 1;
      DotSelf(q[..k]);
      SumWithSquare(Dot(q[..k], q[..k]), q[k]);
      assert Dot(q, q) == Dot(q[..k], q[..k]) + q[k] * q[k];
      if Dot(q, q) == 0.0 {
        assert q[..k] == Zeros(k);
        forall i | 0 <= i < |q| ensures q[i] == Zeros(|q|)[i] {
          if i < k {
            assert q[i] == q[..k][i];
          }
        }
        assert q == Zeros(|q|);
      }
    }
  }

  /** c solves the normal equations exactly when the residuals are orthogonal to every column. */
  lemma NormalIffOrthogonal(cols: seq<Vector>, t: Vector, a: Matrix, b: Vector, c: Vector, i: nat)
    requires IsDesign(cols, |t|) && IsNormal(cols, t, a, b) && |c| == |cols| && i < |cols|
    ensures RowHolds(a, b, c, i) <==> Dot(cols[i], Residuals(cols, t, c)) == 0.0
  {
    var fitted := Fitted(cols, |t|, c);
    DotFitted(cols, |t|, c, cols[i], a[i]);
    DotSymmetric(cols[i], Residuals(cols, t, c));
    DotAddScaled(fitted, -1.0, t, cols[i]);
    DotSymmetric(cols[i], fitted);
    DotSymmetric(cols[i], t);
  }

  lemma ResidualsShift(cols: seq<Vector>, t: Vector, c: Vector, d: Vector)
    requires IsDesign(cols, |t|) && |c| == |d| <= |cols|
    ensures Residuals(cols, t, AddScaled(c, 1.0, d)) == AddScaled(Residuals(cols, t, c), 1.0, Fitted(cols, |t|, d))
  {
    FittedSum(cols, |t|, c, d);
  }

  /** Away from a solution of the normal equations the sum of squares grows by |X*d|^2. */
  lemma ShiftedSumSquares(cols: seq<Vector>, t: Vector, a: Matrix, b: Vector, c: Vector, d: Vector)
    requires IsDesign(cols, |t|) && IsNormal(cols, t, a, b) && |c| == |d| == |cols|
    requires Solves(a, b, c)
    ensures SumSquares(cols, t, AddScaled(c, 1.0, d))
            == SumSquares(cols, t, c) + Dot(Fitted(cols, |t|, d), Fitted(cols, |t|, d))
  {
    ResidualsShift(cols, t, c, d);
    OrthogonalToFitted(cols, t, a, b, c, d);
    DotSquare(Residuals(cols, t, c), Fitted(cols, |t|, d));
  }

  lemma Difference(c: Vector, y: Vector) returns (d: Vector)
    requires |c| == |y|
    ensures |d| == |c| && AddScaled(c, 1.0, d) == y
  {
    d := AddScaled(y, -1.0, c);
  }

  /** The only solution of the normal equations is the unique minimiser of the sum of squares. */
  lemma NormalSolutionIsUniqueMinimum(cols: seq<Vector>, t: Vector, a: Matrix, b: Vector, c: Vector, y: Vector)
    requires IsDesign(cols, |t|) && IsNormal(cols, t, a, b) && |c| == |y| == |cols| && y != c
    requires forall z: Vector :: |z| == |cols| ==> (Solves(a, b, z) <==> z == c)
    ensures SumSquares(cols, t, c) < SumSquares(cols, t, y)
  {
    var d := Difference(c, y);
    var q := Fitted(cols, |t|, d);
    ShiftedSumSquares(cols, t, a, b, c, d);
    DotSelf(q);
    if Dot(q, q) == 0.0 {
      ResidualsShift(cols, t, c, d);
      AddZeros(Residuals(cols, t, c));
      SameResidualsSolve(cols, t, a, b, c, y);
    }
  }

  lemma AddZeros(r: Vector)
    ensures AddScaled(r, 1.0, Zeros(|r|)) == r
  {
  }

  lemma SameResidualsSolve(cols: seq<Vector>, t: Vector, a: Matrix, b: Vector, c: Vector, y: Vector)
    requires IsDesign(cols, |t|) && IsNormal(cols, t, a, b) && |c| == |y| == |cols|
    requires Residuals(cols, t, y) == Residuals(cols, t, c) && Solves(a, b, c)
    ensures Solves(a, b, y)
  {
    forall i | 0 <= i < |cols| ensures RowHolds(a, b, y, i) {
      NormalIffOrthogonal(cols, t, a, b, c, i);
      NormalIffOrthogonal(cols, t, a, b, y, i);
      assert RowHolds(a, b, c, i);
    }
  }

  lemma OrthogonalToFitted(cols: seq<Vector>, t: Vector, a: Matrix, b: Vector, c: Vector, d: Vector)
    requires IsDesign(cols, |t|) && IsNormal(cols, t, a, b) && |c| == |d| == |cols|
    requires Solves(a, b, c)
    ensures Dot(Residuals(cols, t, c), Fitted(cols, |t|, d)) == 0.0
  {
    var r := Residuals(cols, t, c);
    forall j | 0 <= j < |d| ensures Zeros(|d|)[j] == Dot(r, cols[j]) {
      NormalIffOrthogonal(cols, t, a, b, c, j);
      assert RowHolds(a, b, c, j);
      DotSymmetric(r, cols[j]);
    }
    DotFitted(cols, |t|, d, r, Zeros(|d|));
    DotZeros(d);
  }
}

/** fitModel: least squares through the normal equations, for any feature function. */
module TorqueFit {
  import opened LinearAlgebra
  import opened LinearSolver
  import opened LeastSquares

  datatype PointResult = PointResult(posMean: real, torqueMean: real)

  type Feature = (PointResult, nat) -> real

  /** `meanSquare` is the square of the source's rmse; an infinite rmse is Infinite. */
  datatype Error = Infinite | MeanSquare(value: real)

  datatype FitResult = FitResult(coeffs: Vector, error: Error)

  function Column(f: Feature, points: seq<PointResult>, j: nat): (v: Vector)
    ensures |v| == |points|
  {
    seq(|points|, k requires 0 <= k < |points| => f(points[k], j))
  }

  function Design(f: Feature, points: seq<PointResult>, n: nat): (cols: seq<Vector>)
    ensures |cols| == n && IsDesign(cols, |points|)
  {
    seq(n, j requires 0 <= j < n => Column(f, points, j))
  }

  function Torques(points: seq<PointResult>): (v: Vector)
    ensures |v| == |points|
  {
    seq(|points|, k requires 0 <= k < |points| => points[k].torqueMean)
  }

  /** One more point adds one product to the moment of two columns. */
  lemma ColumnGrows(f: Feature, points: seq<PointResult>, k: nat, i: nat, j: nat)
    requires k < |points|
    ensures Dot(Column(f, points[..k + 1], i), Column(f, points[..k + 1], j))
            == Dot(Column(f, points[..k], i), Column(f, points[..k], j)) + f(points[k], i) * f(points[k], j)
  {
    assert Column(f, points[..k + 1], i)[..k] == Column(f, points[..k], i);
    assert Column(f, points[..k + 1], j)[..k] == Column(f, points[..k], j);
  }

  lemma MomentGrows(f: Feature, points: seq<PointResult>, k: nat, i: nat)
    requires k < |points|
    ensures Dot(Column(f, points[..k + 1], i), Torques(points[..k + 1]))
            == Dot(Column(f, points[..k], i), Torques(points[..k])) + f(points[k], i) * points[k].torqueMean
  {
    assert Column(f, points[..k + 1], i)[..k] == Column(f, points[..k], i);
    assert Torques(points[..k + 1])[..k] == Torques(points[..k]);
  }

  /** Row i of the accumulated equations covers the first k points. */
  ghost predicate Accumulated(f: Feature, points: seq<PointResult>, k: nat, row: Vector, moment: real, i: nat)
    requires k <= |points|
  {
    && (forall j :: 0 <= j < |row| ==> row[j] == Dot(Column(f, points[..k], i), Column(f, points[..k], j)))
    && moment == Dot(Column(f, points[..k], i), Torques(points[..k]))
  }

  /** The innermost loop: adds one point to one row. */
  method AddPoint(f: Feature, points: seq<PointResult>, k: nat, row: Vector, moment: real, i: nat)
    returns (newRow: Vector, newMoment: real)
    requires k < |points| && Accumulated(f, points, k, row, moment, i)
    ensures |newRow| == |row| && Accumulated(f, points, k + 1, newRow, newMoment, i)
  {
    var p := points[k];
    var fi := f(p, i);
    newMoment := moment + fi * p.torqueMean;
    MomentGrows(f, points, k, i);
    newRow := row;
    for j := 0 to |row|
      invariant |newRow| == |row|
      invariant forall s :: j <= s < |row| ==> newRow[s] == row[s]
      invariant forall s :: 0 <= s < j ==>
                  newRow[s] == Dot(Column(f, points[..k + 1], i), Column(f, points[..k + 1], s))
    {
      ColumnGrows(f, points, k, i, j);
      newRow := newRow[j := newRow[j] + fi * f(p, j)];
    }
  }

  method NormalEquations(points: seq<PointResult>, n: nat, f: Feature) returns (normal: Matrix, rhs: Vector)
    ensures IsNormal(Design(f, points, n), Torques(points), normal, rhs)
  {
    normal := seq(n, _ => Zeros(n));
    rhs := Zeros(n);
    for k := 0 to |points|
      invariant IsMatrix(normal, n) && |rhs| == n
      invariant forall i :: 0 <= i < n ==> Accumulated(f, points, k, normal[i], rhs[i], i)
    {
      for i := 0 to n
        invariant IsMatrix(normal, n) && |rhs| == n
        invariant forall r :: 0 <= r < i ==> Accumulated(f, points, k + 1, normal[r], rhs[r], r)
        invariant forall r :: i <= r < n ==> Accumulated(f, points, k, normal[r], rhs[r], r)
      {
        var row, moment := AddPoint(f, points, k, normal[i], rhs[i], i);
        normal, rhs := normal[i := row], rhs[i := moment];
      }
    }
    assert points[..|points|] == points;
    forall i | 0 <= i < n
      ensures Accumulated(f, points, |points|, normal[i], rhs[i], i)
    {
    }
  }

  /** The prediction for point k is entry k of the weighted sum of the columns. */
  lemma {:induction false} PredictionIsFitted(f: Feature, points: seq<PointResult>, n: nat, c: Vector, k: nat)
    requires |c| <= n && k < |points|
    ensures Fitted(Design(f, points, n), |points|, c)[k] == Predict(f, points[k], c)
  {
    if |c| > 0 {
      PredictionIsFitted(f, points, n, c[..|c| - 1], k);
    }
  }

  function Predict(f: Feature, p: PointResult, c: Vector): real {
    if |c| == 0 then 0.0 else Predict(f, p, c[..|c| - 1]) + c[|c| - 1] * f(p, |c| - 1)
  }

  method PredictTorque(f: Feature, p: PointResult, c: Vector) returns (pred: real)
    ensures pred == Predict(f, p, c)
  {
    pred := 0.0;
    for i := 0 to |c|
      invariant pred == Predict(f, p, c[..i])
    {
      assert c[..i + 1][..i] == c[..i];
      pred := pred + c[i] * f(p, i);
    }
    assert c[..|c|] == c;
  }

  function ErrorAt(f: Feature, p: PointResult, c: Vector): real {
    Predict(f, p, c) - p.torqueMean
  }

  lemma ErrorIsResidual(points: seq<PointResult>, c: Vector, f: Feature, k: nat)
    requires k < |points|
    ensures Residuals(Design(f, points, |c|), Torques(points), c)[k] == ErrorAt(f, points[k], c)
  {
    PredictionIsFitted(f, points, |c|, c, k);
  }

  lemma DotStep(r: Vector, k: nat)
    requires k < |r|
    ensures Dot(r[..k + 1], r[..k + 1]) == Dot(r[..k], r[..k]) + r[k] * r[k]
  {
    assert r[..k + 1][..k] == r[..k];
  }

  lemma DotNothing()
    ensures Dot([], []) == 0.0
  {
  }

  method MeasureError(points: seq<PointResult>, c: Vector, f: Feature) returns (sumSq: real)
    ensures sumSq == SumSquares(Design(f, points, |c|), Torques(points), c)
  {
    hide Residuals, Dot, Predict;
    DotNothing();
    ghost var r := Residuals(Design(f, points, |c|), Torques(points), c);
    sumSq := 0.0;
    assert r[..0] == [];
    for k := 0 to |points|
      invariant sumSq == Dot(r[..k], r[..k])
    {
      var pred := PredictTorque(f, points[k], c);
      var error := pred - points[k].torqueMean;
      ErrorIsResidual(points, c, f, k);
      DotStep(r, k);
      sumSq := sumSq + error * error;
    }
    assert r[..|points|] == r;
  }

  /** c beats every other coefficient vector. */
  ghost predicate IsUniqueMinimum(f: Feature, points: seq<PointResult>, c: Vector) {
    forall y: Vector :: |y| == |c| && y != c ==>
      SumSquares(Design(f, points, |c|), Torques(points), c) < SumSquares(Design(f, points, |c|), Torques(points), y)
  }

  /** The features up to `col`, weighted by v with weight 1 on `col` itself, nearly cancel: their sum
      has a product below the pivot limit with every feature. */
  ghost predicate NearlyCancel(f: Feature, points: seq<PointResult>, n: nat, v: Vector, col: nat) {
    && |v| == n && col < n && v[col] == 1.0 && (forall j :: col < j < n ==> v[j] == 0.0)
    && forall i :: 0 <= i < n ==>
         Abs(Dot(Column(f, points, i), Fitted(Design(f, points, n), |points|, v))) < PIVOT_LIMIT
  }

  ghost predicate IsDegenerate(f: Feature, points: seq<PointResult>, n: nat) {
    exists v: Vector, col: nat :: NearlyCancel(f, points, n, v, col)
  }

  lemma FailureMeansDegenerate(f: Feature, points: seq<PointResult>, n: nat, a: Matrix, b: Vector, v: Vector, col: nat)
    requires IsNormal(Design(f, points, n), Torques(points), a, b) && NearlyDependent(a, n, v, col)
    ensures NearlyCancel(f, points, n, v, col)
  {
    var cols := Design(f, points, n);
    forall i | 0 <= i < n ensures Abs(Dot(Column(f, points, i), Fitted(cols, |points|, v))) < PIVOT_LIMIT {
      DotFitted(cols, |points|, v, cols[i], a[i]);
    }
  }

  function SumAbs(v: Vector): real {
    if |v| == 0 then 0.0 else SumAbs(v[..|v| - 1]) + Abs(v[|v| - 1])
  }

  lemma ProductBelow(x: real, y: real, limit: real)
    requires Abs(x) <= limit
    ensures x * y <= limit * Abs(y)
  {
    if y >= 0.0 {
      assert (limit - x) * y >= 0.0;
    } else {
      assert (limit + x) * (-y) >= 0.0;
    }
  }

  lemma {:induction false} DotBelow(row: Vector, v: Vector, limit: real)
    requires |row| == |v| && forall j :: 0 <= j < |row| ==> Abs(row[j]) <= limit
    ensures Dot(row, v) <= limit * SumAbs(v)
  {
    if |v| > 0 {
      var k := |v| - 1;
      DotBelow(row[..k], v[..k], limit);
      ProductBelow(row[k], v[k], limit);
      assert limit * (SumAbs(v[..k]) + Abs(v[k])) == limit * SumAbs(v[..k]) + limit * Abs(v[k]);
    }
  }

  /** What a failed fit says about the data: that combination of the features, a nonzero one, is itself
      small over all points. */
  lemma DegenerateFeaturesAreSmall(f: Feature, points: seq<PointResult>, n: nat, v: Vector, col: nat)
    requires NearlyCancel(f, points, n, v, col)
    ensures var q := Fitted(Design(f, points, n), |points|, v); Dot(q, q) <= PIVOT_LIMIT * SumAbs(v)
  {
    hide Dot, Fitted, SumAbs, Abs;
    var cols := Design(f, points, n);
    assert forall j :: 0 <= j < n ==> cols[j] == Column(f, points, j);
    hide Design, Column;
    var q := Fitted(cols, |points|, v);
    var row := Products(cols, q);
    DotFitted(cols, |points|, v, q, row);
    forall j | 0 <= j < n ensures Abs(row[j]) <= PIVOT_LIMIT {
      DotSymmetric(q, Column(f, points, j));
    }
    DotBelow(row, v, PIVOT_LIMIT);
  }

  function Products(cols: seq<Vector>, q: Vector): (row: Vector)
    requires IsDesign(cols, |q|)
    ensures |row| == |cols| && forall j :: 0 <= j < |row| ==> row[j] == Dot(q, cols[j])
  {
    seq(|cols|, j requires 0 <= j < |cols| => Dot(q, cols[j]))
  }

  /** Features that cancel exactly never fit: the coefficients of a fit that succeeds are the only ones
      with their residuals. */
  lemma FittedFeaturesIndependent(f: Feature, points: seq<PointResult>, c: Vector, w: Vector)
    requires IsUniqueMinimum(f, points, c) && |w| == |c|
    requires Fitted(Design(f, points, |c|), |points|, w) == Zeros(|points|)
    ensures w == Zeros(|c|)
  {
    hide Dot, Fitted, AddScaled, Residuals;
    var cols, t, y := Design(f, points, |c|), Torques(points), AddScaled(c, 1.0, w);
    ResidualsShift(cols, t, c, w);
    AddZeros(Residuals(cols, t, c));
    assert SumSquares(cols, t, y) == SumSquares(cols, t, c);
    NoShift(c, w);
  }

  lemma NoShift(c: Vector, w: Vector)
    requires |w| == |c|
    ensures AddScaled(c, 1.0, w) == c ==> w == Zeros(|c|)
  {
    var y := AddScaled(c, 1.0, w);
    if y == c {
      forall i | 0 <= i < |w| ensures w[i] == 0.0 {
        assert y[i] == c[i] + 1.0 * w[i];
      }
    }
  }

  lemma SolverResultIsMinimum(f: Feature, points: seq<PointResult>, a: Matrix, b: Vector, c: Vector)
    requires IsNormal(Design(f, points, |c|), Torques(points), a, b)
    requires forall z: Vector :: |z| == |c| ==> (Solves(a, b, z) <==> z == c)
    ensures IsUniqueMinimum(f, points, c)
  {
    var cols, t := Design(f, points, |c|), Torques(points);
    forall y: Vector | |y| == |c| && y != c ensures SumSquares(cols, t, c) < SumSquares(cols, t, y) {
      NormalSolutionIsUniqueMinimum(cols, t, a, b, c, y);
    }
  }

  ghost predicate IsMeanSquare(f: Feature, points: seq<PointResult>, c: Vector, mean: real) {
    if |points| == 0 then mean == 0.0
    else mean * |points| as real == SumSquares(Design(f, points, |c|), Torques(points), c)
  }

  method MeanOf(sum: real, count: real) returns (mean: real)
    requires count > 0.0
    ensures mean * count == sum
  {
    mean := sum / count;
  }

  method Report(points: seq<PointResult>, coeffs: Vector, f: Feature) returns (result: FitResult)
    ensures result.error.MeanSquare? && result.coeffs == coeffs
    ensures IsMeanSquare(f, points, coeffs, result.error.value)
  {
    var sumSq := MeasureError(points, coeffs, f);
    var mean := 0.0;
    if |points| != 0 {
      mean := MeanOf(sumSq, |points| as real);
    }
    result := FitResult(coeffs, MeanSquare(mean));
  }

  /** The coefficients beat every other coefficient vector, unless the solver gave up: then some
      features nearly cancel. */
  method FitModel(points: seq<PointResult>, featureCount: nat, f: Feature) returns (result: FitResult)
    ensures result.error.Infinite? ==> result.coeffs == [] && IsDegenerate(f, points, featureCount)
    ensures result.error.MeanSquare? ==> |result.coeffs| == featureCount && IsUniqueMinimum(f, points, result.coeffs)
    ensures result.error.MeanSquare? ==> IsMeanSquare(f, points, result.coeffs, result.error.value)
  {
    var normal, rhs := NormalEquations(points, featureCount, f);
    var ok, coeffs := SolveLinearSystem(normal, rhs);
    if !ok {
      ghost var v: Vector, col: nat :| NearlyDependent(normal, featureCount, v, col);
      FailureMeansDegenerate(f, points, featureCount, normal, rhs, v, col);
      return FitResult([], Infinite);
    }
    SolverResultIsMinimum(f, points, normal, rhs, coeffs);
    result := Report(points, coeffs, f);
  }
}

/** Linear algebra over the reals, as far as the torque fit needs it. */
module LinearAlgebra {
  type Vector = seq<real>
  type Matrix = seq<Vector>

  ghost predicate IsMatrix(a: Matrix, n: nat) {
    |a| == n && forall i :: 0 <= i < n ==> |a[i]| == n
  }

  function Dot(u: Vector, v: Vector): real
    requires |u| == |v|
  {
    if |u| == 0 then 0.0 else Dot(u[..|u| - 1], v[..|u| - 1]) + u[|u| - 1] * v[|u| - 1]
  }

  /** Row i of a*x = b. */
  ghost predicate RowHolds(a: Matrix, b: Vector, x: Vector, i: nat)
    requires i < |a| && i < |b| && |a[i]| == |x|
  {
    Dot(a[i], x) == b[i]
  }

  ghost predicate Solves(a: Matrix, b: Vector, x: Vector) {
    IsMatrix(a, |x|) && |b| == |x| && forall i :: 0 <= i < |x| ==> RowHolds(a, b, x, i)
  }

  /** u + k*v, entry by entry. */
  function AddScaled(u: Vector, k: real, v: Vector): (w: Vector)
    requires |u| == |v|
    ensures |w| == |u| && forall i :: 0 <= i < |u| ==> w[i] == u[i] + k * v[i]
  {
    seq(|u|, i requires 0 <= i < |u| => u[i] + k * v[i])
  }

  lemma AddScaledPrefix(u: Vector, k: real, v: Vector, n: nat)
    requires |u| == |v| && n <= |u|
    ensures AddScaled(u, k, v)[..n] == AddScaled(u[..n], k, v[..n])
  {
    var x, y := AddScaled(u, k, v)[..n], AddScaled(u[..n], k, v[..n]);
    assert |x| == |y| && forall i :: 0 <= i < n ==> x[i] == y[i];
  }

  /** The last step of a sum of products. */
  /** A product that the proofs below treat as one number. */
  function Times(x: real, y: real): real {
    x * y
  }

  /** The last step of a sum of products. */
  lemma LastTerm(p: real, q: real, k: real, a: real, b: real, e: real, c: real, s: real, t: real, w: real)
    requires s == p + Times(a, c) && t == q + Times(b, c) && e == a + k * b && w == p + Times(k, q) + Times(e, c)
    ensures w == s + Times(k, t)
  {
    assert e * c == a * c + k * (b * c);
    assert k * t == k * q + k * (b * c);
  }

  lemma DotLast(u: Vector, v: Vector)
    requires |u| == |v| > 0
    ensures var n := |u| - 1; Dot(u, v) == Dot(u[..n], v[..n]) + Times(u[n], v[n])
  {
  }

  lemma {:induction false} DotAddScaledTimes(u: Vector, k: real, v: Vector, x: Vector)
    requires |u| == |v| == |x|
    ensures Dot(AddScaled(u, k, v), x) == Dot(u, x) + Times(k, Dot(v, x))
  {
    if |u| > 0 {
      var n, w := |u| - 1, AddScaled(u, k, v);
      DotAddScaledTimes(u[..n], k, v[..n], x[..n]);
      AddScaledPrefix(u, k, v, n);
      DotLast(u, x);
      DotLast(v, x);
      DotLast(w, x);
      hide Dot, AddScaled, Times;
      LastTerm(Dot(u[..n], x[..n]), Dot(v[..n], x[..n]), k, u[n], v[n], w[n], x[n], Dot(u, x), Dot(v, x), Dot(w, x));
    }
  }

  lemma DotAddScaled(u: Vector, k: real, v: Vector, x: Vector)
    requires |u| == |v| == |x|
    ensures Dot(AddScaled(u, k, v), x) == Dot(u, x) + k * Dot(v, x)
  {
    DotAddScaledTimes(u, k, v, x);
    hide Dot, AddScaled;
  }

  lemma {:induction false} DotSymmetric(u: Vector, v: Vector)
    requires |u| == |v|
    ensures Dot(u, v) == Dot(v, u)
  {
    if |u| > 0 {
      DotSymmetric(u[..|u| - 1], v[..|u| - 1]);
    }
  }

  function Unit(n: nat, i: nat): Vector {
    seq(n, j => if j == i then 1.0 else 0.0)
  }

  function Zeros(n: nat): Vector {
    seq(n, _ => 0.0)
  }

  lemma {:induction false} DotZeros(u: Vector)
    ensures Dot(Zeros(|u|), u) == 0.0
  {
    if |u| > 0 {
      assert Zeros(|u|)[..|u| - 1] == Zeros(|u| - 1);
      DotZeros(u[..|u| - 1]);
    }
  }

  lemma {:induction false} DotUnit(n: nat, i: nat, x: Vector)
    requires i < n == |x|
    ensures Dot(Unit(n, i), x) == x[i]
  {
    if i == n - 1 {
      assert Unit(n, i)[..n - 1] == Zeros(n - 1);
      DotZeros(x[..n - 1]);
    } else {
      assert Unit(n, i)[..n - 1] == Unit(n - 1, i);
      DotUnit(n - 1, i, x[..n - 1]);
    }
  }
}

/** solveLinearSystem: Gauss-Jordan elimination in place with partial pivoting. */
module LinearSolver {
  import opened LinearAlgebra

  const PIVOT_LIMIT := 0.000000000001

  function Abs(r: real): real {
    if r < 0.0 then -r else r
  }

  /** The systems (a, b) and (c, d) have the same solutions. */
  ghost predicate Equivalent(a: Matrix, b: Vector, c: Matrix, d: Vector, n: nat) {
    forall x: Vector :: |x| == n ==> (Solves(a, b, x) <==> Solves(c, d, x))
  }

  lemma EquivalentToItself(a: Matrix, b: Vector, n: nat)
    ensures Equivalent(a, b, a, b, n)
  {
  }

  lemma EquivalentTrans(a: Matrix, b: Vector, c: Matrix, d: Vector, e: Matrix, f: Vector, n: nat)
    requires Equivalent(a, b, c, d, n) && Equivalent(c, d, e, f, n)
    ensures Equivalent(a, b, e, f, n)
  {
  }

  /** Columns before `col` are already unit columns. */
  ghost predicate Reduced(a: Matrix, n: nat, col: nat) {
    IsMatrix(a, n) && forall i, j :: 0 <= i < n && 0 <= j < col && j < n ==> a[i][j] == (if i == j then 1.0 else 0.0)
  }

  lemma SwapRows(a: Matrix, b: Vector, n: nat, p: nat, q: nat, x: Vector)
    requires IsMatrix(a, n) && |b| == n == |x| && p < n && q < n
    ensures Solves(a, b, x) <==> Solves(a[p := a[q]][q := a[p]], b[p := b[q]][q := b[p]], x)
  {
    var c, d := a[p := a[q]][q := a[p]], b[p := b[q]][q := b[p]];
    forall i | 0 <= i < n
      ensures RowHolds(c, d, x, i) == RowHolds(a, b, x, if i == p then q else if i == q then p else i)
    {
    }
    if Solves(c, d, x) {
      forall i | 0 <= i < n ensures RowHolds(a, b, x, i) {
        assert RowHolds(c, d, x, if i == p then q else if i == q then p else i);
      }
    }
  }

  lemma ScaleRow(a: Matrix, b: Vector, n: nat, p: nat, div: real, row: Vector, x: Vector)
    requires IsMatrix(a, n) && |b| == n == |x| && p < n && div != 0.0
    requires |row| == n && forall j :: 0 <= j < n ==> row[j] == a[p][j] / div
    ensures Solves(a, b, x) <==> Solves(a[p := row], b[p := b[p] / div], x)
  {
    var c, d := a[p := row], b[p := b[p] / div];
    var k := 1.0 / div - 1.0;
    assert row == AddScaled(a[p], k, a[p]) by {
      forall j | 0 <= j < n ensures row[j] == a[p][j] + k * a[p][j] {
        DivideAsScale(a[p][j], div);
      }
    }
    DotAddScaled(a[p], k, a[p], x);
    DivideAsScale(Dot(a[p], x), div);
    assert Dot(row, x) == Dot(a[p], x) / div;
    assert RowHolds(c, d, x, p) <==> RowHolds(a, b, x, p) by {
      DivideCancel(Dot(a[p], x), b[p], div);
    }
    SameRows(a, b, c, d, n, p, x);
  }

  lemma DivideAsScale(v: real, div: real)
    requires div != 0.0
    ensures v / div == v + (1.0 / div - 1.0) * v
  {
    assert (1.0 / div) * v == v / div;
  }

  lemma DivideCancel(u: real, v: real, div: real)
    requires div != 0.0
    ensures u / div == v / div <==> u == v
  {
    assert (u / div) * div == u && (v / div) * div == v;
  }

  lemma SubtractRow(a: Matrix, b: Vector, n: nat, p: nat, q: nat, factor: real, row: Vector, x: Vector)
    requires IsMatrix(a, n) && |b| == n == |x| && p < n && q < n && p != q
    requires row == AddScaled(a[p], -factor, a[q])
    ensures Solves(a, b, x) <==> Solves(a[p := row], b[p := b[p] - factor * b[q]], x)
  {
    hide Dot, AddScaled;
    var c, d := a[p := row], b[p := b[p] - factor * b[q]];
    DotAddScaled(a[p], -factor, a[q], x);
    assert RowHolds(c, d, x, q) == RowHolds(a, b, x, q);
    assert RowHolds(a, b, x, q) ==> (RowHolds(c, d, x, p) <==> RowHolds(a, b, x, p));
    SameRows(a, b, c, d, n, p, x);
  }

  /** Systems that differ in row p only are solved alike once row p is settled. */
  lemma SameRows(a: Matrix, b: Vector, c: Matrix, d: Vector, n: nat, p: nat, x: Vector)
    requires IsMatrix(a, n) && IsMatrix(c, n) && |b| == |d| == n == |x| && p < n
    requires forall i :: 0 <= i < n && i != p ==> a[i] == c[i] && b[i] == d[i]
    requires (forall i :: 0 <= i < n && i != p ==> RowHolds(a, b, x, i)) ==> (RowHolds(a, b, x, p) <==> RowHolds(c, d, x, p))
    ensures Solves(a, b, x) <==> Solves(c, d, x)
  {
    forall i | 0 <= i < n && i != p ensures RowHolds(a, b, x, i) == RowHolds(c, d, x, i) {
    }
  }

  lemma IdentitySolved(a: Matrix, b: Vector, n: nat, x: Vector)
    requires Reduced(a, n, n) && |b| == n == |x|
    ensures Solves(a, b, x) <==> x == b
  {
    forall i | 0 <= i < n ensures RowHolds(a, b, x, i) <==> x[i] == b[i] {
      assert a[i] == Unit(n, i);
      DotUnit(n, i, x);
    }
  }

  /** One inner loop: row[from..] /= div. */
  method DivideRow(row: Vector, from: nat, div: real) returns (out: Vector)
    requires from <= |row| && div != 0.0
    ensures |out| == |row|
    ensures forall j :: 0 <= j < |row| ==> out[j] == if j < from then row[j] else row[j] / div
  {
    out := row;
    for j := from to |row|
      invariant |out| == |row|
      invariant forall i :: 0 <= i < |row| ==> out[i] == if from <= i < j then row[i] / div else row[i]
    {
      out := out[j := out[j] / div];
    }
  }

  /** The other inner loop: row[from..] -= factor * pivot[from..]. */
  method EliminateRow(row: Vector, pivot: Vector, from: nat, factor: real) returns (out: Vector)
    requires from <= |row| == |pivot|
    ensures |out| == |row|
    ensures forall j :: 0 <= j < |row| ==> out[j] == if j < from then row[j] else row[j] - factor * pivot[j]
  {
    out := row;
    for j := from to |row|
      invariant |out| == |row|
      invariant forall i :: 0 <= i < |row| ==> out[i] == if from <= i < j then row[i] - factor * pivot[i] else row[i]
    {
      out := out[j := out[j] - factor * pivot[j]];
    }
  }

  /** The row at or below `col` whose entry in column `col` is largest in magnitude. */
  method FindPivot(a: Matrix, col: nat) returns (pivot: nat)
    requires IsMatrix(a, |a|) && col < |a|
    ensures col <= pivot < |a|
    ensures forall i :: col <= i < |a| ==> Abs(a[i][col]) <= Abs(a[pivot][col])
  {
    pivot := col;
    for row := col + 1 to |a|
      invariant col <= pivot < |a|
      invariant forall i :: col <= i < row ==> Abs(a[i][col]) <= Abs(a[pivot][col])
    {
      if Abs(a[row][col]) > Abs(a[pivot][col]) {
        pivot := row;
      }
    }
  }

  lemma SwapKeeps(a: Matrix, b: Vector, c: Matrix, d: Vector, n: nat, p: nat, q: nat)
    requires IsMatrix(c, n) && |d| == n && p < n && q < n && Equivalent(a, b, c, d, n)
    ensures Equivalent(a, b, c[p := c[q]][q := c[p]], d[p := d[q]][q := d[p]], n)
  {
    forall x: Vector | |x| == n
      ensures Solves(a, b, x) <==> Solves(c[p := c[q]][q := c[p]], d[p := d[q]][q := d[p]], x)
    {
      SwapRows(c, d, n, p, q, x);
    }
  }

  lemma DivideKeeps(a: Matrix, b: Vector, c: Matrix, d: Vector, n: nat, p: nat, div: real, row: Vector)
    requires IsMatrix(c, n) && |d| == n && p < n && div != 0.0 && Equivalent(a, b, c, d, n)
    requires |row| == n && forall j :: 0 <= j < n ==> row[j] == c[p][j] / div
    ensures Equivalent(a, b, c[p := row], d[p := d[p] / div], n)
  {
    forall x: Vector | |x| == n ensures Solves(a, b, x) <==> Solves(c[p := row], d[p := d[p] / div], x) {
      ScaleRow(c, d, n, p, div, row, x);
    }
  }

  lemma EliminateKeeps(a: Matrix, b: Vector, c: Matrix, d: Vector, n: nat, p: nat, q: nat, factor: real, row: Vector)
    requires IsMatrix(c, n) && |d| == n && p < n && q < n && p != q && Equivalent(a, b, c, d, n)
    requires row == AddScaled(c[p], -factor, c[q])
    ensures Equivalent(a, b, c[p := row], d[p := d[p] - factor * d[q]], n)
  {
    forall x: Vector | |x| == n
      ensures Solves(a, b, x) <==> Solves(c[p := row], d[p := d[p] - factor * d[q]], x)
    {
      SubtractRow(c, d, n, p, q, factor, row, x);
    }
  }

  /** The pivot row has entry 1 in column `col` and zeros before it. */
  ghost predicate IsPivotRow(row: Vector, col: nat) {
    col < |row| && row[col] == 1.0 && forall j :: 0 <= j < col ==> row[j] == 0.0
  }

  /** Rows before `row`, the pivot row apart, are zero in column `col`. */
  ghost predicate ClearedBefore(a: Matrix, n: nat, col: nat, row: nat) {
    IsMatrix(a, n) && col < n && row <= n && forall i :: 0 <= i < row && i != col ==> a[i][col] == 0.0
  }

  lemma ColumnDone(a: Matrix, n: nat, col: nat)
    requires Reduced(a, n, col) && ClearedBefore(a, n, col, n) && IsPivotRow(a[col], col)
    ensures Reduced(a, n, col + 1)
  {
  }

  lemma SwapStaysReduced(a: Matrix, n: nat, col: nat, p: nat)
    requires col <= p < n && Reduced(a, n, col)
    ensures Reduced(a[p := a[col]][col := a[p]], n, col)
  {
  }

  lemma DivideMakesPivotRow(a: Matrix, n: nat, col: nat, row: Vector)
    requires col < n && Reduced(a, n, col) && a[col][col] != 0.0
    requires |row| == n && forall j :: 0 <= j < n ==> row[j] == if j < col then a[col][j] else a[col][j] / a[col][col]
    ensures Reduced(a[col := row], n, col) && IsPivotRow(row, col)
    ensures forall j :: 0 <= j < n ==> row[j] == a[col][j] / a[col][col]
  {
    forall j | 0 <= j < n ensures row[j] == a[col][j] / a[col][col] {
      if j < col {
        assert a[col][j] == 0.0;
      }
    }
    assert row[col] == 1.0;
  }

  lemma EliminateClears(a: Matrix, n: nat, col: nat, p: nat, row: Vector)
    requires col < n && p < n && p != col && Reduced(a, n, col) && IsPivotRow(a[col], col)
    requires ClearedBefore(a, n, col, p) && |row| == n
    requires forall j :: 0 <= j < n ==> row[j] == if j < col then a[p][j] else a[p][j] - a[p][col] * a[col][j]
    ensures row == AddScaled(a[p], -a[p][col], a[col])
    ensures Reduced(a[p := row], n, col) && ClearedBefore(a[p := row], n, col, p + 1)
  {
    var factor := a[p][col];
    forall j | 0 <= j < n ensures row[j] == AddScaled(a[p], -factor, a[col])[j] {
      if j < col {
        assert factor * a[col][j] == 0.0;
      } else {
        assert (-factor) * a[col][j] == -(factor * a[col][j]);
      }
    }
    assert factor * a[col][col] == factor;
  }

  // ----- what is left of the original rows

  /** The first k rows vanish on v. */
  ghost predicate Annihilates(c: Matrix, v: Vector, k: nat) {
    k <= |c| && forall i :: 0 <= i < k ==> |c[i]| == |v| && Dot(c[i], v) == 0.0
  }

  /** On v row r of a is nothing, or what a row of c from m on is. */
  ghost predicate RowLeft(a: Matrix, r: nat, c: Matrix, m: nat, v: Vector)
    requires r < |a| && |a[r]| == |v| && forall i :: 0 <= i < |c| ==> |c[i]| == |v|
  {
    Dot(a[r], v) == 0.0 || exists i :: m <= i < |c| && Dot(a[r], v) == Dot(c[i], v)
  }

  /** Wherever the first m rows of c vanish, the first k rows of a do, too, and the other rows of a
      are left with nothing or with what the other rows of c are. */
  ghost predicate Leaves(a: Matrix, k: nat, c: Matrix, m: nat, n: nat) {
    && IsMatrix(a, n) && IsMatrix(c, n) && k <= n && m <= n
    && forall v: Vector :: |v| == n && Annihilates(c, v, m) ==>
         Annihilates(a, v, k) && forall r :: k <= r < n ==> RowLeft(a, r, c, m, v)
  }

  lemma LeavesItself(a: Matrix, k: nat, n: nat)
    requires IsMatrix(a, n) && k <= n
    ensures Leaves(a, k, a, k, n)
  {
  }

  lemma LeavesTrans(a: Matrix, k: nat, c: Matrix, m: nat, e: Matrix, l: nat, n: nat)
    requires Leaves(a, k, c, m, n) && Leaves(c, m, e, l, n)
    ensures Leaves(a, k, e, l, n)
  {
    hide Dot;
    forall v: Vector | |v| == n && Annihilates(e, v, l)
      ensures Annihilates(a, v, k) && forall r :: k <= r < n ==> RowLeft(a, r, e, l, v)
    {
      assert Annihilates(c, v, m);
      forall r | k <= r < n ensures RowLeft(a, r, e, l, v) {
        assert RowLeft(a, r, c, m, v);
        if Dot(a[r], v) != 0.0 {
          var i :| m <= i < n && Dot(a[r], v) == Dot(c[i], v);
          assert RowLeft(c, i, e, l, v);
        }
      }
    }
  }

  /** Row `pivot`, divided, has come to `col`; the row from there has gone to `pivot`. */
  ghost predicate IsPlaced(a: Matrix, e: Matrix, n: nat, col: nat, pivot: nat, div: real) {
    && IsMatrix(a, n) && IsMatrix(e, n) && col <= pivot < n && div != 0.0
    && (forall j :: 0 <= j < n ==> e[col][j] == a[pivot][j] / div)
    && (pivot != col ==> e[pivot] == a[col])
    && forall i :: 0 <= i < n && i != col && i != pivot ==> e[i] == a[i]
  }

  lemma PlacedOn(a: Matrix, e: Matrix, n: nat, col: nat, pivot: nat, div: real, v: Vector, next: nat)
    requires IsPlaced(a, e, n, col, pivot, div) && |v| == n && next == col + 1 && Annihilates(e, v, next)
    ensures Annihilates(a, v, col) && forall r :: col <= r < n ==> RowLeft(a, r, e, next, v)
  {
    hide Dot;
    assert Dot(e[col], v) == 0.0;
    QuotientVanishes(a[pivot], e[col], div, v);
    forall i | 0 <= i < col ensures Dot(a[i], v) == 0.0 {
      assert Dot(e[i], v) == 0.0;
    }
    forall r | col <= r < n ensures RowLeft(a, r, e, next, v) {
      if r != pivot {
        var i := if r == col then pivot else r;
        assert Dot(a[r], v) == Dot(e[i], v);
      }
    }
  }

  lemma PlacedLeaves(a: Matrix, e: Matrix, n: nat, col: nat, pivot: nat, div: real)
    requires IsPlaced(a, e, n, col, pivot, div)
    ensures Leaves(a, col, e, col + 1, n)
  {
    hide Dot, RowLeft, Annihilates;
    var next := col + 1;
    forall v: Vector | |v| == n && Annihilates(e, v, next)
      ensures Annihilates(a, v, col) && forall r :: col <= r < n ==> RowLeft(a, r, e, next, v)
    {
      PlacedOn(a, e, n, col, pivot, div, v, next);
    }
  }

  /** A row vanishes where its quotient does. */
  lemma QuotientVanishes(row: Vector, quotient: Vector, div: real, v: Vector)
    requires |row| == |quotient| == |v| && div != 0.0 && forall j :: 0 <= j < |row| ==> quotient[j] == row[j] / div
    requires Dot(quotient, v) == 0.0
    ensures Dot(row, v) == 0.0
  {
    var k := div - 1.0;
    QuotientScaled(row, quotient, div, k);
    DotAddScaled(quotient, k, quotient, v);
    hide Dot, AddScaled;
    assert k * 0.0 == 0.0;
  }

  lemma QuotientScaled(row: Vector, quotient: Vector, div: real, k: real)
    requires |row| == |quotient| && div != 0.0 && k == div - 1.0
    requires forall j :: 0 <= j < |row| ==> quotient[j] == row[j] / div
    ensures row == AddScaled(quotient, k, quotient)
  {
    forall j | 0 <= j < |row| ensures row[j] == quotient[j] + k * quotient[j] {
      Undivided(row[j], div);
    }
  }

  lemma Undivided(x: real, div: real)
    requires div != 0.0
    ensures x == x / div + (div - 1.0) * (x / div)
  {
    assert div * (x / div) == x;
  }

  lemma SubtractedRow(u: Vector, w: Vector, factor: real, row: Vector, v: Vector)
    requires |u| == |w| == |v| && row == AddScaled(u, -factor, w) && Dot(w, v) == 0.0
    ensures Dot(row, v) == Dot(u, v)
  {
    DotAddScaled(u, -factor, w, v);
    hide Dot, AddScaled;
    assert -factor * 0.0 == 0.0;
  }

  lemma SameProductsLeave(a: Matrix, e: Matrix, n: nat, k: nat, v: Vector)
    requires IsMatrix(a, n) && IsMatrix(e, n) && k <= n == |v| && Annihilates(e, v, k)
    requires forall i :: 0 <= i < n ==> Dot(e[i], v) == Dot(a[i], v)
    ensures Annihilates(a, v, k) && forall r :: k <= r < n ==> RowLeft(a, r, e, k, v)
  {
    hide Dot;
    forall i | 0 <= i < k ensures Dot(a[i], v) == 0.0 {
      assert Dot(e[i], v) == 0.0;
    }
    forall r | k <= r < n ensures RowLeft(a, r, e, k, v) {
      assert Dot(a[r], v) == Dot(e[r], v);
    }
  }

  lemma SubtractedOn(a: Matrix, e: Matrix, n: nat, col: nat, p: nat, factor: real, v: Vector)
    requires IsMatrix(a, n) && IsMatrix(e, n) && col < n == |v| && p < n && p != col
    requires e[p] == AddScaled(a[p], -factor, a[col]) && forall i :: 0 <= i < n && i != p ==> e[i] == a[i]
    requires Annihilates(e, v, col + 1)
    ensures forall i :: 0 <= i < n ==> Dot(e[i], v) == Dot(a[i], v)
  {
    hide Dot, AddScaled;
    assert Dot(e[col], v) == 0.0;
    SubtractedRow(a[p], a[col], factor, e[p], v);
  }

  lemma SubtractedLeaves(a: Matrix, n: nat, col: nat, p: nat, factor: real, row: Vector)
    requires IsMatrix(a, n) && col < n && p < n && p != col && row == AddScaled(a[p], -factor, a[col])
    ensures Leaves(a, col + 1, a[p := row], col + 1, n)
  {
    hide Dot, RowLeft, AddScaled, Annihilates;
    var e, next := a[p := row], col + 1;
    forall v: Vector | |v| == n && Annihilates(e, v, next)
      ensures Annihilates(a, v, next) && forall r :: next <= r < n ==> RowLeft(a, r, e, next, v)
    {
      SubtractedOn(a, e, n, col, p, factor, v);
      SameProductsLeave(a, e, n, next, v);
    }
  }

  /** Swaps the pivot row into place and divides it by the pivot. */
  method PlacePivot(a: Matrix, b: Vector, n: nat, col: nat, pivot: nat) returns (c: Matrix, d: Vector)
    requires col <= pivot < n == |b| && Reduced(a, n, col) && a[pivot][col] != 0.0
    ensures Reduced(c, n, col) && |d| == n && IsPivotRow(c[col], col)
    ensures Equivalent(a, b, c, d, n) && Leaves(a, col, c, col + 1, n)
  {
    hide Leaves, Equivalent;
    EquivalentToItself(a, b, n);
    SwapKeeps(a, b, a, b, n, pivot, col);
    SwapStaysReduced(a, n, col, pivot);
    c := a[pivot := a[col]][col := a[pivot]];
    d := b[pivot := b[col]][col := b[pivot]];
    var div := c[col][col];
    var scaled := DivideRow(c[col], col, div);
    DivideMakesPivotRow(c, n, col, scaled);
    DivideKeeps(a, b, c, d, n, col, div, scaled);
    PlacedLeaves(a, c[col := scaled], n, col, pivot, div);
    c := c[col := scaled];
    d := d[col := d[col] / div];
  }

  /** Subtracts the pivot row from row `row`; entries left of the column need no update, since
      the pivot row is zero there. */
  method ClearRow(a: Matrix, b: Vector, n: nat, col: nat, row: nat) returns (c: Matrix, d: Vector)
    requires col < n == |b| && row < n && row != col && Reduced(a, n, col) && IsPivotRow(a[col], col)
    requires ClearedBefore(a, n, col, row)
    ensures Reduced(c, n, col) && |d| == n && c[col] == a[col]
    ensures ClearedBefore(c, n, col, row + 1)
    ensures Equivalent(a, b, c, d, n) && Leaves(a, col + 1, c, col + 1, n)
  {
    hide Leaves, Equivalent;
    var factor := a[row][col];
    var cleared := EliminateRow(a[row], a[col], col, factor);
    EliminateClears(a, n, col, row, cleared);
    SubtractedLeaves(a, n, col, row, factor, cleared);
    EquivalentToItself(a, b, n);
    EliminateKeeps(a, b, a, b, n, row, col, factor, cleared);
    c, d := a[row := cleared], b[row := b[row] - factor * b[col]];
  }

  /** Clears column `col` outside the pivot row. */
  method ClearColumn(a: Matrix, b: Vector, n: nat, col: nat) returns (c: Matrix, d: Vector)
    requires col < n == |b| && Reduced(a, n, col) && IsPivotRow(a[col], col)
    ensures Reduced(c, n, col + 1) && |d| == n
    ensures Equivalent(a, b, c, d, n) && Leaves(a, col + 1, c, col + 1, n)
  {
    hide Leaves, Equivalent;
    c, d := a, b;
    LeavesItself(a, col + 1, n);
    EquivalentToItself(a, b, n);
    for row := 0 to n
      invariant Reduced(c, n, col) && |d| == n && c[col] == a[col]
      invariant ClearedBefore(c, n, col, row)
      invariant Equivalent(a, b, c, d, n) && Leaves(a, col + 1, c, col + 1, n)
    {
      if row != col {
        var e, f := ClearRow(c, d, n, col, row);
        EquivalentTrans(a, b, c, d, e, f, n);
        LeavesTrans(a, col + 1, c, col + 1, e, col + 1, n);
        c, d := e, f;
      }
    }
    ColumnDone(c, n, col);
  }

  /** Why the solver gave up: a combination of the columns up to `col`, with weight 1 on `col` itself,
      of which nothing but entries below the pivot limit remains. */
  ghost predicate NearlyDependent(a: Matrix, n: nat, v: Vector, col: nat) {
    && IsMatrix(a, n) && |v| == n && col < n && v[col] == 1.0
    && (forall j :: col < j < n ==> v[j] == 0.0)
    && forall i :: 0 <= i < n ==> Abs(Dot(a[i], v)) < 0.000000000001
  }

  /** The combination, read off the rows reduced so far. */
  function Combination(c: Matrix, n: nat, col: nat): (v: Vector)
    requires IsMatrix(c, n) && col < n
    ensures |v| == n && forall j :: 0 <= j < n ==> v[j] == if j < col then -c[j][col] else if j == col then 1.0 else 0.0
  {
    seq(n, j requires 0 <= j < n => if j < col then -c[j][col] else if j == col then 1.0 else 0.0)
  }

  lemma {:induction false} DotUnitPart(row: Vector, v: Vector, i: nat, m: nat)
    requires m <= |row| == |v| && forall j :: 0 <= j < m ==> row[j] == if j == i then 1.0 else 0.0
    ensures Dot(row[..m], v[..m]) == if i < m then v[i] else 0.0
  {
    if m > 0 {
      assert row[..m][..m - 1] == row[..m - 1] && v[..m][..m - 1] == v[..m - 1];
      DotUnitPart(row, v, i, m - 1);
    }
  }

  lemma {:induction false} DotZeroPart(row: Vector, v: Vector, from: nat, m: nat)
    requires from <= m <= |row| == |v| && forall j :: from <= j < m ==> v[j] == 0.0
    ensures Dot(row[..m], v[..m]) == Dot(row[..from], v[..from])
  {
    if m > from {
      assert row[..m][..m - 1] == row[..m - 1] && v[..m][..m - 1] == v[..m - 1];
      DotZeroPart(row, v, from, m - 1);
    }
  }

  lemma DotCombination(c: Matrix, n: nat, col: nat, i: nat)
    requires Reduced(c, n, col) && col < n && i < n
    ensures Dot(c[i], Combination(c, n, col)) == if i < col then 0.0 else c[i][col]
  {
    var row, v := c[i], Combination(c, n, col);
    DotUnitPart(row, v, i, col);
    assert row[..col + 1][..col] == row[..col] && v[..col + 1][..col] == v[..col];
    DotZeroPart(row, v, col + 1, n);
    assert row[..n] == row && v[..n] == v;
  }

  /** Below the pivot limit from the diagonal down, in column `col`: the original matrix is then
      nearly dependent. */
  lemma NoPivotMeansNearlyDependent(a: Matrix, c: Matrix, n: nat, col: nat)
    requires col < n && Reduced(c, n, col) && Leaves(a, 0, c, col, n)
    requires forall i :: col <= i < n ==> Abs(c[i][col]) < PIVOT_LIMIT
    ensures NearlyDependent(a, n, Combination(c, n, col), col)
  {
    var v := Combination(c, n, col);
    forall i | 0 <= i < n ensures Dot(c[i], v) == if i < col then 0.0 else c[i][col] {
      DotCombination(c, n, col, i);
    }
    assert Annihilates(c, v, col);
    forall r | 0 <= r < n ensures Abs(Dot(a[r], v)) < PIVOT_LIMIT {
      assert RowLeft(a, r, c, col, v);
    }
  }

  lemma SolvedByRightSide(a: Matrix, b: Vector, c: Matrix, d: Vector, n: nat)
    requires Equivalent(a, b, c, d, n) && Reduced(c, n, n) && |d| == n
    ensures forall y: Vector :: |y| == n ==> (Solves(a, b, y) <==> y == d)
  {
    forall y: Vector | |y| == n ensures Solves(a, b, y) <==> y == d {
      IdentitySolved(c, d, n, y);
    }
  }

  /** On success x is the one and only solution; on failure the columns of the matrix are nearly
      dependent. */
  method SolveLinearSystem(a: Matrix, b: Vector) returns (ok: bool, x: Vector)
    requires IsMatrix(a, |b|)
    ensures ok ==> |x| == |b| && forall y: Vector :: |y| == |b| ==> (Solves(a, b, y) <==> y == x)
    ensures !ok ==> x == [] && exists v: Vector, col: nat :: NearlyDependent(a, |b|, v, col)
  {
    hide Leaves, Equivalent;
    var n := |b|;
    var c, d := a, b;
    LeavesItself(a, 0, n);
    EquivalentToItself(a, b, n);
    for col := 0 to n
      invariant Reduced(c, n, col) && |d| == n
      invariant Equivalent(a, b, c, d, n) && Leaves(a, 0, c, col, n)
    {
      var pivot := FindPivot(c, col);
      if Abs(c[pivot][col]) < PIVOT_LIMIT {
        NoPivotMeansNearlyDependent(a, c, n, col);
        return false, [];
      }
      var placed, moved := PlacePivot(c, d, n, col, pivot);
      var e, f := ClearColumn(placed, moved, n, col);
      EquivalentTrans(a, b, c, d, placed, moved, n);
      EquivalentTrans(a, b, placed, moved, e, f, n);
      LeavesTrans(a, 0, c, col, placed, col + 1, n);
      LeavesTrans(a, 0, placed, col + 1, e, col + 1, n);
      c, d := e, f;
    }
    SolvedByRightSide(a, b, c, d, n);
    return true, d;
  }
}

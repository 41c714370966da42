/** Dense real matrices as sequences of rows, with the numpy reductions and
    products the SUGAR core uses. Shapes are passed explicitly, as numpy
    carries them, so that a 0 x c matrix keeps its column count. */
module Matrices {

  type Matrix = seq<seq<real>>

  predicate IsMatrix(m: Matrix, rows: nat, cols: nat) {
    |m| == rows && forall i :: 0 <= i < rows ==> |m[i]| == cols
  }

  predicate IsSymmetric(m: Matrix, n: nat)
    requires IsMatrix(m, n, n)
  {
    forall i, j :: 0 <= i < n && 0 <= j < n ==> m[i][j] == m[j][i]
  }

  predicate NonNegative(m: Matrix) {
    forall i, j :: 0 <= i < |m| && 0 <= j < |m[i]| ==> m[i][j] >= 0.0
  }

  /** `np.sum` of a vector, accumulated from the left. */
  function Sum(s: seq<real>): real {
    if |s| == 0 then 0.0 else Sum(s[..|s| - 1]) + s[|s| - 1]
  }

  lemma {:induction false} SumScaled(s: seq<real>, t: seq<real>, c: real)
    requires |t| == |s| && forall i :: 0 <= i < |s| ==> t[i] == s[i] * c
    ensures Sum(t) == Sum(s) * c
  {
    if |s| > 0 {
      SumScaled(s[..|s| - 1], t[..|t| - 1], c);
    }
  }

  lemma {:induction false} SumNonNegative(s: seq<real>)
    requires forall i :: 0 <= i < |s| ==> s[i] >= 0.0
    ensures Sum(s) >= 0.0
  {
    if |s| > 0 {
      SumNonNegative(s[..|s| - 1]);
    }
  }

  lemma {:induction false} SumMonotone(s: seq<real>, t: seq<real>)
    requires |t| == |s| && forall i :: 0 <= i < |s| ==> s[i] <= t[i]
    ensures Sum(s) <= Sum(t)
  {
    if |s| > 0 {
      SumMonotone(s[..|s| - 1], t[..|t| - 1]);
    }
  }

  /** A sum whose terms vanish except at index k is that term. */
  lemma {:induction false} SumSingle(s: seq<real>, k: nat)
    requires k < |s| && forall i :: 0 <= i < |s| && i != k ==> s[i] == 0.0
    ensures Sum(s) == s[k]
  {
    if k < |s| - 1 {
      SumSingle(s[..|s| - 1], k);
    } else {
      SumZero(s[..|s| - 1]);
    }
  }

  lemma {:induction false} SumZero(s: seq<real>)
    requires forall i :: 0 <= i < |s| ==> s[i] == 0.0
    ensures Sum(s) == 0.0
  {
    if |s| > 0 {
      SumZero(s[..|s| - 1]);
    }
  }

  /** A non-negative term is at most the sum of non-negative terms. */
  lemma {:induction false} TermAtMostSum(s: seq<real>, k: nat)
    requires k < |s| && forall i :: 0 <= i < |s| ==> s[i] >= 0.0
    ensures s[k] <= Sum(s)
  {
    if k < |s| - 1 {
      TermAtMostSum(s[..|s| - 1], k);
    } else {
      SumNonNegative(s[..|s| - 1]);
    }
  }

  function Column(m: Matrix, j: nat): (c: seq<real>)
    requires forall i :: 0 <= i < |m| ==> j < |m[i]|
    ensures |c| == |m| && forall i :: 0 <= i < |m| ==> c[i] == m[i][j]
  {
    seq(|m|, i requires 0 <= i < |m| => m[i][j])
  }

  /** `m.T`: entry (j, i) of the result is entry (i, j) of m. */
  function Transpose(m: Matrix, rows: nat, cols: nat): (t: Matrix)
    requires IsMatrix(m, rows, cols)
    ensures IsMatrix(t, cols, rows)
    ensures forall j, i :: 0 <= j < cols && 0 <= i < rows ==> t[j][i] == m[i][j]
  {
    seq(cols, j requires 0 <= j < cols => seq(rows, i requires 0 <= i < rows => m[i][j]))
  }

  lemma TransposeTwice(m: Matrix, rows: nat, cols: nat)
    requires IsMatrix(m, rows, cols)
    ensures Transpose(Transpose(m, rows, cols), cols, rows) == m
  {
    var t := Transpose(Transpose(m, rows, cols), cols, rows);
    assert forall i :: 0 <= i < rows ==> t[i] == m[i];
  }

  /** The product a * c. Naming it keeps equal factors giving equal products
      for the solver, which treats a bare product of two variables less uniformly. */
  function Times(a: real, c: real): (r: real)
    ensures a >= 0.0 && c >= 0.0 ==> r >= 0.0
  {
    a * c
  }

  /** The entrywise products of two vectors of the same length. */
  function Products(u: seq<real>, v: seq<real>): (w: seq<real>)
    requires |u| == |v|
    ensures |w| == |u| && forall l :: 0 <= l < |u| ==> w[l] == Times(u[l], v[l])
  {
    seq(|u|, l requires 0 <= l < |u| => Times(u[l], v[l]))
  }

  /** The dot product of two vectors of the same length. */
  function Dot(u: seq<real>, v: seq<real>): real
    requires |u| == |v|
  {
    Sum(Products(u, v))
  }

  /** The matrix product `a @ b` of an r x n and an n x c matrix. */
  function MatMul(a: Matrix, b: Matrix, r: nat, n: nat, c: nat): (p: Matrix)
    requires IsMatrix(a, r, n) && IsMatrix(b, n, c)
    ensures IsMatrix(p, r, c)
    ensures forall i, j :: 0 <= i < r && 0 <= j < c ==> p[i][j] == Dot(a[i], Column(b, j))
  {
    seq(r, i requires 0 <= i < r => seq(c, j requires 0 <= j < c => Dot(a[i], Column(b, j))))
  }

  /** `np.diag(v)`: the square matrix with v on its diagonal. */
  function Diag(v: seq<real>): (d: Matrix)
    ensures IsMatrix(d, |v|, |v|)
    ensures forall i, j :: 0 <= i < |v| && 0 <= j < |v| ==> d[i][j] == (if i == j then v[i] else 0.0)
  {
    seq(|v|, i requires 0 <= i < |v| => seq(|v|, j requires 0 <= j < |v| => if i == j then v[i] else 0.0))
  }

  /** Multiplying by a diagonal matrix on the left scales each row. */
  lemma DiagTimes(v: seq<real>, m: Matrix, c: nat, i: nat, j: nat)
    requires IsMatrix(m, |v|, c) && i < |v| && j < c
    ensures MatMul(Diag(v), m, |v|, |v|, c)[i][j] == v[i] * m[i][j]
  {
    var d := Diag(v);
    SumSingle(Products(d[i], Column(m, j)), i);
  }

  /** `(m + m.T) / 2` of a square matrix. */
  function Symmetrize(m: Matrix, n: nat): (s: Matrix)
    requires IsMatrix(m, n, n)
    ensures IsMatrix(s, n, n) && IsSymmetric(s, n)
    ensures IsSymmetric(m, n) ==> s == m
    ensures NonNegative(m) ==> NonNegative(s)
  {
    var s := seq(n, i requires 0 <= i < n => seq(n, j requires 0 <= j < n => (m[i][j] + m[j][i]) / 2.0));
    assert IsSymmetric(m, n) ==> forall i :: 0 <= i < n ==> s[i] == m[i];
    s
  }

  lemma SymmetrizeEntry(m: Matrix, n: nat, i: nat, j: nat)
    requires IsMatrix(m, n, n) && i < n && j < n
    ensures Symmetrize(m, n)[i][j] == (m[i][j] + Transpose(m, n, n)[i][j]) / 2.0
  {
  }

  /** Averaging two entries in [lo, hi] stays in [lo, hi]. */
  lemma SymmetrizeBounds(m: Matrix, n: nat, lo: real, hi: real)
    requires IsMatrix(m, n, n)
    requires forall i, j :: 0 <= i < n && 0 <= j < n ==> lo <= m[i][j] <= hi
    ensures forall i, j :: 0 <= i < n && 0 <= j < n ==> lo <= Symmetrize(m, n)[i][j] <= hi
  {
  }

  /** `np.sum(m, axis=0)`: one sum per column. */
  function ColumnSums(m: Matrix, rows: nat, cols: nat): (p: seq<real>)
    requires IsMatrix(m, rows, cols)
    ensures |p| == cols
  {
    seq(cols, j requires 0 <= j < cols => Sum(Column(m, j)))
  }

  /** `np.multiply(m, v)` with v broadcast along the rows: column j scaled by v[j]. */
  function ScaleColumns(m: Matrix, rows: nat, cols: nat, v: seq<real>): (s: Matrix)
    requires IsMatrix(m, rows, cols) && |v| == cols
    ensures IsMatrix(s, rows, cols)
    ensures forall i, j :: 0 <= i < rows && 0 <= j < cols ==> s[i][j] == m[i][j] * v[j]
  {
    seq(rows, i requires 0 <= i < rows => seq(cols, j requires 0 <= j < cols => m[i][j] * v[j]))
  }
}

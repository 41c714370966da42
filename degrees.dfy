/** `degrees`: the degree d_hat and sparsity s_hat = 1 / d_hat of every point, from the
    column sums of its Gaussian kernel. */
module Degrees {
  import opened Errors
  import opened ExtReals
  import opened Matrices
  import opened Sigma
  import opened Kernel
  import opened Sorting

  /** What `degrees` returns. */
  datatype DegreeResult = DegreeResult(dHat: seq<Ext>, sHat: seq<Ext>, sigma: Bandwidth)

  /** `p * dim / np.sum(p)` with p the column sums of K; dim is the number of features
      of the data (`data.shape[1]`). Without a guard a zero total yields NaN or inf. */
  function DegreeEstimate(K: Matrix, n: nat, dim: nat): (d: seq<Ext>)
    requires IsMatrix(K, n, n)
    ensures |d| == n
  {
    Normalise(ColumnSums(K, n, n), dim as real)
  }

  /** `p * m / np.sum(p)`. */
  function Normalise(p: seq<real>, m: real): (d: seq<Ext>)
    ensures |d| == |p| && forall i :: 0 <= i < |p| ==> d[i] == Div(Times(p[i], m), Sum(p))
  {
    Divided(p, m, Sum(p))
  }

  /** `p * m / total`, entry by entry. */
  function Divided(p: seq<real>, m: real, total: real): (d: seq<Ext>)
    ensures |d| == |p| && forall i :: 0 <= i < |p| ==> d[i] == Div(Times(p[i], m), total)
  {
    seq(|p|, i requires 0 <= i < |p| => Div(Times(p[i], m), total))
  }

  /** `np.divide(1, d_hat)`. */
  function Sparsity(d: seq<Ext>): (s: seq<Ext>)
    ensures |s| == |d|
    ensures forall i :: 0 <= i < |d| ==> s[i] == Recip(d[i])
  {
    seq(|d|, i requires 0 <= i < |d| => Recip(d[i]))
  }

  predicate AllFinite(d: seq<Ext>) {
    forall i :: 0 <= i < |d| ==> d[i].Fin?
  }

  function Values(d: seq<Ext>): (v: seq<real>)
    requires AllFinite(d)
    ensures |v| == |d| && forall i :: 0 <= i < |d| ==> Fin(v[i]) == d[i]
  {
    seq(|d|, i requires 0 <= i < |d| => d[i].v)
  }

  /** With a non-zero total the normalised values are finite and add up to m. */
  lemma NormaliseSum(p: seq<real>, m: real)
    requires Sum(p) != 0.0
    ensures AllFinite(Normalise(p, m))
    ensures Sum(Values(Normalise(p, m))) == m
  {
    DividedValues(p, m, Sum(p));
    DivCancel(Sum(p), m);
    SumOfShares(p, Values(Divided(p, m, Sum(p))), m / Sum(p), m);
  }

  /** Shares p[i] * c add up to m when Sum(p) * c is m. */
  lemma SumOfShares(p: seq<real>, t: seq<real>, c: real, m: real)
    requires |t| == |p| && forall i :: 0 <= i < |p| ==> t[i] == p[i] * c
    requires Sum(p) * c == m
    ensures Sum(t) == m
  {
    SumScaled(p, t, c);
  }

  /** With a non-zero total, p * m / total is finite and its i-th value is p[i] times m / total. */
  lemma DividedValues(p: seq<real>, m: real, total: real)
    requires total != 0.0
    ensures AllFinite(Divided(p, m, total))
    ensures forall i :: 0 <= i < |p| ==> Values(Divided(p, m, total))[i] == p[i] * (m / total)
  {
    var d := Divided(p, m, total);
    forall i | 0 <= i < |p| ensures d[i] == Fin(p[i] * (m / total)) {
      ScaledQuotient(p[i], m, total);
    }
  }

  lemma ScaledQuotient(x: real, m: real, s: real)
    requires s != 0.0
    ensures Div(Times(x, m), s) == Fin(x * (m / s))
  {
    DivProduct(x, m, s);
  }

  lemma DivCancel(total: real, m: real)
    requires total != 0.0
    ensures total * (m / total) == m
  {
  }

  /** With a non-zero total the degrees are finite and add up to the feature count. */
  lemma DegreesSumToDim(K: Matrix, n: nat, dim: nat)
    requires IsMatrix(K, n, n) && Sum(ColumnSums(K, n, n)) != 0.0
    ensures AllFinite(DegreeEstimate(K, n, dim))
    ensures Sum(Values(DegreeEstimate(K, n, dim))) == dim as real
  {
    NormaliseSum(ColumnSums(K, n, n), dim as real);
  }

  /** s_hat and d_hat are reciprocal wherever d_hat is finite and non-zero. */
  lemma SparsityInverse(K: Matrix, n: nat, dim: nat, i: nat)
    requires IsMatrix(K, n, n) && i < n
    requires DegreeEstimate(K, n, dim)[i].Fin? && DegreeEstimate(K, n, dim)[i].v != 0.0
    ensures var d := DegreeEstimate(K, n, dim);
            var s := Sparsity(d);
            s[i].Fin? && s[i].v * d[i].v == 1.0
  {
    SparsityAt(DegreeEstimate(K, n, dim), i);
  }

  lemma SparsityAt(d: seq<Ext>, i: nat)
    requires i < |d| && d[i].Fin? && d[i].v != 0.0
    ensures Sparsity(d)[i].Fin? && Sparsity(d)[i].v * d[i].v == 1.0
  {
    RecipInverse(d[i]);
  }

  /** A point whose column sums to 0 has degree 0 and infinite sparsity. */
  lemma IsolatedPoint(K: Matrix, n: nat, dim: nat, i: nat)
    requires IsMatrix(K, n, n) && i < n && Sum(ColumnSums(K, n, n)) != 0.0
    requires ColumnSums(K, n, n)[i] == 0.0
    ensures DegreeEstimate(K, n, dim)[i] == Fin(0.0)
    ensures Sparsity(DegreeEstimate(K, n, dim))[i] == PosInf
  {
  }

  /** The column sums of a non-negative matrix are non-negative. */
  lemma ColumnSumsNonNegative(K: Matrix, n: nat)
    requires IsMatrix(K, n, n) && NonNegative(K)
    ensures forall j :: 0 <= j < n ==> ColumnSums(K, n, n)[j] >= 0.0
  {
    forall j | 0 <= j < n ensures ColumnSums(K, n, n)[j] >= 0.0 {
      SumNonNegative(Column(K, j));
    }
  }

  /** For a non-negative kernel the degrees are non-negative when the total is not 0,
      and every degree and sparsity is NaN when it is. */
  lemma DegreesOfNonNegativeKernel(K: Matrix, n: nat, dim: nat)
    requires IsMatrix(K, n, n) && NonNegative(K)
    ensures var d := DegreeEstimate(K, n, dim);
            Sum(ColumnSums(K, n, n)) != 0.0 ==> forall i :: 0 <= i < n ==> d[i].Fin? && d[i].v >= 0.0
    ensures var d := DegreeEstimate(K, n, dim);
            Sum(ColumnSums(K, n, n)) == 0.0 ==>
              forall i :: 0 <= i < n ==> d[i] == Ext.NaN && Sparsity(d)[i] == Ext.NaN
  {
    var p := ColumnSums(K, n, n);
    var d := DegreeEstimate(K, n, dim);
    ColumnSumsNonNegative(K, n);
    SumNonNegative(p);
    forall i | 0 <= i < n ensures p[i] <= Sum(p) {
      TermAtMostSum(p, i);
    }
    forall i | 0 <= i < n && Sum(p) != 0.0 ensures d[i].Fin? && d[i].v >= 0.0 {
      assert Times(p[i], dim as real) >= 0.0;
      DivMonotone(0.0, Times(p[i], dim as real), Sum(p));
      assert Div(0.0, Sum(p)).v == 0.0;
    }
  }

  /** `degrees`: the Gaussian kernel of the data with itself (D is its n x n distance
      matrix), then the degree and sparsity vectors. */
  function Degrees(D: Matrix, n: nat, dim: nat, s: SigmaSpec, k: int, fac: int, num: Numerics)
    : (r: Result<DegreeResult>)
    requires IsMatrix(D, n, n)
    ensures r.Ok? <==> GaussKernel(D, n, n, s, k, fac, num).Ok?
    ensures ValidateSigma(s).Err? ==> r == Err(InvalidSigma)
    ensures r.Ok? ==> |r.value.dHat| == n && r.value.sHat == Sparsity(r.value.dHat)
  {
    var _ :- ValidateSigma(s);
    var g :- GaussKernel(D, n, n, s, k, fac, num);
    var d := DegreeEstimate(g.K, n, dim);
    Ok(DegreeResult(d, Sparsity(d), g.sigma))
  }

  /** The degrees of a kernel that is not all zero are finite, non-negative and add up
      to the feature count. */
  lemma DegreesNormalised(D: Matrix, n: nat, dim: nat, s: SigmaSpec, k: int, fac: int, num: Numerics)
    requires IsMatrix(D, n, n) && GaussKernel(D, n, n, s, k, fac, num).Ok?
    requires Sum(ColumnSums(GaussKernel(D, n, n, s, k, fac, num).value.K, n, n)) != 0.0
    ensures var d := Degrees(D, n, dim, s, k, fac, num).value.dHat;
            AllFinite(d) && Sum(Values(d)) == dim as real &&
            forall i :: 0 <= i < n ==> d[i].v >= 0.0
  {
    var K := GaussKernel(D, n, n, s, k, fac, num).value.K;
    DegreesSumToDim(K, n, dim);
    DegreesOfNonNegativeKernel(K, n, dim);
  }
}

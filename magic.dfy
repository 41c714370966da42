/** `magic`: Markov affinity based imputation. The kernel is turned into a row-stochastic
    diffusion operator, the data is diffused t times with it, and each feature's 95th
    percentile is optionally restored to that of the data. */
module Magic {
  import opened Errors
  import opened ExtReals
  import opened Matrices
  import opened Sorting
  import opened Percentile

  /** What `magic` returns: the imputed data and the diffusion operator. */
  datatype MagicOutput = MagicOutput(imputed: seq<seq<Ext>>, operator: Matrix)

  /** The data with its points along the rows: transposed when its rows do not match the
      kernel but its columns do, unchanged otherwise (a mismatch on both only warns). */
  function Oriented(data: Matrix, rows: nat, cols: nat, n: nat): (o: (Matrix, nat, nat))
    requires IsMatrix(data, rows, cols)
    ensures IsMatrix(o.0, o.1, o.2)
    ensures rows != n && cols == n ==> o == (Transpose(data, rows, cols), cols, rows)
    ensures rows == n || cols != n ==> o == (data, rows, cols)
  {
    if rows != n && cols == n then (Transpose(data, rows, cols), cols, rows) else (data, rows, cols)
  }

  /** `np.sum(kernel, axis=1) ** -1` with the infinite entries (zero row sums) set to 0. */
  function InverseRowSums(K: Matrix, n: nat): (v: seq<real>)
    requires IsMatrix(K, n, n)
    ensures |v| == n
    ensures forall i :: 0 <= i < n ==> v[i] == (if Sum(K[i]) == 0.0 then 0.0 else 1.0 / Sum(K[i]))
  {
    seq(n, i requires 0 <= i < n => if Sum(K[i]) == 0.0 then 0.0 else 1.0 / Sum(K[i]))
  }

  /** `diag(inverse row sums) @ kernel`. */
  function DiffusionOperator(K: Matrix, n: nat): (P: Matrix)
    requires IsMatrix(K, n, n)
    ensures IsMatrix(P, n, n)
  {
    MatMul(Diag(InverseRowSums(K, n)), K, n, n, n)
  }

  /** t applications of the operator: P @ (P @ ... X); none when t <= 0. */
  function Diffuse(P: Matrix, X: Matrix, n: nat, rows: nat, cols: nat, t: int): (Y: Matrix)
    requires IsMatrix(P, n, n) && IsMatrix(X, rows, cols) && (t >= 1 ==> rows == n)
    ensures IsMatrix(Y, rows, cols)
    decreases t
  {
    if t <= 0 then X else MatMul(P, Diffuse(P, X, n, rows, cols, t - 1), n, n, cols)
  }

  /** The 95th percentile of a non-empty column. */
  function P95(s: seq<real>): real
    requires |s| > 0
  {
    MatlabPercentile(s, 95.0).value
  }

  /** Per feature, the 95th percentile of the data over that of the imputed data. */
  function Ratios(data: Matrix, X: Matrix, rows: nat, cols: nat): (q: seq<Ext>)
    requires IsMatrix(data, rows, cols) && IsMatrix(X, rows, cols) && rows > 0
    ensures |q| == cols
    ensures forall j :: 0 <= j < cols ==> q[j] == Div(P95(Column(data, j)), P95(Column(X, j)))
  {
    seq(cols, j requires 0 <= j < cols => Div(P95(Column(data, j)), P95(Column(X, j))))
  }

  /** `np.multiply(X, ratios)`: every column of X times its ratio. */
  function Rescaled(X: Matrix, rows: nat, cols: nat, q: seq<Ext>): (Z: seq<seq<Ext>>)
    requires IsMatrix(X, rows, cols) && |q| == cols
    ensures |Z| == rows && forall i :: 0 <= i < rows ==> |Z[i]| == cols
    ensures forall i, j :: 0 <= i < rows && 0 <= j < cols ==> Z[i][j] == Mul(X[i][j], q[j])
  {
    seq(rows, i requires 0 <= i < rows => seq(cols, j requires 0 <= j < cols => Mul(X[i][j], q[j])))
  }

  /** `magic(data, kernel, t, rescale)`. Diffusing needs the data, rows or columns, to
      match the kernel. The percentiles need features, or `apply_along_axis` raises,
      and points, or `data[0]` of an empty column raises. */
  function MagicSpec(data: Matrix, rows: nat, cols: nat, K: Matrix, n: nat, t: int, rescale: bool)
    : (r: Result<MagicOutput>)
    requires IsMatrix(data, rows, cols) && IsMatrix(K, n, n)
    ensures var o := Oriented(data, rows, cols, n);
            r.Ok? <==> (t < 1 || rows == n || cols == n) && (!rescale || (o.1 > 0 && o.2 > 0))
    ensures r == Err(ShapeMismatch) <==> t >= 1 && rows != n && cols != n
    ensures var o := Oriented(data, rows, cols, n);
            r == Err(EmptyReduction) <==> (t < 1 || rows == n || cols == n) && rescale && o.2 == 0
    ensures var o := Oriented(data, rows, cols, n);
            r == Err(IndexOutOfRange) <==> (t < 1 || rows == n || cols == n) && rescale && o.2 > 0 && o.1 == 0
    ensures var o := Oriented(data, rows, cols, n);
            r.Ok? ==> |r.value.imputed| == o.1 && (forall i :: 0 <= i < o.1 ==> |r.value.imputed[i]| == o.2)
    ensures r.Ok? ==> r.value.operator == DiffusionOperator(K, n)
  {
    var o := Oriented(data, rows, cols, n);
    var P := DiffusionOperator(K, n);
    if t >= 1 && o.1 != n then Err(ShapeMismatch)
    else
      var X := Diffuse(P, o.0, n, o.1, o.2, t);
      if !rescale then Ok(MagicOutput(LiftMatrix(X), P))
      else if o.2 == 0 then Err(EmptyReduction)
      else if o.1 == 0 then Err(IndexOutOfRange)
      else Ok(MagicOutput(Rescaled(X, o.1, o.2, Ratios(o.0, X, o.1, o.2)), P))
  }

  /** `magic`, diffusing step by step as the source's loop does. */
  method RunMagic(data: Matrix, rows: nat, cols: nat, K: Matrix, n: nat, t: int, rescale: bool)
    returns (r: Result<MagicOutput>)
    requires IsMatrix(data, rows, cols) && IsMatrix(K, n, n)
    ensures r == MagicSpec(data, rows, cols, K, n, t, rescale)
  {
    var o := Oriented(data, rows, cols, n);
    var X0, m, c := o.0, o.1, o.2;
    var P := DiffusionOperator(K, n);
    if t >= 1 && m != n {
      return Err(ShapeMismatch);
    }
    var X := X0;
    var i := 0;
    while i < t
      invariant 0 <= i <= (if t < 0 then 0 else t)
      invariant IsMatrix(X, m, c)
      invariant X == Diffuse(P, X0, n, m, c, i)
    {
      X := MatMul(P, X, n, n, c);
      i := i + 1;
    }
    assert X == Diffuse(P, X0, n, m, c, t);
    if !rescale {
      return Ok(MagicOutput(LiftMatrix(X), P));
    }
    if c == 0 {
      return Err(EmptyReduction);
    }
    if m == 0 {
      return Err(IndexOutOfRange);
    }
    r := Ok(MagicOutput(Rescaled(X, m, c, Ratios(X0, X, m, c)), P));
  }

  // ---------------------------------------------------------------- the operator

  /** Each operator entry is the kernel entry over its row sum, or 0 in a zero row. */
  lemma OperatorEntry(K: Matrix, n: nat, i: nat, j: nat)
    requires IsMatrix(K, n, n) && i < n && j < n
    ensures DiffusionOperator(K, n)[i][j] == InverseRowSums(K, n)[i] * K[i][j]
  {
    DiagTimes(InverseRowSums(K, n), K, n, i, j);
  }

  /** A row of K is the row of the operator times the row sum. */
  lemma OperatorRow(K: Matrix, n: nat, i: nat)
    requires IsMatrix(K, n, n) && i < n
    ensures forall j :: 0 <= j < n ==>
              DiffusionOperator(K, n)[i][j] == K[i][j] * InverseRowSums(K, n)[i]
  {
    forall j | 0 <= j < n ensures DiffusionOperator(K, n)[i][j] == K[i][j] * InverseRowSums(K, n)[i] {
      OperatorEntry(K, n, i, j);
    }
  }

  lemma ReciprocalCancels(s: real)
    requires s != 0.0
    ensures s * (1.0 / s) == 1.0
  {
  }

  /** Every row with a non-zero sum becomes a row summing to 1; a zero row stays zero. */
  lemma OperatorRowSums(K: Matrix, n: nat, i: nat)
    requires IsMatrix(K, n, n) && i < n
    ensures Sum(K[i]) != 0.0 ==> Sum(DiffusionOperator(K, n)[i]) == 1.0
    ensures Sum(K[i]) == 0.0 ==> forall j :: 0 <= j < n ==> DiffusionOperator(K, n)[i][j] == 0.0
  {
    var P := DiffusionOperator(K, n);
    var inv := InverseRowSums(K, n)[i];
    OperatorRow(K, n, i);
    SumScaled(K[i], P[i], inv);
    InverseCancels(Sum(K[i]), inv);
  }

  /** The guarded inverse of a row sum s cancels s, unless s is 0 and the inverse is 0. */
  lemma InverseCancels(s: real, inv: real)
    requires inv == if s == 0.0 then 0.0 else 1.0 / s
    ensures s != 0.0 ==> s * inv == 1.0
    ensures s == 0.0 ==> inv == 0.0
  {
    if s != 0.0 {
      ReciprocalCancels(s);
    }
  }

  /** A kernel entry between 0 and its positive row sum; its quotient lies in [0, 1]. */
  lemma ShareOfRow(k: real, s: real)
    requires 0.0 <= k <= s && s > 0.0
    ensures 0.0 <= k * (1.0 / s) <= 1.0
  {
    DivUnit(k, s);
    assert k * (1.0 / s) == k / s;
  }

  /** The operator of a non-negative kernel has its entries in [0, 1]. */
  lemma OperatorUnitRange(K: Matrix, n: nat, i: nat, j: nat)
    requires IsMatrix(K, n, n) && NonNegative(K) && i < n && j < n
    ensures 0.0 <= DiffusionOperator(K, n)[i][j] <= 1.0
  {
    OperatorEntry(K, n, i, j);
    TermAtMostSum(K[i], j);
    GuardedShare(K[i][j], Sum(K[i]), InverseRowSums(K, n)[i]);
  }

  /** An entry between 0 and its row sum s, times the guarded inverse of s, lies in [0, 1]. */
  lemma GuardedShare(k: real, s: real, inv: real)
    requires 0.0 <= k <= s && inv == if s == 0.0 then 0.0 else 1.0 / s
    ensures 0.0 <= inv * k <= 1.0
  {
    if s != 0.0 {
      ShareOfRow(k, s);
    }
  }

  // ---------------------------------------------------------------- diffusion

  /** A weighted average: non-negative weights summing to 1 applied to values in
      [lo, hi] give a value in [lo, hi]. */
  lemma DotAverage(u: seq<real>, v: seq<real>, lo: real, hi: real)
    requires |u| == |v| && Sum(u) == 1.0
    requires forall l :: 0 <= l < |u| ==> u[l] >= 0.0 && lo <= v[l] <= hi
    ensures lo <= Dot(u, v) <= hi
  {
    DotAtLeast(u, v, lo);
    DotAtMost(u, v, hi);
  }

  lemma DotAtLeast(u: seq<real>, v: seq<real>, lo: real)
    requires |u| == |v|
    requires forall l :: 0 <= l < |u| ==> u[l] >= 0.0 && lo <= v[l]
    ensures Sum(u) * lo <= Dot(u, v)
  {
    var low := Products(u, seq(|u|, l => lo));
    forall l | 0 <= l < |u| ensures low[l] <= Products(u, v)[l] && low[l] == u[l] * lo {
      WeightedBelow(u[l], lo, v[l]);
    }
    SumScaled(u, low, lo);
    SumMonotone(low, Products(u, v));
  }

  lemma DotAtMost(u: seq<real>, v: seq<real>, hi: real)
    requires |u| == |v|
    requires forall l :: 0 <= l < |u| ==> u[l] >= 0.0 && v[l] <= hi
    ensures Dot(u, v) <= Sum(u) * hi
  {
    var high := Products(u, seq(|u|, l => hi));
    forall l | 0 <= l < |u| ensures Products(u, v)[l] <= high[l] && high[l] == u[l] * hi {
      WeightedBelow(u[l], v[l], hi);
    }
    SumScaled(u, high, hi);
    SumMonotone(Products(u, v), high);
  }

  lemma WeightedBelow(w: real, x: real, y: real)
    requires w >= 0.0 && x <= y
    ensures Times(w, x) <= Times(w, y)
  {
    assert Times(w, y - x) >= 0.0;
  }

  /** Every entry of the matrix lies in [lo, hi]. */
  predicate Within(X: Matrix, lo: real, hi: real) {
    forall i, j :: 0 <= i < |X| && 0 <= j < |X[i]| ==> lo <= X[i][j] <= hi
  }

  /** Every row of K sums to a positive value. */
  predicate PositiveRows(K: Matrix, n: nat)
    requires IsMatrix(K, n, n)
  {
    forall i :: 0 <= i < n ==> Sum(K[i]) > 0.0
  }

  /** One diffusion step averages: it keeps the data inside any range it lies in. */
  lemma StepWithin(K: Matrix, n: nat, X: Matrix, cols: nat, lo: real, hi: real)
    requires IsMatrix(K, n, n) && NonNegative(K) && PositiveRows(K, n)
    requires IsMatrix(X, n, cols) && Within(X, lo, hi)
    ensures Within(MatMul(DiffusionOperator(K, n), X, n, n, cols), lo, hi)
  {
    var P := DiffusionOperator(K, n);
    forall i, j | 0 <= i < n && 0 <= j < cols
      ensures lo <= MatMul(P, X, n, n, cols)[i][j] <= hi
    {
      OperatorRowSums(K, n, i);
      forall l | 0 <= l < n ensures P[i][l] >= 0.0 {
        OperatorUnitRange(K, n, i, l);
      }
      DotAverage(P[i], Column(X, j), lo, hi);
    }
  }

  /** Diffusing with the operator of a non-negative kernel without zero rows keeps the
      imputed values inside the range of the data, however many steps are taken. */
  lemma {:induction false} DiffuseWithin(K: Matrix, n: nat, X: Matrix, cols: nat, t: int, lo: real, hi: real)
    requires IsMatrix(K, n, n) && NonNegative(K) && PositiveRows(K, n)
    requires IsMatrix(X, n, cols) && Within(X, lo, hi)
    ensures Within(Diffuse(DiffusionOperator(K, n), X, n, n, cols, t), lo, hi)
    decreases t
  {
    if t >= 1 {
      DiffuseWithin(K, n, X, cols, t - 1, lo, hi);
      StepWithin(K, n, Diffuse(DiffusionOperator(K, n), X, n, n, cols, t - 1), cols, lo, hi);
    }
  }

  // ---------------------------------------------------------------- magic

  /** Without steps and without rescaling the data comes back unchanged, apart from its
      orientation. */
  lemma NoStepsNoChange(data: Matrix, rows: nat, cols: nat, K: Matrix, n: nat, t: int)
    requires IsMatrix(data, rows, cols) && IsMatrix(K, n, n) && t <= 0
    ensures MagicSpec(data, rows, cols, K, n, t, false) ==
              Ok(MagicOutput(LiftMatrix(Oriented(data, rows, cols, n).0), DiffusionOperator(K, n)))
  {
  }

  /** Data given points by features is diffused as it is: the imputed data is the
      operator applied t times. */
  lemma OrdinaryData(data: Matrix, rows: nat, cols: nat, K: Matrix, n: nat, t: int)
    requires IsMatrix(data, rows, cols) && IsMatrix(K, n, n) && rows == n
    ensures MagicSpec(data, rows, cols, K, n, t, false) ==
              Ok(MagicOutput(LiftMatrix(Diffuse(DiffusionOperator(K, n), data, n, n, cols, t)),
                             DiffusionOperator(K, n)))
  {
  }

  /** Data given features by points is transposed first. */
  lemma TransposedData(data: Matrix, rows: nat, cols: nat, K: Matrix, n: nat, t: int)
    requires IsMatrix(data, rows, cols) && IsMatrix(K, n, n) && rows != n && cols == n
    ensures MagicSpec(data, rows, cols, K, n, t, false) ==
              Ok(MagicOutput(LiftMatrix(Diffuse(DiffusionOperator(K, n), Transpose(data, rows, cols), n, n, rows, t)),
                             DiffusionOperator(K, n)))
  {
  }

  /** Rescaling an imputed feature whose percentile ratio is a positive number restores
      the 95th percentile of the data: the rescaled column is finite and its 95th
      percentile is that of the data's column. */
  lemma RescaleRestoresPercentile(data: Matrix, X: Matrix, rows: nat, cols: nat, j: nat)
    requires IsMatrix(data, rows, cols) && IsMatrix(X, rows, cols) && rows > 0 && j < cols
    requires Ratios(data, X, rows, cols)[j].Fin? && Ratios(data, X, rows, cols)[j].v > 0.0
    ensures var c := Ratios(data, X, rows, cols)[j].v;
            var Z := Rescaled(X, rows, cols, Ratios(data, X, rows, cols));
            (forall i :: 0 <= i < rows ==> Z[i][j] == Fin(Scale(Column(X, j), c)[i])) &&
            P95(Scale(Column(X, j), c)) == P95(Column(data, j))
  {
    var q := Ratios(data, X, rows, cols);
    RescaledColumn(X, rows, cols, q, j);
    RatioRestores(Column(data, j), Column(X, j), q[j]);
  }

  /** Column j of the rescaled data is column j of X scaled by its ratio. */
  lemma RescaledColumn(X: Matrix, rows: nat, cols: nat, q: seq<Ext>, j: nat)
    requires IsMatrix(X, rows, cols) && |q| == cols && j < cols && q[j].Fin?
    ensures forall i :: 0 <= i < rows ==> Rescaled(X, rows, cols, q)[i][j] == Fin(Scale(Column(X, j), q[j].v)[i])
  {
    forall i | 0 <= i < rows ensures Rescaled(X, rows, cols, q)[i][j] == Fin(Scale(Column(X, j), q[j].v)[i]) {
      ScaleAt(Column(X, j), q[j].v, i);
    }
  }

  /** Scaling x by the ratio of the percentiles of y and x gives x the percentile of y. */
  lemma RatioRestores(y: seq<real>, x: seq<real>, ratio: Ext)
    requires |x| > 0 && |y| > 0 && ratio == Div(P95(y), P95(x)) && ratio.Fin? && ratio.v > 0.0
    ensures P95(Scale(x, ratio.v)) == P95(y)
  {
    PercentileScale(x, 95.0, ratio.v);
    QuotientRestores(P95(y), P95(x), ratio);
  }

  lemma QuotientRestores(a: real, b: real, ratio: Ext)
    requires ratio == Div(a, b) && ratio.Fin?
    ensures Times(b, ratio.v) == a
  {
    DivExact(a, b);
  }
}

/** `mgc_magic`: the measure-based Gaussian correlation kernel between new points Y and
    the original points X, followed by `magic` over Y. Every new point is related to
    every other through the original points, each original point weighted by its
    sparsity s_hat. */
module MgcMagic {
  import opened Errors
  import opened ExtReals
  import opened Matrices
  import opened Sigma
  import opened Kernel
  import opened Magic

  /** What `mgc_magic` returns: the corrected points, the MGC kernel and its diffusion
      operator. */
  datatype MgcOutput = MgcOutput(newData: seq<seq<Ext>>, kernel: Matrix, operator: Matrix)

  /** `np.multiply(new_to_old, s_hat)` for a vector s_hat: column j weighted by s_hat[j],
      or every column by a single value; numpy refuses any other length. */
  function MeasureWeighted(A: Matrix, rows: nat, cols: nat, s: seq<real>): (r: Result<Matrix>)
    requires IsMatrix(A, rows, cols)
    ensures r.Ok? <==> |s| == cols || |s| == 1
    ensures r.Err? ==> r.error == ShapeMismatch
    ensures r.Ok? ==> IsMatrix(r.value, rows, cols)
  {
    if |s| == cols then Ok(ScaleColumns(A, rows, cols, s))
    else if |s| == 1 then Ok(ScaleColumns(A, rows, cols, seq(cols, _ => s[0])))
    else Err(ShapeMismatch)
  }

  /** The MGC kernel from the M x N distances Dyx between the new and the original points:
      the Y-to-X kernel weighted by s_hat, times the X-to-Y kernel, symmetrised. The
      X-to-Y kernel is built over the transposed distances, as `cdist(X, Y)` is the
      transpose of `cdist(Y, X)`. */
  function MgcKernel(Dyx: Matrix, M: nat, N: nat, sHat: seq<real>, s: SigmaSpec, k: int, fac: int, num: Numerics)
    : (r: Result<Matrix>)
    requires IsMatrix(Dyx, M, N)
    ensures ValidateSigma(s).Err? ==> r == Err(InvalidSigma)
    ensures r.Ok? ==> IsMatrix(r.value, M, M) && IsSymmetric(r.value, M)
  {
    var nto :- GaussKernel(Dyx, M, N, s, k, fac, num);
    var otn :- GaussKernel(Transpose(Dyx, M, N), N, M, s, k, fac, num);
    Compose(nto.K, otn.K, M, N, sHat)
  }

  /** The composition of the two kernels: `(new_to_old * s_hat) @ old_to_new`, then
      `(K + K.T) / 2`. */
  function Compose(nto: Matrix, otn: Matrix, M: nat, N: nat, sHat: seq<real>): (r: Result<Matrix>)
    requires IsMatrix(nto, M, N) && IsMatrix(otn, N, M)
    ensures r.Ok? <==> |sHat| == N || |sHat| == 1
    ensures r.Err? ==> r.error == ShapeMismatch
    ensures r.Ok? ==> IsMatrix(r.value, M, M) && IsSymmetric(r.value, M)
  {
    var W :- MeasureWeighted(nto, M, N, sHat);
    Ok(Symmetrize(MatMul(W, otn, M, N, M), M))
  }

  /** `mgc_magic(X, Y, s_hat, ...)`: Y is M x dim. With t = 0 the source only logs; it
      still builds the kernel and calls `magic` with no diffusion step. */
  function MgcMagicSpec(Y: Matrix, M: nat, dim: nat, Dyx: Matrix, N: nat, sHat: seq<real>, s: SigmaSpec,
                        k: int, fac: int, num: Numerics, t: int, rescale: bool): (r: Result<MgcOutput>)
    requires IsMatrix(Y, M, dim) && IsMatrix(Dyx, M, N)
    ensures ValidateSigma(s).Err? ==> r == Err(InvalidSigma)
    ensures r.Ok? <==> MgcKernel(Dyx, M, N, sHat, s, k, fac, num).Ok? &&
                       (rescale ==> M > 0 && dim > 0)
    ensures r.Ok? ==> r.value.kernel == MgcKernel(Dyx, M, N, sHat, s, k, fac, num).value &&
                      r.value.operator == DiffusionOperator(r.value.kernel, M)
  {
    var K :- MgcKernel(Dyx, M, N, sHat, s, k, fac, num);
    var m :- MagicSpec(Y, M, dim, K, M, t, rescale);
    Ok(MgcOutput(m.imputed, K, m.operator))
  }

  // ---------------------------------------------------------------- shape and sign

  /** Once both kernels exist, the only failure left in the composition is an s_hat
      whose length is neither N nor 1. */
  lemma MeasureLength(Dyx: Matrix, M: nat, N: nat, sHat: seq<real>, s: SigmaSpec, k: int, fac: int, num: Numerics)
    requires IsMatrix(Dyx, M, N)
    requires GaussKernel(Dyx, M, N, s, k, fac, num).Ok?
    requires GaussKernel(Transpose(Dyx, M, N), N, M, s, k, fac, num).Ok?
    ensures MgcKernel(Dyx, M, N, sHat, s, k, fac, num).Ok? <==> |sHat| == N || |sHat| == 1
    ensures MgcKernel(Dyx, M, N, sHat, s, k, fac, num).Err? ==>
              MgcKernel(Dyx, M, N, sHat, s, k, fac, num).error == ShapeMismatch
  {
  }

  predicate NonNegativeVector(v: seq<real>) {
    forall l :: 0 <= l < |v| ==> v[l] >= 0.0
  }

  lemma DotNonNegative(u: seq<real>, v: seq<real>)
    requires |u| == |v| && NonNegativeVector(u) && NonNegativeVector(v)
    ensures Dot(u, v) >= 0.0
  {
    SumNonNegative(Products(u, v));
  }

  /** Composing non-negative kernels with non-negative weights gives a non-negative
      kernel. */
  lemma ComposeNonNegative(nto: Matrix, otn: Matrix, M: nat, N: nat, sHat: seq<real>)
    requires IsMatrix(nto, M, N) && IsMatrix(otn, N, M) && NonNegative(nto) && NonNegative(otn)
    requires NonNegativeVector(sHat) && Compose(nto, otn, M, N, sHat).Ok?
    ensures NonNegative(Compose(nto, otn, M, N, sHat).value)
  {
    var W := MeasureWeighted(nto, M, N, sHat).value;
    WeightedNonNegative(nto, M, N, sHat);
    MatMulNonNegative(W, otn, M, N, M);
  }

  lemma WeightedNonNegative(A: Matrix, rows: nat, cols: nat, s: seq<real>)
    requires IsMatrix(A, rows, cols) && NonNegative(A) && NonNegativeVector(s)
    requires MeasureWeighted(A, rows, cols, s).Ok?
    ensures NonNegative(MeasureWeighted(A, rows, cols, s).value)
  {
    var c := if |s| == cols then s else seq(cols, _ => s[0]);
    var W := ScaleColumns(A, rows, cols, c);
    assert MeasureWeighted(A, rows, cols, s).value == W;
    forall i, j | 0 <= i < rows && 0 <= j < cols ensures W[i][j] >= 0.0 {
      assert W[i][j] == Times(A[i][j], c[j]);
    }
  }

  lemma MatMulNonNegative(a: Matrix, b: Matrix, r: nat, n: nat, c: nat)
    requires IsMatrix(a, r, n) && IsMatrix(b, n, c) && NonNegative(a) && NonNegative(b)
    ensures NonNegative(MatMul(a, b, r, n, c))
  {
    var P := MatMul(a, b, r, n, c);
    forall i, j | 0 <= i < r && 0 <= j < c ensures P[i][j] >= 0.0 {
      DotNonNegative(a[i], Column(b, j));
    }
  }

  /** With non-negative sparsities the MGC kernel is non-negative. */
  lemma MgcKernelNonNegative(Dyx: Matrix, M: nat, N: nat, sHat: seq<real>, s: SigmaSpec, k: int, fac: int,
                             num: Numerics)
    requires IsMatrix(Dyx, M, N) && NonNegativeVector(sHat)
    requires MgcKernel(Dyx, M, N, sHat, s, k, fac, num).Ok?
    ensures NonNegative(MgcKernel(Dyx, M, N, sHat, s, k, fac, num).value)
  {
    var nto := GaussKernel(Dyx, M, N, s, k, fac, num).value.K;
    var otn := GaussKernel(Transpose(Dyx, M, N), N, M, s, k, fac, num).value.K;
    ComposeNonNegative(nto, otn, M, N, sHat);
  }

  // ---------------------------------------------------------------- a scalar bandwidth

  /** Σ_l s[l] A[i][l] A[j][l]: the similarity of rows i and j through weighted columns. */
  function WeightedGram(A: Matrix, rows: nat, cols: nat, s: seq<real>): (G: Matrix)
    requires IsMatrix(A, rows, cols) && |s| == cols
    ensures IsMatrix(G, rows, rows)
  {
    seq(rows, i requires 0 <= i < rows => seq(rows, j requires 0 <= j < rows =>
      Sum(seq(cols, l requires 0 <= l < cols => Times(Times(A[i][l], s[l]), A[j][l])))))
  }

  lemma GramTerms(A: Matrix, rows: nat, cols: nat, s: seq<real>, i: nat, j: nat)
    requires IsMatrix(A, rows, cols) && |s| == cols && i < rows && j < rows
    ensures seq(cols, l requires 0 <= l < cols => Times(Times(A[i][l], s[l]), A[j][l])) ==
            seq(cols, l requires 0 <= l < cols => Times(Times(A[j][l], s[l]), A[i][l]))
  {
    forall l | 0 <= l < cols ensures Times(Times(A[i][l], s[l]), A[j][l]) == Times(Times(A[j][l], s[l]), A[i][l]) {
      TimesSwap(A[i][l], s[l], A[j][l]);
    }
  }

  lemma TimesSwap(a: real, c: real, b: real)
    ensures Times(Times(a, c), b) == Times(Times(b, c), a)
  {
    assert (a * c) * b == (b * c) * a;
  }

  /** The weighted Gram matrix is symmetric. */
  lemma GramSymmetric(A: Matrix, rows: nat, cols: nat, s: seq<real>)
    requires IsMatrix(A, rows, cols) && |s| == cols
    ensures IsSymmetric(WeightedGram(A, rows, cols, s), rows)
  {
    forall i, j | 0 <= i < rows && 0 <= j < rows
      ensures WeightedGram(A, rows, cols, s)[i][j] == WeightedGram(A, rows, cols, s)[j][i]
    {
      GramTerms(A, rows, cols, s, i, j);
    }
  }

  /** Weighting the columns of A by s and multiplying by the transpose of A gives the
      weighted Gram matrix. */
  lemma WeightedProduct(A: Matrix, rows: nat, cols: nat, s: seq<real>)
    requires IsMatrix(A, rows, cols) && |s| == cols
    ensures MatMul(ScaleColumns(A, rows, cols, s), Transpose(A, rows, cols), rows, cols, rows) ==
            WeightedGram(A, rows, cols, s)
  {
    var W := ScaleColumns(A, rows, cols, s);
    var T := Transpose(A, rows, cols);
    var P := MatMul(W, T, rows, cols, rows);
    var G := WeightedGram(A, rows, cols, s);
    forall i, j | 0 <= i < rows && 0 <= j < rows ensures P[i][j] == G[i][j] {
      var terms := seq(cols, l requires 0 <= l < cols => Times(Times(A[i][l], s[l]), A[j][l]));
      forall l | 0 <= l < cols ensures Products(W[i], Column(T, j))[l] == terms[l] {
        assert W[i][l] == Times(A[i][l], s[l]);
        assert Column(T, j)[l] == A[j][l];
      }
      assert Products(W[i], Column(T, j)) == terms;
    }
    assert forall i :: 0 <= i < rows ==> P[i] == G[i];
  }

  lemma DecayedAtScalar(D: Matrix, rows: nat, cols: nat, w: real, num: Numerics, i: nat, j: nat)
    requires IsMatrix(D, rows, cols) && i < rows && j < cols
    ensures Decayed(D, rows, cols, Scalar(w), num)[i][j] == num.decay(D[i][j], w)
  {
    assert BandwidthAt(Scalar(w), cols, j) == Num(w);
  }

  /** A scalar bandwidth decays each distance on its own, so the thresholded kernel of
      the transposed distances is the transposed thresholded kernel. */
  lemma ThresholdedTransposed(D: Matrix, M: nat, N: nat, w: real, num: Numerics)
    requires IsMatrix(D, M, N)
    ensures Thresholded(Transpose(D, M, N), N, M, Scalar(w), num) == Transpose(Thresholded(D, M, N, Scalar(w), num), M, N)
  {
    var TD := Transpose(D, M, N);
    var T := Thresholded(D, M, N, Scalar(w), num);
    var U := Thresholded(TD, N, M, Scalar(w), num);
    forall l, i | 0 <= l < N && 0 <= i < M ensures U[l][i] == T[i][l] {
      DecayedAtScalar(TD, N, M, w, num, l, i);
      DecayedAtScalar(D, M, N, w, num, i, l);
    }
    assert forall l :: 0 <= l < N ==> U[l] == Transpose(T, M, N)[l];
  }

  /** Symmetrising the transpose gives the same matrix, and that matrix is its own
      transpose. */
  lemma SymmetrizeTransposed(T: Matrix, n: nat)
    requires IsMatrix(T, n, n)
    ensures Symmetrize(Transpose(T, n, n), n) == Symmetrize(T, n)
    ensures Transpose(Symmetrize(T, n), n, n) == Symmetrize(T, n)
  {
    var U := Transpose(T, n, n);
    var S := Symmetrize(T, n);
    forall i | 0 <= i < n ensures Symmetrize(U, n)[i] == S[i] {
      forall j | 0 <= j < n ensures Symmetrize(U, n)[i][j] == S[i][j] {
        SymmetrizeEntry(U, n, i, j);
        SymmetrizeEntry(T, n, i, j);
      }
    }
    assert forall i :: 0 <= i < n ==> Transpose(S, n, n)[i] == S[i];
  }

  /** With a numeric bandwidth the X-to-Y kernel is the transpose of the Y-to-X kernel. */
  lemma ScalarKernelTransposed(D: Matrix, M: nat, N: nat, v: real, k: int, fac: int, num: Numerics)
    requires IsMatrix(D, M, N)
    ensures GaussKernel(D, M, N, Number(v), k, fac, num).Ok?
    ensures GaussKernel(Transpose(D, M, N), N, M, Number(v), k, fac, num).Ok?
    ensures GaussKernel(Transpose(D, M, N), N, M, Number(v), k, fac, num).value.K ==
            Transpose(GaussKernel(D, M, N, Number(v), k, fac, num).value.K, M, N)
  {
    var w := v * fac as real;
    assert ScaleBandwidth(Scalar(v), fac) == Scalar(w);
    ThresholdedTransposed(D, M, N, w, num);
    if M == N {
      SymmetrizeTransposed(Thresholded(D, M, N, Scalar(w), num), M);
    }
  }

  /** With a numeric bandwidth and one sparsity per original point the MGC kernel is
      the weighted Gram matrix of the Y-to-X kernel: entry (i, j) is
      Σ_l s_hat[l] K[i][l] K[j][l], symmetric before the symmetrisation, which then
      changes nothing. */
  lemma ScalarBandwidthGram(Dyx: Matrix, M: nat, N: nat, sHat: seq<real>, v: real, k: int, fac: int,
                            num: Numerics)
    requires IsMatrix(Dyx, M, N) && |sHat| == N
    ensures var nto := GaussKernel(Dyx, M, N, Number(v), k, fac, num);
            nto.Ok? && MgcKernel(Dyx, M, N, sHat, Number(v), k, fac, num) == Ok(WeightedGram(nto.value.K, M, N, sHat))
  {
    ScalarKernelTransposed(Dyx, M, N, v, k, fac, num);
    var nto := GaussKernel(Dyx, M, N, Number(v), k, fac, num).value.K;
    WeightedProduct(nto, M, N, sHat);
    GramSymmetric(nto, M, N, sHat);
  }

  // ---------------------------------------------------------------- t = 0

  /** `t = 0` does not return early: the kernel is still built (so an invalid sigma still
      raises), and without rescaling Y comes back unchanged with the MGC operator. */
  lemma NoDiffusion(Y: Matrix, M: nat, dim: nat, Dyx: Matrix, N: nat, sHat: seq<real>, s: SigmaSpec,
                    k: int, fac: int, num: Numerics)
    requires IsMatrix(Y, M, dim) && IsMatrix(Dyx, M, N)
    requires MgcKernel(Dyx, M, N, sHat, s, k, fac, num).Ok?
    ensures var K := MgcKernel(Dyx, M, N, sHat, s, k, fac, num).value;
            MgcMagicSpec(Y, M, dim, Dyx, N, sHat, s, k, fac, num, 0, false) ==
              Ok(MgcOutput(LiftMatrix(Y), K, DiffusionOperator(K, M)))
  {
    var K := MgcKernel(Dyx, M, N, sHat, s, k, fac, num).value;
    NoStepsNoChange(Y, M, dim, K, M, 0);
  }

  /** The MGC operator is row-stochastic: every row of a kernel row with a non-zero sum
      adds up to 1, and a zero row stays zero. With non-negative sparsities its entries
      lie in [0, 1]. */
  lemma MgcOperatorStochastic(Y: Matrix, M: nat, dim: nat, Dyx: Matrix, N: nat, sHat: seq<real>,
                              s: SigmaSpec, k: int, fac: int, num: Numerics, t: int, rescale: bool, i: nat)
    requires IsMatrix(Y, M, dim) && IsMatrix(Dyx, M, N) && i < M
    requires MgcMagicSpec(Y, M, dim, Dyx, N, sHat, s, k, fac, num, t, rescale).Ok?
    ensures var r := MgcMagicSpec(Y, M, dim, Dyx, N, sHat, s, k, fac, num, t, rescale).value;
            (Sum(r.kernel[i]) != 0.0 ==> Sum(r.operator[i]) == 1.0) &&
            (Sum(r.kernel[i]) == 0.0 ==> forall j :: 0 <= j < M ==> r.operator[i][j] == 0.0) &&
            (NonNegativeVector(sHat) ==> forall j :: 0 <= j < M ==> 0.0 <= r.operator[i][j] <= 1.0)
  {
    var K := MgcKernel(Dyx, M, N, sHat, s, k, fac, num).value;
    OperatorRowSums(K, M, i);
    if NonNegativeVector(sHat) {
      MgcKernelNonNegative(Dyx, M, N, sHat, s, k, fac, num);
      forall j | 0 <= j < M ensures 0.0 <= DiffusionOperator(K, M)[i][j] <= 1.0 {
        OperatorUnitRange(K, M, i, j);
      }
    }
  }
}

/** `gauss_kernel`: the bandwidth chosen from a distance matrix, the decayed kernel,
    its clean-up (NaN and values below 1e-3 become 0) and its symmetrisation. */
module Kernel {
  import opened Errors
  import opened Matrices
  import opened Sorting
  import opened Sigma

  /** A decayed kernel value: a real number, or the NaN that 0/0 turns into. */
  datatype Entry = Num(v: real) | NaN

  /** The floating-point collaborators the kernel depends on: the `std` bandwidth
      (`np.std(np.mean(D, axis=0), ddof=1)`) and the decay exp(-(d/sigma)^a) for the
      caller's exponent a, both taken as given. */
  datatype Numerics = Numerics(std: Matrix -> Bandwidth, decay: (real, real) -> Entry)

  /** What `gauss_kernel` returns: the kernel and the bandwidth it used. */
  datatype KernelResult = KernelResult(K: Matrix, sigma: Bandwidth)

  /** 10 ** 15, added to the diagonal by the `minmax` bandwidth. */
  const DiagonalOffset: real := 1000000000000000.0

  /** Kernel values below 1e-3 are treated as noise and set to 0. */
  const NoiseFloor: real := 0.001

  predicate IsMatrixOf<T>(m: seq<seq<T>>, rows: nat, cols: nat) {
    |m| == rows && forall i :: 0 <= i < rows ==> |m[i]| == cols
  }

  /** Python's `x[k]` on an axis of length n: negative k counts from the end. */
  function PyIndex(k: int, n: nat): (r: Result<nat>)
    ensures r.Ok? <==> -(n as int) <= k < n
    ensures r.Ok? ==> r.value < n && r.value == k % n
    ensures r.Err? ==> r.error == IndexOutOfRange
  {
    if k < -(n as int) || n <= k then Err(IndexOutOfRange)
    else if k < 0 then
      FromEnd(k, n);
      Ok(k + n)
    else Ok(k)
  }

  /** A negative index -n <= k < 0 denotes entry k + n, which is k modulo n. */
  lemma FromEnd(k: int, n: nat)
    requires -(n as int) <= k < 0
    ensures k + n == k % n
  {
    var q, r := k / n, k % n;
    assert k == q * n + r;
    assert q == -1;
  }

  // ---------------------------------------------------------------- knn

  /** `knn`: entry k of every column of D sorted ascending. */
  function KnnBandwidth(D: Matrix, rows: nat, cols: nat, k: int): (r: Result<Bandwidth>)
    requires IsMatrix(D, rows, cols)
    ensures r.Ok? <==> -(rows as int) <= k < rows
    ensures r.Ok? ==> r.value.PerColumn? && |r.value.vs| == cols
  {
    var idx :- PyIndex(k, rows);
    Ok(PerColumn(seq(cols, j requires 0 <= j < cols => Sort(Column(D, j))[idx])))
  }

  /** The knn bandwidth of column j is a distance in that column with exactly the rank
      the index asks for: at most idx distances lie strictly below it and at least
      idx + 1 lie at or below it. */
  lemma KnnRank(D: Matrix, rows: nat, cols: nat, k: int, j: nat)
    requires IsMatrix(D, rows, cols) && -(rows as int) <= k < rows && j < cols
    ensures var idx := k % rows;
            var v := KnnBandwidth(D, rows, cols, k).value.vs[j];
            v in Column(D, j) &&
            CountBelow(Column(D, j), v) <= idx && CountAtMost(Column(D, j), v) >= idx + 1
  {
    var idx := PyIndex(k, rows).value;
    SortRank(Column(D, j), idx);
    SortedMember(Column(D, j), idx);
  }

  /** With k = 0 column j's bandwidth is its least distance. */
  lemma KnnNearest(D: Matrix, rows: nat, cols: nat, j: nat)
    requires IsMatrix(D, rows, cols) && 0 < rows && j < cols
    ensures KnnBandwidth(D, rows, cols, 0).value.vs[j] == Min(Column(D, j))
  {
    SortEnds(Column(D, j));
  }

  /** With k = -1 column j's bandwidth is its largest distance. */
  lemma KnnFarthest(D: Matrix, rows: nat, cols: nat, j: nat)
    requires IsMatrix(D, rows, cols) && 0 < rows && j < cols
    ensures KnnBandwidth(D, rows, cols, -1).value.vs[j] == Max(Column(D, j))
  {
    assert PyIndex(-1, rows) == Ok(rows - 1);
    SortEnds(Column(D, j));
  }

  /** On a distance matrix of a set with itself (non-negative, zero diagonal), k = 0
      gives every point the bandwidth 0: its distance to itself. */
  lemma KnnSelfDistance(D: Matrix, n: nat, j: nat)
    requires IsMatrix(D, n, n) && j < n
    requires forall i, l :: 0 <= i < n && 0 <= l < n ==> D[i][l] >= 0.0
    requires D[j][j] == 0.0
    ensures KnnBandwidth(D, n, n, 0).value.vs[j] == 0.0
  {
    KnnNearest(D, n, n, j);
    var c := Column(D, j);
    assert c[j] == 0.0;
  }

  // ---------------------------------------------------------------- minmax

  /** Column j of D + 10^15 * I. */
  function OffsetColumn(D: Matrix, n: nat, j: nat): (c: seq<real>)
    requires IsMatrix(D, n, n) && j < n
    ensures |c| == n
  {
    seq(n, i requires 0 <= i < n => if i == j then D[i][j] + DiagonalOffset else D[i][j])
  }

  /** The column minima of D + 10^15 * I. */
  function ColumnMinima(D: Matrix, n: nat): (m: seq<real>)
    requires IsMatrix(D, n, n) && n > 0
    ensures |m| == n
  {
    seq(n, j requires 0 <= j < n => Min(OffsetColumn(D, n, j)))
  }

  /** `minmax`: twice the square of the largest column minimum of D + 10^15 * I.
      The identity matrix only lines up with a square D; an empty D has no minimum. */
  function MinMaxBandwidth(D: Matrix, rows: nat, cols: nat): (r: Result<Bandwidth>)
    requires IsMatrix(D, rows, cols)
    ensures r.Ok? <==> rows == cols && rows > 0
    ensures rows != cols ==> r == Err(ShapeMismatch)
    ensures rows == cols == 0 ==> r == Err(EmptyReduction)
    ensures r.Ok? ==> r.value.Scalar? && r.value.v >= 0.0
  {
    if rows != cols then Err(ShapeMismatch)
    else if rows == 0 then Err(EmptyReduction)
    else
      Ok(Scalar(2.0 * Square(Max(ColumnMinima(D, rows)))))
  }

  function Square(x: real): (r: real)
    ensures r >= 0.0
  {
    x * x
  }

  /** When distances are below 10^15 the offset keeps the diagonal out of each column
      minimum: the minimum of column j is the distance from point j to its nearest
      other point. */
  lemma OffsetColumnMin(D: Matrix, n: nat, j: nat)
    requires IsMatrix(D, n, n) && j < n && 2 <= n
    requires forall i, l :: 0 <= i < n && 0 <= l < n ==> 0.0 <= D[i][l] < DiagonalOffset
    ensures exists i :: 0 <= i < n && i != j && Min(OffsetColumn(D, n, j)) == D[i][j]
    ensures forall i :: 0 <= i < n && i != j ==> Min(OffsetColumn(D, n, j)) <= D[i][j]
  {
    var c := OffsetColumn(D, n, j);
    var m := Min(c);
    var other := if j == 0 then 1 else 0;
    assert c[other] == D[other][j] < DiagonalOffset <= c[j];
    var i :| 0 <= i < n && c[i] == m;
    assert i != j;
    forall l | 0 <= l < n && l != j ensures m <= D[l][j] {
      assert c[l] == D[l][j];
    }
  }

  /** The minmax radius eps: within eps every point has another point, and some point
      has no other point closer than eps. */
  /** Point j has another point within distance r. */
  predicate HasNeighbourWithin(D: Matrix, n: nat, j: nat, r: real)
    requires IsMatrix(D, n, n) && j < n
  {
    exists i :: 0 <= i < n && i != j && D[i][j] <= r
  }

  /** No other point is closer to point j than r. */
  predicate IsolatedBy(D: Matrix, n: nat, j: nat, r: real)
    requires IsMatrix(D, n, n) && j < n
  {
    forall i :: 0 <= i < n && i != j ==> r <= D[i][j]
  }

  /** Every point has another point within the minmax radius eps. */
  lemma MinMaxCovers(D: Matrix, n: nat)
    requires IsMatrix(D, n, n) && 2 <= n
    requires forall i, l :: 0 <= i < n && 0 <= l < n ==> 0.0 <= D[i][l] < DiagonalOffset
    ensures forall j :: 0 <= j < n ==> HasNeighbourWithin(D, n, j, Max(ColumnMinima(D, n)))
  {
    var m := ColumnMinima(D, n);
    forall j | 0 <= j < n ensures HasNeighbourWithin(D, n, j, Max(m)) {
      OffsetColumnMin(D, n, j);
      assert m[j] <= Max(m);
    }
  }

  /** Some point has no other point closer than the minmax radius eps, so no smaller
      radius gives every point a neighbour. */
  lemma MinMaxTight(D: Matrix, n: nat)
    requires IsMatrix(D, n, n) && 2 <= n
    requires forall i, l :: 0 <= i < n && 0 <= l < n ==> 0.0 <= D[i][l] < DiagonalOffset
    ensures exists j :: 0 <= j < n && IsolatedBy(D, n, j, Max(ColumnMinima(D, n)))
  {
    var m := ColumnMinima(D, n);
    var j :| 0 <= j < n && m[j] == Max(m);
    OffsetColumnMin(D, n, j);
    assert IsolatedBy(D, n, j, Max(m));
  }

  /** A single point is its own only neighbour, so the offset stays in the minimum. */
  lemma MinMaxSinglePoint(D: Matrix)
    requires IsMatrix(D, 1, 1)
    ensures var eps := D[0][0] + DiagonalOffset;
            MinMaxBandwidth(D, 1, 1) == Ok(Scalar(2.0 * Square(eps)))
  {
    var c := OffsetColumn(D, 1, 0);
    assert c[0] == D[0][0] + DiagonalOffset;
    assert Min(c) == c[0];
    var m := ColumnMinima(D, 1);
    assert m[0] == Min(c);
    assert Max(m) == m[0];
  }

  // ---------------------------------------------------------------- median

  /** `np.median` of a non-empty vector: the middle sorted value, or the mean of the
      two middle values when the length is even. */
  function Median(s: seq<real>): real
    requires |s| > 0
  {
    var t := Sort(s);
    var h := |t| / 2;
    if |t| % 2 == 1 then t[h] else (t[h - 1] + t[h]) / 2.0
  }

  /** The median lies between the extrema. */
  lemma MedianBounds(s: seq<real>)
    requires |s| > 0
    ensures Min(s) <= Median(s) <= Max(s)
  {
    var t := Sort(s);
    var h := |s| / 2;
    SortedMember(s, h);
    if |s| % 2 == 0 {
      SortedMember(s, h - 1);
      assert Median(s) == (t[h - 1] + t[h]) / 2.0;
    } else {
      assert Median(s) == t[h];
    }
  }

  /** The median depends only on the multiset of values. */
  lemma MedianPermutation(s: seq<real>, t: seq<real>)
    requires |s| > 0 && multiset(s) == multiset(t)
    ensures |t| > 0 && Median(s) == Median(t)
  {
    SortPermutation(s, t);
    assert |t| == |multiset(t)| == |multiset(s)| == |s|;
  }

  /** At least half of the values lie at or below the median, and at least half of
      them at or above it. */
  lemma MedianHalves(s: seq<real>)
    requires |s| > 0
    ensures 2 * CountAtMost(s, Median(s)) >= |s|
    ensures 2 * (|s| - CountBelow(s, Median(s))) >= |s|
  {
    var t := Sort(s);
    var h := |s| / 2;
    var m := Median(s);
    if |s| % 2 == 1 {
      assert m == t[h];
      SortRank(s, h);
    } else {
      assert m == (t[h - 1] + t[h]) / 2.0;
      SortSorted(s);
      assert t[h - 1] <= t[h];
      MedianRanks(s, h, m);
    }
  }

  /** For an even length 2h, a value between the two middle sorted values has at least
      h values at or below it and at most h strictly below it. */
  lemma MedianRanks(s: seq<real>, h: nat, m: real)
    requires 0 < h && |s| == 2 * h
    requires Sort(s)[h - 1] <= m <= Sort(s)[h]
    ensures CountAtMost(s, m) >= h && CountBelow(s, m) <= h
  {
    var t := Sort(s);
    SortRank(s, h - 1);
    SortRank(s, h);
    CountsMonotone(s, t[h - 1], m);
    CountsMonotone(s, m, t[h]);
  }

  /** The row medians of D. */
  function RowMedians(D: Matrix, rows: nat, cols: nat): (m: seq<real>)
    requires IsMatrix(D, rows, cols) && cols > 0
    ensures |m| == rows
  {
    seq(rows, i requires 0 <= i < rows => Median(D[i]))
  }

  /** `median`: the median of the row medians; NaN when D has no entries. */
  function MedianBandwidth(D: Matrix, rows: nat, cols: nat): (r: Bandwidth)
    requires IsMatrix(D, rows, cols)
    ensures r.Undefined? <==> rows == 0 || cols == 0
    ensures !r.Undefined? ==> r.Scalar?
  {
    if rows == 0 || cols == 0 then Undefined
    else Scalar(Median(RowMedians(D, rows, cols)))
  }

  /** The median bandwidth stays within any bounds on the distances. */
  lemma MedianBandwidthBounds(D: Matrix, rows: nat, cols: nat, lo: real, hi: real)
    requires IsMatrix(D, rows, cols) && rows > 0 && cols > 0
    requires forall i, j :: 0 <= i < rows && 0 <= j < cols ==> lo <= D[i][j] <= hi
    ensures lo <= MedianBandwidth(D, rows, cols).v <= hi
  {
    var m := RowMedians(D, rows, cols);
    forall i | 0 <= i < rows ensures lo <= m[i] <= hi {
      MedianBounds(D[i]);
      var a := Min(D[i]);
      var b := Max(D[i]);
    }
    MedianBounds(m);
  }

  // ---------------------------------------------------------------- choice

  /** A vector bandwidth divides D column by column, so numpy refuses one whose length
      is neither the column count nor 1. */
  function CheckBroadcast(b: Bandwidth, cols: nat): (r: Result<Bandwidth>)
    ensures r.Ok? <==> !b.PerColumn? || |b.vs| == cols || |b.vs| == 1
    ensures r.Ok? ==> r.value == b
    ensures r.Err? ==> r.error == ShapeMismatch
  {
    if b.PerColumn? && |b.vs| != cols && |b.vs| != 1 then Err(ShapeMismatch) else Ok(b)
  }

  predicate Broadcastable(b: Bandwidth, cols: nat) {
    b.PerColumn? ==> |b.vs| == cols || |b.vs| == 1
  }

  /** The bandwidth before scaling by `fac`, chosen by the sigma specification. */
  function ComputeBandwidth(D: Matrix, rows: nat, cols: nat, s: SigmaSpec, k: int, num: Numerics)
    : (r: Result<Bandwidth>)
    requires IsMatrix(D, rows, cols)
    ensures r.Ok? ==> Broadcastable(r.value, cols)
    ensures ValidateSigma(s).Err? ==> r == Err(InvalidSigma)
  {
    match s
    case Named(n) =>
      if n == "minmax" then MinMaxBandwidth(D, rows, cols)
      else if n == "median" then Ok(MedianBandwidth(D, rows, cols))
      else if n == "std" then CheckBroadcast(num.std(D), cols)
      else if n == "knn" then KnnBandwidth(D, rows, cols, k)
      else Err(InvalidSigma)
    case Number(v) => Ok(Scalar(v))
    case Func(f) => CheckBroadcast(f(D), cols)
  }

  /** `sigma * fac`. */
  function ScaleBandwidth(b: Bandwidth, fac: int): (r: Bandwidth)
    ensures r.Scalar? <==> b.Scalar?
    ensures r.Undefined? <==> b.Undefined?
    ensures b.Scalar? ==> r.v == b.v * fac as real
    ensures b.PerColumn? ==> |r.vs| == |b.vs| && forall j :: 0 <= j < |b.vs| ==> r.vs[j] == b.vs[j] * fac as real
  {
    match b
    case Scalar(v) => Scalar(v * fac as real)
    case PerColumn(vs) => PerColumn(seq(|vs|, j requires 0 <= j < |vs| => vs[j] * fac as real))
    case Undefined => Undefined
  }

  /** The bandwidth that divides column j, after numpy broadcasting. */
  function BandwidthAt(b: Bandwidth, cols: nat, j: nat): (e: Entry)
    requires Broadcastable(b, cols) && j < cols
    ensures e.NaN? <==> b.Undefined?
  {
    match b
    case Scalar(v) => Num(v)
    case PerColumn(vs) => Num(if |vs| == 1 then vs[0] else vs[j])
    case Undefined => NaN
  }

  /** exp(-(D / sigma)^a) entry by entry; a NaN bandwidth makes every entry NaN. */
  function Decayed(D: Matrix, rows: nat, cols: nat, b: Bandwidth, num: Numerics): (E: seq<seq<Entry>>)
    requires IsMatrix(D, rows, cols) && Broadcastable(b, cols)
    ensures IsMatrixOf(E, rows, cols)
    ensures b.Undefined? ==> forall i, j :: 0 <= i < rows && 0 <= j < cols ==> E[i][j] == NaN
  {
    seq(rows, i requires 0 <= i < rows => seq(cols, j requires 0 <= j < cols =>
      if b.Undefined? then NaN else num.decay(D[i][j], BandwidthAt(b, cols, j).v)))
  }

  // ---------------------------------------------------------------- clean-up

  /** `K[np.isnan(K)] = 0` followed by `K[K < 1e-3] = 0` on one entry. */
  function CleanEntry(e: Entry): (r: real)
    ensures r == 0.0 || r >= NoiseFloor
    ensures e.Num? && e.v >= NoiseFloor ==> r == e.v
    ensures r != 0.0 ==> e == Num(r)
  {
    match e
    case NaN => 0.0
    case Num(v) => if v < NoiseFloor then 0.0 else v
  }

  /** The clean-up of a whole decayed matrix. */
  function Threshold(E: seq<seq<Entry>>, rows: nat, cols: nat): (T: Matrix)
    requires IsMatrixOf(E, rows, cols)
    ensures IsMatrix(T, rows, cols) && NonNegative(T)
    ensures forall i, j :: 0 <= i < rows && 0 <= j < cols ==> T[i][j] == CleanEntry(E[i][j])
  {
    seq(rows, i requires 0 <= i < rows => seq(cols, j requires 0 <= j < cols => CleanEntry(E[i][j])))
  }

  /** The masked writes of the clean-up, in place on the kernel array. */
  method ThresholdInPlace(K: array2<Entry>)
    modifies K
    ensures forall i, j :: 0 <= i < K.Length0 && 0 <= j < K.Length1 ==>
              K[i, j] == Num(CleanEntry(old(K[i, j])))
  {
    forall i, j | 0 <= i < K.Length0 && 0 <= j < K.Length1 && K[i, j].NaN? {
      K[i, j] := Num(0.0);
    }
    forall i, j | 0 <= i < K.Length0 && 0 <= j < K.Length1 && K[i, j].Num? && K[i, j].v < NoiseFloor {
      K[i, j] := Num(0.0);
    }
  }

  // ---------------------------------------------------------------- gauss_kernel

  /** The kernel before symmetrisation. */
  function Thresholded(D: Matrix, rows: nat, cols: nat, sigma: Bandwidth, num: Numerics): (T: Matrix)
    requires IsMatrix(D, rows, cols) && Broadcastable(sigma, cols)
    ensures IsMatrix(T, rows, cols)
  {
    Threshold(Decayed(D, rows, cols, sigma, num), rows, cols)
  }

  /** `gauss_kernel` over the distance matrix D (rows x cols) between two point sets. */
  function GaussKernel(D: Matrix, rows: nat, cols: nat, s: SigmaSpec, k: int, fac: int, num: Numerics)
    : (r: Result<KernelResult>)
    requires IsMatrix(D, rows, cols)
    ensures ValidateSigma(s).Err? ==> r == Err(InvalidSigma)
    ensures r.Ok? ==> IsMatrix(r.value.K, rows, cols) && NonNegative(r.value.K)
    ensures r.Ok? && rows == cols ==> IsSymmetric(r.value.K, rows)
  {
    var _ :- ValidateSigma(s);
    var b :- ComputeBandwidth(D, rows, cols, s, k, num);
    var sigma := ScaleBandwidth(b, fac);
    var T := Thresholded(D, rows, cols, sigma, num);
    var K := if rows == cols then Symmetrize(T, rows) else T;
    Ok(KernelResult(K, sigma))
  }

  /** Before symmetrisation every kernel value is 0 or at least 1e-3; a kernel that is
      not square is returned as it is. */
  lemma KernelEntriesCleaned(D: Matrix, rows: nat, cols: nat, s: SigmaSpec, k: int, fac: int, num: Numerics,
                             i: nat, j: nat)
    requires IsMatrix(D, rows, cols) && GaussKernel(D, rows, cols, s, k, fac, num).Ok?
    requires i < rows && j < cols
    ensures var r := GaussKernel(D, rows, cols, s, k, fac, num).value;
            var T := Thresholded(D, rows, cols, r.sigma, num);
            (T[i][j] == 0.0 || T[i][j] >= NoiseFloor) &&
            (rows != cols ==> r.K[i][j] == T[i][j])
  {
  }

  /** A square kernel is the average of the cleaned kernel and its transpose, whether
      the two point sets are the same or merely of equal size. */
  lemma KernelSymmetrised(D: Matrix, n: nat, s: SigmaSpec, k: int, fac: int, num: Numerics, i: nat, j: nat)
    requires IsMatrix(D, n, n) && GaussKernel(D, n, n, s, k, fac, num).Ok?
    requires i < n && j < n
    ensures var r := GaussKernel(D, n, n, s, k, fac, num).value;
            var T := Thresholded(D, n, n, r.sigma, num);
            r.K[i][j] == (T[i][j] + T[j][i]) / 2.0
  {
  }

  /** No decayed value formed for the kernel exceeds 1, as exp(-x) does not for the
      x >= 0 that non-negative distances and a positive bandwidth give. */
  predicate DecayedAtMostOne(E: seq<seq<Entry>>, rows: nat, cols: nat)
    requires IsMatrixOf(E, rows, cols)
  {
    forall i, j :: 0 <= i < rows && 0 <= j < cols && E[i][j].Num? ==> E[i][j].v <= 1.0
  }

  /** When no decayed value exceeds 1, every kernel value lies in [0, 1]. */
  lemma KernelUnitRange(D: Matrix, rows: nat, cols: nat, s: SigmaSpec, k: int, fac: int, num: Numerics)
    requires IsMatrix(D, rows, cols) && GaussKernel(D, rows, cols, s, k, fac, num).Ok?
    requires DecayedAtMostOne(Decayed(D, rows, cols, GaussKernel(D, rows, cols, s, k, fac, num).value.sigma, num),
                              rows, cols)
    ensures var K := GaussKernel(D, rows, cols, s, k, fac, num).value.K;
            forall i, j :: 0 <= i < rows && 0 <= j < cols ==> 0.0 <= K[i][j] <= 1.0
  {
    var r := GaussKernel(D, rows, cols, s, k, fac, num).value;
    var E := Decayed(D, rows, cols, r.sigma, num);
    var T := Thresholded(D, rows, cols, r.sigma, num);
    forall i, j | 0 <= i < rows && 0 <= j < cols ensures 0.0 <= T[i][j] <= 1.0 {
      assert T[i][j] == CleanEntry(E[i][j]);
      assert E[i][j].Num? ==> E[i][j].v <= 1.0;
    }
    if rows == cols {
      SymmetrizeBounds(T, rows, 0.0, 1.0);
    }
  }

  /** The knn kernel exists exactly when k is a valid row index, and its bandwidth is
      the knn bandwidth scaled by fac. */
  lemma KnnKernel(D: Matrix, rows: nat, cols: nat, k: int, fac: int, num: Numerics)
    requires IsMatrix(D, rows, cols)
    ensures var r := GaussKernel(D, rows, cols, Named("knn"), k, fac, num);
            (r.Ok? <==> -(rows as int) <= k < rows) &&
            (r.Ok? ==> r.value.sigma == ScaleBandwidth(KnnBandwidth(D, rows, cols, k).value, fac))
  {
    assert "knn" in KnownNames;
  }

  /** A number is used as the bandwidth, scaled by fac, and never fails. */
  lemma NumberKernel(D: Matrix, rows: nat, cols: nat, v: real, k: int, fac: int, num: Numerics)
    requires IsMatrix(D, rows, cols)
    ensures var r := GaussKernel(D, rows, cols, Number(v), k, fac, num);
            r.Ok? && r.value.sigma == Scalar(v * fac as real)
  {
  }

  /** The `std` bandwidth is used as computed, scaled by fac, when it broadcasts against
      the columns; otherwise the division raises a broadcasting error. */
  lemma StdKernel(D: Matrix, rows: nat, cols: nat, k: int, fac: int, num: Numerics)
    requires IsMatrix(D, rows, cols)
    ensures var r := GaussKernel(D, rows, cols, Named("std"), k, fac, num);
            (r.Ok? <==> Broadcastable(num.std(D), cols)) &&
            (r.Ok? ==> r.value.sigma == ScaleBandwidth(num.std(D), fac)) &&
            (r.Err? ==> r.error == ShapeMismatch)
  {
  }

  /** A callable's bandwidth `sigma(D)` is used as returned, scaled by fac, when it
      broadcasts against the columns; otherwise the division raises a broadcasting
      error. */
  lemma CallableKernel(D: Matrix, rows: nat, cols: nat, f: Matrix -> Bandwidth, k: int, fac: int, num: Numerics)
    requires IsMatrix(D, rows, cols)
    ensures var r := GaussKernel(D, rows, cols, Func(f), k, fac, num);
            (r.Ok? <==> Broadcastable(f(D), cols)) &&
            (r.Ok? ==> r.value.sigma == ScaleBandwidth(f(D), fac)) &&
            (r.Err? ==> r.error == ShapeMismatch)
  {
  }
}

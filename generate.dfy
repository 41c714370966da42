/** `generate` with an array of local covariances: every data point i becomes npts[i]
    centres, each paired with the covariance of point i, and a Gaussian point is drawn
    around each centre. Centres, covariances and labels are grouped by source point, in
    the order of the data. */
module Generate {
  import opened Errors
  import opened Matrices

  /** k copies of x, as `np.tile` of a scalar or of a column makes them. */
  function Repeat<T>(x: T, k: nat): (s: seq<T>)
    ensures |s| == k && forall j :: 0 <= j < k ==> s[j] == x
  {
    seq(k, _ => x)
  }

  /** `labels_out`: `[]` at first, then `[labels_out, new_labels]` for every point, a
      left-nested pair whose innermost element comes first. */
  datatype LabelNest<L> = NoLabels | Nest(inner: LabelNest<L>, block: seq<L>)

  /** The labels of a nest in the order they were added. */
  function LabelsInOrder<L>(t: LabelNest<L>): seq<L> {
    match t
    case NoLabels => []
    case Nest(inner, block) => LabelsInOrder(inner) + block
  }

  /** How many `[labels_out, new_labels]` pairs the nest holds. */
  function Depth<L>(t: LabelNest<L>): nat {
    match t
    case NoLabels => 0
    case Nest(inner, _) => Depth(inner) + 1
  }

  /** `rep_centers`, `rep_cov` and `labels_out` after some of the points. */
  datatype Replication<L> = Replication(centres: seq<seq<real>>, covariances: seq<Matrix>, labels: LabelNest<L>)

  /** What `generate` returns: the drawn points and `labels_out`. */
  datatype Generated<L> = Generated(points: seq<seq<real>>, labels: LabelNest<L>)

  /** The data is N x D and every local covariance present is D x D. */
  predicate WellShaped(data: Matrix, N: nat, D: nat, covs: seq<Matrix>) {
    IsMatrix(data, N, D) && forall i :: 0 <= i < |covs| ==> IsMatrix(covs[i], D, D)
  }

  /** Point i passes the loop without an exception: `npts[i]` and, when there are labels,
      `labels[i]` exist, and a point with copies has a covariance that can be reshaped
      into D x D blocks. */
  predicate Admissible<L>(i: nat, D: nat, npts: seq<nat>, covs: seq<Matrix>, labels: seq<L>) {
    i < |npts| && (|labels| > 0 ==> i < |labels|) && (npts[i] != 0 ==> i < |covs| && D > 0)
  }

  /** One pass of the loop over the data, for point i, raising where the source raises. */
  function Step<L>(acc: Replication<L>, i: nat, data: Matrix, N: nat, D: nat, npts: seq<nat>,
                   covs: seq<Matrix>, labels: seq<L>): (r: Result<Replication<L>>)
    requires WellShaped(data, N, D, covs) && i < N
    ensures r.Ok? <==> Admissible(i, D, npts, covs, labels)
  {
    if i >= |npts| then Err(IndexOutOfRange)
    else if |labels| > 0 && i >= |labels| then Err(IndexOutOfRange)
    else if npts[i] != 0 && i >= |covs| then Err(IndexOutOfRange)
    else if npts[i] != 0 && D == 0 then Err(ShapeMismatch)
    else
      var k := npts[i];
      Ok(Replication(
        if D > 0 && k > 0 then acc.centres + Repeat(data[i], k) else acc.centres,
        if k != 0 then acc.covariances + Repeat(covs[i], k) else acc.covariances,
        if |labels| > 0 then Nest(acc.labels, Repeat(labels[i], k)) else acc.labels))
  }

  /** The loop over the first n points. */
  function Replicate<L>(n: nat, data: Matrix, N: nat, D: nat, npts: seq<nat>, covs: seq<Matrix>,
                        labels: seq<L>): Result<Replication<L>>
    requires WellShaped(data, N, D, covs) && n <= N
  {
    if n == 0 then Ok(Replication([], [], NoLabels))
    else
      var acc :- Replicate(n - 1, data, N, D, npts, covs, labels);
      Step(acc, n - 1, data, N, D, npts, covs, labels)
  }

  /** The Gaussian draw around every centre with its covariance; `draw` stands for
      `np.random.multivariate_normal`. */
  function Draws(centres: seq<seq<real>>, covariances: seq<Matrix>, draw: (seq<real>, Matrix) -> seq<real>)
    : (p: seq<seq<real>>)
    requires |centres| == |covariances|
    ensures |p| == |centres| && forall j :: 0 <= j < |p| ==> p[j] == draw(centres[j], covariances[j])
  {
    seq(|centres|, j requires 0 <= j < |centres| => draw(centres[j], covariances[j]))
  }

  /** `generate(data, npts, noise_cov, labels)` with an array noise_cov; `np.vstack` and
      `np.hstack` of an empty list raise. */
  function GenerateSpec<L>(data: Matrix, N: nat, D: nat, npts: seq<nat>, covs: seq<Matrix>, labels: seq<L>,
                           draw: (seq<real>, Matrix) -> seq<real>): Result<Generated<L>>
    requires WellShaped(data, N, D, covs)
  {
    var rep :- Replicate(N, data, N, D, npts, covs, labels);
    if |rep.covariances| == 0 then Err(EmptyConcatenation)
    else if |rep.centres| == 0 then Err(EmptyConcatenation)
    else
      ReplicateCentres(N, data, N, D, npts, covs, labels);
      ReplicateCovariances(N, data, N, D, npts, covs, labels);
      Ok(Generated(Draws(rep.centres, rep.covariances, draw), rep.labels))
  }

  /** The loop of `generate`, appending to the centre, covariance and label lists. */
  method RunGenerate<L>(data: Matrix, N: nat, D: nat, npts: seq<nat>, covs: seq<Matrix>, labels: seq<L>,
                        draw: (seq<real>, Matrix) -> seq<real>) returns (r: Result<Generated<L>>)
    requires WellShaped(data, N, D, covs)
    ensures r == GenerateSpec(data, N, D, npts, covs, labels, draw)
  {
    var centres: seq<seq<real>> := [];
    var reps: seq<Matrix> := [];
    var out: LabelNest<L> := NoLabels;
    for i := 0 to N
      invariant Replicate(i, data, N, D, npts, covs, labels) == Ok(Replication(centres, reps, out))
    {
      ghost var before := Replication(centres, reps, out);
      if i >= |npts| {
        FailurePersists(i + 1, N, data, N, D, npts, covs, labels);
        return Err(IndexOutOfRange);
      }
      var newCentres := Repeat(data[i], npts[i]);
      if |labels| > 0 {
        if i >= |labels| {
          FailurePersists(i + 1, N, data, N, D, npts, covs, labels);
          return Err(IndexOutOfRange);
        }
        out := Nest(out, Repeat(labels[i], npts[i]));
      }
      if D > 0 && npts[i] > 0 {
        centres := centres + newCentres;
      }
      if npts[i] != 0 {
        if i >= |covs| {
          FailurePersists(i + 1, N, data, N, D, npts, covs, labels);
          return Err(IndexOutOfRange);
        }
        if D == 0 {
          FailurePersists(i + 1, N, data, N, D, npts, covs, labels);
          return Err(ShapeMismatch);
        }
        reps := reps + Repeat(covs[i], npts[i]);
      }
      assert Step(before, i, data, N, D, npts, covs, labels) == Ok(Replication(centres, reps, out));
    }
    if |reps| == 0 {
      return Err(EmptyConcatenation);
    }
    if |centres| == 0 {
      return Err(EmptyConcatenation);
    }
    ReplicateCentres(N, data, N, D, npts, covs, labels);
    ReplicateCovariances(N, data, N, D, npts, covs, labels);
    var points: seq<seq<real>> := [];
    for j := 0 to |centres|
      invariant |points| == j && forall l :: 0 <= l < j ==> points[l] == draw(centres[l], reps[l])
    {
      points := points + [draw(centres[j], reps[j])];
    }
    assert points == Draws(centres, reps, draw);
    return Ok(Generated(points, out));
  }

  // ---------------------------------------------------------------- the source of every copy

  /** `np.sum(npts[:n])`. */
  function Total(npts: seq<nat>, n: nat): nat
    requires n <= |npts|
  {
    if n == 0 then 0 else Total(npts, n - 1) + npts[n - 1]
  }

  /** The point every replicated centre comes from, in order: i listed npts[i] times. */
  function Sources(npts: seq<nat>, n: nat): seq<nat>
    requires n <= |npts|
  {
    if n == 0 then [] else Sources(npts, n - 1) + Repeat(n - 1, npts[n - 1])
  }

  lemma {:induction false} SourcesShape(npts: seq<nat>, n: nat)
    requires n <= |npts|
    ensures |Sources(npts, n)| == Total(npts, n)
    ensures forall j :: 0 <= j < |Sources(npts, n)| ==> Sources(npts, n)[j] < n && npts[Sources(npts, n)[j]] > 0
  {
    if n > 0 {
      SourcesShape(npts, n - 1);
    }
  }

  lemma {:induction false} SourcesPrefix(npts: seq<nat>, m: nat, n: nat)
    requires m <= n <= |npts|
    ensures Sources(npts, m) <= Sources(npts, n)
  {
    if m < n {
      SourcesPrefix(npts, m, n - 1);
    }
  }

  /** The copies of point i sit together, right after those of the points before it. */
  lemma SourcesBlock(npts: seq<nat>, n: nat, i: nat)
    requires i < n <= |npts|
    ensures Total(npts, i + 1) <= |Sources(npts, n)|
    ensures forall j :: Total(npts, i) <= j < Total(npts, i + 1) ==> Sources(npts, n)[j] == i
  {
    SourcesShape(npts, i);
    SourcesShape(npts, i + 1);
    SourcesPrefix(npts, i + 1, n);
  }

  /** The copies follow the order of the data. */
  lemma {:induction false} SourcesGrouped(npts: seq<nat>, n: nat)
    requires n <= |npts|
    ensures forall j, l :: 0 <= j <= l < |Sources(npts, n)| ==> Sources(npts, n)[j] <= Sources(npts, n)[l]
  {
    if n > 0 {
      SourcesGrouped(npts, n - 1);
      SourcesShape(npts, n - 1);
    }
  }

  lemma {:induction false} RepeatCount<T>(x: T, k: nat, y: T)
    ensures multiset(Repeat(x, k))[y] == if y == x then k else 0
  {
    if k > 0 {
      RepeatCount(x, k - 1, y);
      assert Repeat(x, k) == Repeat(x, k - 1) + [x];
    }
  }

  /** Point i is the source of exactly npts[i] copies; a point with no copies is the
      source of none. */
  lemma {:induction false} SourcesCount(npts: seq<nat>, n: nat, i: nat)
    requires n <= |npts|
    ensures multiset(Sources(npts, n))[i] == if i < n then npts[i] else 0
  {
    if n > 0 {
      SourcesCount(npts, n - 1, i);
      RepeatCount(n - 1, npts[n - 1], i);
    }
  }

  // ---------------------------------------------------------------- the loop

  /** The loop gets past the first n points exactly when each of them is admissible. */
  lemma {:induction false} ReplicateAdmissible<L>(n: nat, data: Matrix, N: nat, D: nat, npts: seq<nat>,
                                                  covs: seq<Matrix>, labels: seq<L>)
    requires WellShaped(data, N, D, covs) && n <= N
    ensures Replicate(n, data, N, D, npts, covs, labels).Ok? <==>
            forall i :: 0 <= i < n ==> Admissible(i, D, npts, covs, labels)
  {
    if n > 0 {
      ReplicateAdmissible(n - 1, data, N, D, npts, covs, labels);
    }
  }

  /** Once a point raises, the loop raises the same exception. */
  lemma {:induction false} FailurePersists<L>(n: nat, m: nat, data: Matrix, N: nat, D: nat, npts: seq<nat>,
                                              covs: seq<Matrix>, labels: seq<L>)
    requires WellShaped(data, N, D, covs) && n <= m <= N
    requires Replicate(n, data, N, D, npts, covs, labels).Err?
    ensures Replicate(m, data, N, D, npts, covs, labels) == Replicate(n, data, N, D, npts, covs, labels)
  {
    if n < m {
      FailurePersists(n, m - 1, data, N, D, npts, covs, labels);
    }
  }

  /** The j-th replicated covariance is the covariance of the j-th copy's source. */
  lemma {:induction false} ReplicateCovariances<L>(n: nat, data: Matrix, N: nat, D: nat, npts: seq<nat>,
                                                   covs: seq<Matrix>, labels: seq<L>)
    requires WellShaped(data, N, D, covs) && n <= N
    requires Replicate(n, data, N, D, npts, covs, labels).Ok?
    ensures n <= |npts|
    ensures var v := Replicate(n, data, N, D, npts, covs, labels).value.covariances;
            var s := Sources(npts, n);
            |v| == |s| && forall j :: 0 <= j < |s| ==> s[j] < |covs| && v[j] == covs[s[j]]
  {
    if n > 0 {
      ReplicateCovariances(n - 1, data, N, D, npts, covs, labels);
      SourcesShape(npts, n - 1);
    }
  }

  /** The j-th replicated centre is the data row of the j-th copy's source; with no
      features the loop only gets through when no point has copies. */
  lemma {:induction false} ReplicateCentres<L>(n: nat, data: Matrix, N: nat, D: nat, npts: seq<nat>,
                                               covs: seq<Matrix>, labels: seq<L>)
    requires WellShaped(data, N, D, covs) && n <= N
    requires Replicate(n, data, N, D, npts, covs, labels).Ok?
    ensures n <= |npts|
    ensures var c := Replicate(n, data, N, D, npts, covs, labels).value.centres;
            var s := Sources(npts, n);
            (D > 0 ==> |c| == |s| && forall j :: 0 <= j < |s| ==> s[j] < N && c[j] == data[s[j]]) &&
            (D == 0 ==> c == [] && |s| == 0)
  {
    if n > 0 {
      ReplicateCentres(n - 1, data, N, D, npts, covs, labels);
      SourcesShape(npts, n - 1);
    }
  }

  /** With labels, `labels_out` holds one pair per point and lists the label of the
      source of every copy; without labels it stays `[]`. */
  lemma {:induction false} ReplicateLabels<L>(n: nat, data: Matrix, N: nat, D: nat, npts: seq<nat>,
                                              covs: seq<Matrix>, labels: seq<L>)
    requires WellShaped(data, N, D, covs) && n <= N
    requires Replicate(n, data, N, D, npts, covs, labels).Ok?
    ensures n <= |npts|
    ensures var t := Replicate(n, data, N, D, npts, covs, labels).value.labels;
            var s := Sources(npts, n);
            (|labels| == 0 ==> t == NoLabels) &&
            (|labels| > 0 ==> Depth(t) == n && |LabelsInOrder(t)| == |s| &&
                              forall j :: 0 <= j < |s| ==> s[j] < |labels| && LabelsInOrder(t)[j] == labels[s[j]])
  {
    if n > 0 {
      ReplicateLabels(n - 1, data, N, D, npts, covs, labels);
      SourcesShape(npts, n - 1);
    }
  }

  // ---------------------------------------------------------------- generate

  /** `generate` succeeds exactly when every point is admissible and some point has a
      copy. It then draws `np.sum(npts)` points, the j-th around the data row of the j-th
      copy's source with that source's covariance. */
  lemma GenerateReplicates<L>(data: Matrix, N: nat, D: nat, npts: seq<nat>, covs: seq<Matrix>, labels: seq<L>,
                              draw: (seq<real>, Matrix) -> seq<real>)
    requires WellShaped(data, N, D, covs)
    ensures var r := GenerateSpec(data, N, D, npts, covs, labels, draw);
            r.Ok? <==> N <= |npts| && (forall i :: 0 <= i < N ==> Admissible(i, D, npts, covs, labels)) &&
                       Total(npts, N) > 0
    ensures var r := GenerateSpec(data, N, D, npts, covs, labels, draw);
            r.Ok? ==> (N <= |npts| &&
                       var s := Sources(npts, N);
                       |r.value.points| == |s| == Total(npts, N) &&
                       forall j :: 0 <= j < |s| ==>
                         s[j] < N && s[j] < |covs| && r.value.points[j] == draw(data[s[j]], covs[s[j]]))
  {
    ReplicateAdmissible(N, data, N, D, npts, covs, labels);
    var rep := Replicate(N, data, N, D, npts, covs, labels);
    if rep.Ok? {
      ReplicateCentres(N, data, N, D, npts, covs, labels);
      ReplicateCovariances(N, data, N, D, npts, covs, labels);
      SourcesShape(npts, N);
    } else if N <= |npts| && forall i :: 0 <= i < N ==> Admissible(i, D, npts, covs, labels) {
      assert false;
    }
  }

  /** Generated points come in blocks, one per data point in the order of the data, the
      block of point i holding npts[i] draws around data[i]. */
  lemma GenerateBlocks<L>(data: Matrix, N: nat, D: nat, npts: seq<nat>, covs: seq<Matrix>, labels: seq<L>,
                          draw: (seq<real>, Matrix) -> seq<real>, i: nat)
    requires WellShaped(data, N, D, covs) && i < N
    requires GenerateSpec(data, N, D, npts, covs, labels, draw).Ok?
    ensures N <= |npts| && Total(npts, i + 1) <= |GenerateSpec(data, N, D, npts, covs, labels, draw).value.points|
    ensures npts[i] > 0 ==>
              (i < |covs| &&
               forall j :: Total(npts, i) <= j < Total(npts, i + 1) ==>
                 GenerateSpec(data, N, D, npts, covs, labels, draw).value.points[j] == draw(data[i], covs[i]))
  {
    GenerateReplicates(data, N, D, npts, covs, labels, draw);
    assert Admissible(i, D, npts, covs, labels);
    SourcesBlock(npts, N, i);
  }

  /** The labels returned list, for every generated point, the label of its source. */
  lemma GenerateLabels<L>(data: Matrix, N: nat, D: nat, npts: seq<nat>, covs: seq<Matrix>, labels: seq<L>,
                          draw: (seq<real>, Matrix) -> seq<real>)
    requires WellShaped(data, N, D, covs)
    requires GenerateSpec(data, N, D, npts, covs, labels, draw).Ok?
    ensures N <= |npts|
    ensures var g := GenerateSpec(data, N, D, npts, covs, labels, draw).value;
            var s := Sources(npts, N);
            (|labels| == 0 ==> g.labels == NoLabels) &&
            (|labels| > 0 ==> Depth(g.labels) == N && |LabelsInOrder(g.labels)| == |s| == |g.points| &&
                              forall j :: 0 <= j < |s| ==> s[j] < |labels| && LabelsInOrder(g.labels)[j] == labels[s[j]])
  {
    GenerateReplicates(data, N, D, npts, covs, labels, draw);
    ReplicateLabels(N, data, N, D, npts, covs, labels);
  }

  // ---------------------------------------------------------------- the covariance tiling as written

  /** `np.tile(A, k)` of a D x D matrix: every row repeated k times side by side. */
  function Tile(A: Matrix, D: nat, k: nat): (T: Matrix)
    requires D > 0 && IsMatrix(A, D, D)
    ensures IsMatrix(T, D, D * k)
  {
    seq(D, r requires 0 <= r < D => seq(D * k, c requires 0 <= c < D * k => A[r][c % D]))
  }

  /** The entries of a matrix in row-major order, as numpy stores them. */
  function RowMajor(T: Matrix): seq<real> {
    if |T| == 0 then [] else T[0] + RowMajor(T[1..])
  }

  lemma {:induction false} RowMajorLength(T: Matrix, rows: nat, cols: nat)
    requires IsMatrix(T, rows, cols)
    ensures |RowMajor(T)| == rows * cols
  {
    if rows > 0 {
      RowMajorLength(T[1..], rows - 1, cols);
    }
  }

  /** A sequence cut into consecutive pieces of length w; numpy's row-major reshape. */
  function Chunks<T>(x: seq<T>, w: nat): seq<seq<T>>
    requires w > 0
    decreases |x|
  {
    if |x| < w then [] else [x[..w]] + Chunks(x[w..], w)
  }

  lemma {:induction false} ChunksShape<T>(x: seq<T>, w: nat, m: nat)
    requires w > 0 && |x| == m * w
    ensures |Chunks(x, w)| == m && forall j :: 0 <= j < m ==> |Chunks(x, w)[j]| == w
  {
    if m > 0 {
      assert |x[w..]| == (m - 1) * w;
      ChunksShape(x[w..], w, m - 1);
    }
  }

  /** `.reshape(-1, D, D)` of D * D * k entries: k blocks of D rows of D entries. */
  function Reshape(flat: seq<real>, D: nat, k: nat): (B: seq<Matrix>)
    requires D > 0 && |flat| == D * (D * k)
    ensures |B| == k
  {
    ChunksShape(flat, D, D * k);
    ChunksShape(Chunks(flat, D), D, k);
    Chunks(Chunks(flat, D), D)
  }

  /** `np.tile(noise_cov[i], npts[i]).reshape(-1, *noise_cov[i].shape)`, as written. */
  function TiledCovariances(A: Matrix, D: nat, k: nat): (B: seq<Matrix>)
    requires D > 0 && IsMatrix(A, D, D)
    ensures |B| == k
  {
    RowMajorLength(Tile(A, D, k), D, D * k);
    Reshape(RowMajor(Tile(A, D, k)), D, k)
  }

  /** With two or more features and two or more copies the first block repeats the first
      row of A in its second row, so it is not A unless A's first two rows agree. */
  lemma TiledCovariancesScramble(A: Matrix, D: nat, k: nat)
    requires D >= 2 && k >= 2 && IsMatrix(A, D, D)
    ensures TiledCovariances(A, D, k)[0][1] == A[0]
    ensures A[0] != A[1] ==> TiledCovariances(A, D, k)[0] != A
  {
    var T := Tile(A, D, k);
    RowMajorLength(T, D, D * k);
    var flat := RowMajor(T);
    assert D * k >= 2 * D;
    assert flat[..D * k] == T[0];
    ChunksShape(flat, D, D * k);
    var rows := Chunks(flat, D);
    assert rows[1] == flat[D .. 2 * D] by {
      assert rows == [flat[..D]] + Chunks(flat[D..], D);
      assert Chunks(flat[D..], D)[0] == flat[D..][..D];
    }
    var row := TiledCovariances(A, D, k)[0][1];
    assert row == rows[1] by {
      assert Chunks(rows, D)[0] == rows[..D];
    }
    forall c | 0 <= c < D ensures row[c] == A[0][c] {
      assert row[c] == T[0][D + c];
      ModShift(c, D);
    }
  }

  lemma ModShift(c: nat, D: nat)
    requires c < D
    ensures (D + c) % D == c
  {
    var q, r := (D + c) / D, (D + c) % D;
    assert D + c == q * D + r;
    assert q == 1;
  }

  /** For the covariance [[1, 2], [3, 4]] and two copies the tiling as written yields
      [[1, 2], [1, 2]] and [[3, 4], [3, 4]] instead of two copies of the matrix. */
  lemma TiledCovariancesExample()
    ensures TiledCovariances([[1.0, 2.0], [3.0, 4.0]], 2, 2) == [[[1.0, 2.0], [1.0, 2.0]], [[3.0, 4.0], [3.0, 4.0]]]
    ensures TiledCovariances([[1.0, 2.0], [3.0, 4.0]], 2, 2) != Repeat([[1.0, 2.0], [3.0, 4.0]], 2)
  {
    var A := [[1.0, 2.0], [3.0, 4.0]];
    TiledExampleFlat();
    ReshapeExample();
    var B := TiledCovariances(A, 2, 2);
    assert B[0][1] != Repeat(A, 2)[0][1];
  }

  /** The tiled example matrix read row by row. */
  lemma TiledExampleFlat()
    ensures RowMajor(Tile([[1.0, 2.0], [3.0, 4.0]], 2, 2)) == [1.0, 2.0, 1.0, 2.0, 3.0, 4.0, 3.0, 4.0]
  {
    var A := [[1.0, 2.0], [3.0, 4.0]];
    var T := Tile(A, 2, 2);
    assert T[0] == [1.0, 2.0, 1.0, 2.0] by {
      assert T[0][2] == A[0][0] && T[0][3] == A[0][1];
    }
    assert T[1] == [3.0, 4.0, 3.0, 4.0] by {
      assert T[1][2] == A[1][0] && T[1][3] == A[1][1];
    }
    assert RowMajor(T[2..]) == [];
    assert RowMajor(T[1..]) == T[1];
  }

  /** The reshape of the example's flat tiled values into two 2 x 2 blocks. */
  lemma ReshapeExample()
    ensures Reshape([1.0, 2.0, 1.0, 2.0, 3.0, 4.0, 3.0, 4.0], 2, 2) ==
            [[[1.0, 2.0], [1.0, 2.0]], [[3.0, 4.0], [3.0, 4.0]]]
  {
    var flat: seq<real> := [1.0, 2.0, 1.0, 2.0, 3.0, 4.0, 3.0, 4.0];
    var rows := Chunks(flat, 2);
    var x6: seq<real> := [3.0, 4.0];
    var x4: seq<real> := [3.0, 4.0] + x6;
    var x2: seq<real> := [1.0, 2.0] + x4;
    assert flat == [1.0, 2.0] + x2;
    assert Chunks(x6[2..], 2) == [];
    assert x6[..2] == x6;
    assert Chunks(x6, 2) == [[3.0, 4.0]];
    assert x4[2..] == x6;
    assert Chunks(x4, 2) == [[3.0, 4.0], [3.0, 4.0]];
    assert x2[2..] == x4;
    assert Chunks(x2, 2) == [[1.0, 2.0], [3.0, 4.0], [3.0, 4.0]];
    assert flat[2..] == x2;
    assert rows == [[1.0, 2.0], [1.0, 2.0], [3.0, 4.0], [3.0, 4.0]];
    var r2: seq<seq<real>> := [[3.0, 4.0], [3.0, 4.0]];
    assert rows[2..] == r2;
    assert Chunks(r2[2..], 2) == [];
    assert r2[..2] == r2;
    assert Chunks(r2, 2) == [r2];
    var r0: seq<seq<real>> := [[1.0, 2.0], [1.0, 2.0]];
    assert rows[..2] == r0;
    assert Chunks(rows, 2) == [r0] + Chunks(rows[2..], 2);
  }
}

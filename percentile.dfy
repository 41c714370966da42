/** `matlab_percentile`: percentiles as IDL and Matlab compute them. The i-th smallest of
    n values sits at rank 100 (i + 0.5) / n; between two ranks the value is interpolated
    linearly, below the first rank it is the minimum and above the last the maximum. */
module Percentile {
  import opened Errors
  import opened ExtReals
  import opened Matrices
  import opened Sorting

  /** `p_rank[i]`, the percentile at which the i-th smallest of n values is placed. */
  function Rank(i: int, n: nat): real
    requires n > 0
  {
    100.0 * (i as real + 0.5) / n as real
  }

  /** Where the percentile p falls among the ranks, counted in rank steps of 100 / n:
      rank i sits at position i. */
  function Position(p: real, n: nat): real
    requires n > 0
  {
    p * n as real / 100.0 - 0.5
  }

  /** `np.interp` at position u of the sorted values t with `left=t[0]` and
      `right=t[-1]`: the value interpolated between t[j] and t[j + 1], j being the
      last rank at or below u. */
  function Interp(t: seq<real>, u: real): (r: real)
    requires |t| > 0
  {
    if u < 0.0 then t[0]
    else if u >= (|t| - 1) as real then t[|t| - 1]
    else
      var j := u.Floor;
      t[j] + Times(u - j as real, t[j + 1] - t[j])
  }

  /** `matlab_percentile(x, p)`; for an empty vector `data[0]` raises. */
  function MatlabPercentile(x: seq<real>, p: real): (r: Result<real>)
    ensures r.Ok? <==> |x| > 0
    ensures r.Err? ==> r.error == IndexOutOfRange
  {
    if |x| == 0 then Err(IndexOutOfRange) else Ok(Interp(Sort(x), Position(p, |x|)))
  }

  // ---------------------------------------------------------------- ranks and positions

  lemma PositionOfRank(i: int, n: nat)
    requires n > 0
    ensures Position(Rank(i, n), n) == i as real
  {
    var r := Rank(i, n);
    assert r * n as real == 100.0 * (i as real + 0.5);
  }

  lemma PositionMonotone(p: real, q: real, n: nat)
    requires n > 0 && p <= q
    ensures Position(p, n) <= Position(q, n)
    ensures p < q ==> Position(p, n) < Position(q, n)
  {
    var m := n as real;
    assert Position(p, n) == p * m / 100.0 - 0.5;
    assert Position(q, n) == q * m / 100.0 - 0.5;
    if p < q {
      ProductGap(p, q, m);
      assert Position(p, n) < Position(q, n);
    }
  }

  lemma ProductGap(p: real, q: real, m: real)
    requires p < q && m > 0.0
    ensures p * m / 100.0 - 0.5 < q * m / 100.0 - 0.5
  {
    PositiveProduct(q - p, m);
    var x, y := p * m, q * m;
    assert (q - p) * m == y - x;
    assert x < y;
  }

  /** Percentiles below the first rank are left of position 0, and those at or above the
      last rank are at or right of position n - 1; the converse holds too. */
  lemma RankBounds(p: real, n: nat)
    requires n > 0
    ensures p < Rank(0, n) <==> Position(p, n) < 0.0
    ensures p >= Rank(n - 1, n) <==> Position(p, n) >= (n - 1) as real
  {
    PositionOfRank(0, n);
    PositionOfRank(n - 1, n);
    if p < Rank(0, n) { PositionMonotone(p, Rank(0, n), n); } else { PositionMonotone(Rank(0, n), p, n); }
    if p < Rank(n - 1, n) { PositionMonotone(p, Rank(n - 1, n), n); } else { PositionMonotone(Rank(n - 1, n), p, n); }
  }

  // ---------------------------------------------------------------- interpolation

  /** A fraction f in [0, 1] of the gap d >= 0 lies within the gap. */
  lemma PartOfGap(f: real, d: real)
    requires 0.0 <= f <= 1.0 && d >= 0.0
    ensures 0.0 <= Times(f, d) <= d
  {
    assert Times(1.0 - f, d) >= 0.0;
  }

  /** On sorted values the interpolation lies between the two values around u. */
  lemma InterpBetween(t: seq<real>, u: real)
    requires |t| > 0 && Sorted(t) && 0.0 <= u < (|t| - 1) as real
    ensures t[u.Floor] <= Interp(t, u) <= t[u.Floor + 1]
  {
    var j := u.Floor;
    PartOfGap(u - j as real, t[j + 1] - t[j]);
  }

  /** On sorted values the interpolation lies between the smallest and the largest. */
  lemma InterpBounds(t: seq<real>, u: real)
    requires |t| > 0 && Sorted(t)
    ensures t[0] <= Interp(t, u) <= t[|t| - 1]
  {
    if 0.0 <= u < (|t| - 1) as real {
      InterpBetween(t, u);
    }
  }

  /** At a whole position i the interpolation is the i-th value. */
  lemma InterpAtIndex(t: seq<real>, i: nat)
    requires i < |t|
    ensures Interp(t, i as real) == t[i]
  {
    if i < |t| - 1 {
      assert (i as real).Floor == i;
      assert Times(0.0, t[i + 1] - t[i]) == 0.0;
    }
  }

  /** On sorted values the interpolation does not decrease with the position. */
  lemma InterpMonotone(t: seq<real>, u: real, v: real)
    requires |t| > 0 && Sorted(t) && u <= v
    ensures Interp(t, u) <= Interp(t, v)
  {
    var last := (|t| - 1) as real;
    InterpBounds(t, u);
    InterpBounds(t, v);
    if 0.0 <= u < last && 0.0 <= v < last {
      var j, k := u.Floor, v.Floor;
      if j == k {
        assert u - j as real <= v - j as real;
        MulMonoLeft(u - j as real, v - j as real, t[j + 1] - t[j]);
      } else {
        InterpBetween(t, u);
        InterpBetween(t, v);
        assert j + 1 <= k;
      }
    }
  }

  lemma MulMonoLeft(a: real, b: real, d: real)
    requires a <= b && d >= 0.0
    ensures Times(a, d) <= Times(b, d)
  {
    assert Times(b - a, d) >= 0.0;
  }

  // ---------------------------------------------------------------- percentiles

  /** Every percentile lies between the minimum and the maximum. */
  lemma PercentileBounds(x: seq<real>, p: real)
    requires |x| > 0
    ensures Min(x) <= MatlabPercentile(x, p).value <= Max(x)
  {
    SortSorted(x);
    SortEnds(x);
    InterpBounds(Sort(x), Position(p, |x|));
  }

  /** Below the first rank, 50 / n, the percentile is the minimum. */
  lemma PercentileLeft(x: seq<real>, p: real)
    requires |x| > 0 && p < Rank(0, |x|)
    ensures MatlabPercentile(x, p).value == Min(x)
  {
    RankBounds(p, |x|);
    SortEnds(x);
  }

  /** At or above the last rank, 100 (n - 0.5) / n, the percentile is the maximum. */
  lemma PercentileRight(x: seq<real>, p: real)
    requires |x| > 0 && p >= Rank(|x| - 1, |x|)
    ensures MatlabPercentile(x, p).value == Max(x)
  {
    RankBounds(p, |x|);
    SortEnds(x);
  }

  /** At the rank of the i-th smallest value the percentile is that value. */
  lemma PercentileAtRank(x: seq<real>, i: nat)
    requires i < |x|
    ensures MatlabPercentile(x, Rank(i, |x|)).value == Sort(x)[i]
  {
    PositionOfRank(i, |x|);
    InterpAtIndex(Sort(x), i);
  }

  /** Percentiles do not decrease as p grows. */
  lemma PercentileMonotone(x: seq<real>, p: real, q: real)
    requires |x| > 0 && p <= q
    ensures MatlabPercentile(x, p).value <= MatlabPercentile(x, q).value
  {
    SortSorted(x);
    PositionMonotone(p, q, |x|);
    InterpMonotone(Sort(x), Position(p, |x|), Position(q, |x|));
  }

  /** The percentile depends on the values only, not on their order. */
  lemma PercentilePermutation(x: seq<real>, y: seq<real>, p: real)
    requires multiset(x) == multiset(y)
    ensures MatlabPercentile(x, p) == MatlabPercentile(y, p)
  {
    SortPermutation(x, y);
    assert |x| == |multiset(x)| == |y|;
  }

  // ---------------------------------------------------------------- scaling

  lemma Distribute(a: real, b: real, f: real, c: real)
    ensures Times(a, c) + Times(f, Times(b, c) - Times(a, c)) == Times(a + Times(f, b - a), c)
  {
  }

  /** Interpolating values scaled by c gives the interpolation scaled by c. */
  lemma InterpScale(t: seq<real>, u: real, c: real)
    requires |t| > 0
    ensures Interp(Scale(t, c), u) == Times(Interp(t, u), c)
  {
    ScaleAt(t, c, 0);
    ScaleAt(t, c, |t| - 1);
    if 0.0 <= u < (|t| - 1) as real {
      var j := u.Floor;
      ScaleAt(t, c, j);
      ScaleAt(t, c, j + 1);
      Distribute(t[j], t[j + 1], u - j as real, c);
    }
  }

  /** Scaling the values by c > 0 scales every percentile by c. */
  lemma PercentileScale(x: seq<real>, p: real, c: real)
    requires |x| > 0 && c > 0.0
    ensures MatlabPercentile(Scale(x, c), p).value == Times(MatlabPercentile(x, p).value, c)
  {
    SortScale(x, c);
    InterpScale(Sort(x), Position(p, |x|), c);
  }
}

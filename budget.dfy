/** `numpts`: how many new points to generate around each point, from its degree.
    Points of low degree (sparse regions) receive more points; the optional density
    equalisation multiplies each point's share by a non-negative weight. */
module Budget {
  import opened Errors
  import opened ExtReals
  import opened Matrices
  import opened Sorting

  /** The advisories `numpts` logs; none of them changes the counts it returns. */
  datatype Warning =
    | UnderConstrained   // M is below a tenth of the equalised total
    | ZeroBudget         // every count floored to 0, so one point each is used instead
    | Overflow           // more than 10^4 points in all

  /** The counts and the advisories logged while computing them. */
  datatype Allocation = Allocation(counts: seq<int>, warnings: seq<Warning>)

  /** 1e-17, added to the total of the estimates before dividing by it. */
  const Guard: real := 0.00000000000000001

  /** 10^4: a larger total only draws a warning. */
  const OverflowLimit: int := 10000

  /** The weights of density equalisation may be anything non-negative: the source's
      factor is a positive power of a ratio of variances or of a determinant. */
  predicate ValidWeights(degree: seq<real>, weight: seq<real>) {
    |weight| == |degree| && forall i :: 0 <= i < |weight| ==> weight[i] >= 0.0
  }

  function SumInt(s: seq<int>): int {
    if |s| == 0 then 0 else SumInt(s[..|s| - 1]) + s[|s| - 1]
  }

  /** `np.floor` entry by entry. */
  function Floors(x: seq<real>): (r: seq<int>)
    ensures |r| == |x| && forall i :: 0 <= i < |x| ==> r[i] == x[i].Floor
  {
    seq(|x|, i requires 0 <= i < |x| => x[i].Floor)
  }

  /** `np.ones(N)`. */
  function Ones(n: nat): (r: seq<int>)
    ensures |r| == n && forall i :: 0 <= i < n ==> r[i] == 1
  {
    seq(n, i => 1)
  }

  /** `max(d) - d_i`: how far each point's degree lies below the largest. */
  function Distances(degree: seq<real>): (e: seq<real>)
    requires |degree| > 0
    ensures |e| == |degree|
    ensures forall i :: 0 <= i < |degree| ==> e[i] == Max(degree) - degree[i] && e[i] >= 0.0
  {
    var top := Max(degree);
    seq(|degree|, i requires 0 <= i < |degree| => top - degree[i])
  }

  /** `(max(d) - d_i) * w_i` with equalisation, `max(d) - d_i` without. */
  function Estimates(degree: seq<real>, weight: seq<real>, equalize: bool): (e: seq<real>)
    requires |degree| > 0 && ValidWeights(degree, weight)
    ensures |e| == |degree|
    ensures forall i :: 0 <= i < |degree| ==> e[i] >= 0.0
  {
    var dist := Distances(degree);
    if equalize then seq(|degree|, i requires 0 <= i < |degree| => Times(dist[i], weight[i]))
    else dist
  }

  /** `M / (np.sum(e) + 1e-17)`; the total is not negative, so the divisor is positive. */
  function Quota(e: seq<real>, M: int): real
    requires forall i :: 0 <= i < |e| ==> e[i] >= 0.0
  {
    SumNonNegative(e);
    M as real / (Sum(e) + Guard)
  }

  /** `np.sum(e) / (np.sum(e) + 1e-17)`, the fraction of M the scaled estimates add up to. */
  function Share(e: seq<real>): real
    requires forall i :: 0 <= i < |e| ==> e[i] >= 0.0
  {
    SumNonNegative(e);
    Sum(e) / (Sum(e) + Guard)
  }

  /** Every estimate times the quota. */
  function Portions(e: seq<real>, q: real): (t: seq<real>)
    ensures |t| == |e| && forall i :: 0 <= i < |e| ==> t[i] == Times(e[i], q)
  {
    seq(|e|, i requires 0 <= i < |e| => Times(e[i], q))
  }

  /** `np.floor(e * M / (np.sum(e) + 1e-17))`, the quotient M / (sum + 1e-17) being
      formed first, which exact arithmetic does not distinguish. */
  function Scaled(e: seq<real>, M: int): (r: seq<int>)
    requires forall i :: 0 <= i < |e| ==> e[i] >= 0.0
    ensures |r| == |e|
  {
    Floors(Portions(e, Quota(e, M)))
  }

  /** The number of points asked for: M, where M = 0 stands for N. */
  function Target(M: int, n: nat): int {
    if M == 0 then n else M
  }

  /** The counts before the all-zero fallback. M = 0 stands for "not given": without
      equalisation it becomes N, with equalisation the estimates are floored unscaled. */
  function RawCounts(e: seq<real>, equalize: bool, M: int): (r: seq<int>)
    requires forall i :: 0 <= i < |e| ==> e[i] >= 0.0
    ensures |r| == |e|
  {
    if equalize then (if M != 0 then Scaled(e, M) else Floors(e))
    else Scaled(e, Target(M, |e|))
  }

  /** What `numpts` does once the estimates are known. */
  function Finish(e: seq<real>, equalize: bool, M: int): (r: Allocation)
    requires forall i :: 0 <= i < |e| ==> e[i] >= 0.0
    ensures |r.counts| == |e|
  {
    var counts := RawCounts(e, equalize, M);
    var advice := if equalize && M != 0 && Less(Div(M as real, Sum(e)), 0.1) then [UnderConstrained] else [];
    if SumInt(counts) == 0 then Allocation(Ones(|e|), advice + [ZeroBudget])
    else if SumInt(counts) > OverflowLimit then Allocation(counts, advice + [Overflow])
    else Allocation(counts, advice)
  }

  /** `numpts`; `np.max` of an empty degree vector raises. */
  function NumPtsSpec(degree: seq<real>, weight: seq<real>, equalize: bool, M: int): (r: Result<Allocation>)
    requires ValidWeights(degree, weight)
    ensures r.Ok? <==> |degree| > 0
    ensures r.Ok? ==> |r.value.counts| == |degree|
  {
    if |degree| == 0 then Err(EmptyReduction)
    else Ok(Finish(Estimates(degree, weight, equalize), equalize, M))
  }

  /** `numpts`, filling the estimate vector one point at a time as the source's loop does. */
  method NumPts(degree: seq<real>, weight: seq<real>, equalize: bool, M: int) returns (r: Result<Allocation>)
    requires ValidWeights(degree, weight)
    ensures r == NumPtsSpec(degree, weight, equalize, M)
  {
    var n := |degree|;
    if n == 0 {
      return Err(EmptyReduction);
    }
    var top := Max(degree);
    var estimate := new real[n];
    for i := 0 to n
      invariant forall j :: 0 <= j < i ==> estimate[j] == Estimates(degree, weight, equalize)[j]
    {
      estimate[i] := if equalize then Times(top - degree[i], weight[i]) else top - degree[i];
    }
    assert estimate[..] == Estimates(degree, weight, equalize);
    r := Ok(Finish(estimate[..], equalize, M));
  }

  // ---------------------------------------------------------------- properties

  lemma {:induction false} FloorsPrefix(x: seq<real>)
    requires |x| > 0
    ensures Floors(x)[..|x| - 1] == Floors(x[..|x| - 1])
  {
  }

  /** The floors add up to at most the sum, and to more than the sum minus the length. */
  lemma {:induction false} FloorsSum(x: seq<real>)
    ensures SumInt(Floors(x)) as real <= Sum(x)
    ensures SumInt(Floors(x)) as real > Sum(x) - |x| as real || |x| == 0
  {
    if |x| > 0 {
      var init := x[..|x| - 1];
      FloorsSum(init);
      FloorsPrefix(x);
      assert SumInt(Floors(x)) == SumInt(Floors(init)) + x[|x| - 1].Floor;
    }
  }

  /** The total of the scaled estimates before flooring. */
  function Unfloored(e: seq<real>, M: int): real
    requires forall i :: 0 <= i < |e| ==> e[i] >= 0.0
  {
    Sum(Portions(e, Quota(e, M)))
  }

  /** The scaled counts lie within N below their unfloored total. */
  lemma {:induction false} ScaledSum(e: seq<real>, M: int)
    requires forall i :: 0 <= i < |e| ==> e[i] >= 0.0
    ensures SumInt(Scaled(e, M)) as real <= Unfloored(e, M)
    ensures |e| == 0 || SumInt(Scaled(e, M)) as real > Unfloored(e, M) - |e| as real
  {
    FloorsSum(Portions(e, Quota(e, M)));
  }

  /** The unfloored total is M * S / (S + 1e-17), S being the total of the estimates:
      just below M for a positive M. */
  lemma {:induction false} UnflooredTotal(e: seq<real>, M: int)
    requires forall i :: 0 <= i < |e| ==> e[i] >= 0.0
    ensures Unfloored(e, M) == M as real * Share(e)
    ensures M >= 0 ==> Unfloored(e, M) <= M as real
  {
    var q := Quota(e, M);
    SumScaled(e, Portions(e, q), q);
    SumNonNegative(e);
    QuotientShift(M as real, Sum(e), Sum(e) + Guard);
    if M >= 0 {
      ShareBelowOne(e);
      BoundedByShare(Unfloored(e, M), M as real, Share(e));
    }
  }

  lemma {:induction false} QuotientShift(m: real, s: real, d: real)
    requires d != 0.0
    ensures s * (m / d) == m * (s / d)
  {
  }

  /** The share S / (S + 1e-17) of a non-negative total lies in [0, 1). */
  lemma {:induction false} ShareBelowOne(e: seq<real>)
    requires forall i :: 0 <= i < |e| ==> e[i] >= 0.0
    ensures 0.0 <= Share(e) < 1.0
  {
    SumNonNegative(e);
    GuardedShare(Sum(e));
  }

  lemma {:induction false} GuardedShare(s: real)
    requires s >= 0.0
    ensures 0.0 <= s / (s + Guard) < 1.0
  {
    DivUnit(s, s + Guard);
    DivExact(s, s + Guard);
  }

  /** The counts are the floored ones unless those are all 0. */
  lemma {:induction false} FinishCounts(e: seq<real>, equalize: bool, M: int)
    requires forall i :: 0 <= i < |e| ==> e[i] >= 0.0
    ensures ZeroBudget !in Finish(e, equalize, M).warnings ==>
              Finish(e, equalize, M).counts == RawCounts(e, equalize, M)
  {
  }

  /** Without equalisation the estimates are the distances below the maximum degree. */
  lemma {:induction false} Unequalised(degree: seq<real>, weight: seq<real>, M: int)
    requires ValidWeights(degree, weight) && |degree| > 0
    ensures NumPtsSpec(degree, weight, false, M).value ==
              Finish(Distances(degree), false, M)
  {
  }

  /** Without equalisation an omitted M (M = 0) means M = N. */
  lemma {:induction false} DefaultTarget(degree: seq<real>, weight: seq<real>)
    requires ValidWeights(degree, weight)
    ensures NumPtsSpec(degree, weight, false, 0) == NumPtsSpec(degree, weight, false, |degree|)
  {
  }

  /** Without equalisation each count is floor((max(d) - d_i) * M / (S + 1e-17)), S being
      the total distance below the maximum, unless every such count is 0. */
  lemma {:induction false} CountFormula(degree: seq<real>, weight: seq<real>, M: int, i: nat)
    requires ValidWeights(degree, weight) && M != 0 && i < |degree|
    requires ZeroBudget !in NumPtsSpec(degree, weight, false, M).value.warnings
    ensures NumPtsSpec(degree, weight, false, M).value.counts[i] ==
              Times(Distances(degree)[i], Quota(Distances(degree), M)).Floor
  {
    var e := Distances(degree);
    Unequalised(degree, weight, M);
    ScaledCount(e, M, i);

  }

  lemma {:induction false} ScaledCount(e: seq<real>, M: int, i: nat)
    requires forall i :: 0 <= i < |e| ==> e[i] >= 0.0
    requires M != 0 && i < |e|
    requires ZeroBudget !in Finish(e, false, M).warnings
    ensures Finish(e, false, M).counts[i] == Times(e[i], Quota(e, M)).Floor
  {
    FinishCounts(e, false, M);
    assert RawCounts(e, false, M) == Scaled(e, M);
  }

  /** Scaled counts for a non-negative M are not negative, and a zero estimate gets none. */
  lemma {:induction false} ScaledSigns(e: seq<real>, M: int, i: nat)
    requires forall i :: 0 <= i < |e| ==> e[i] >= 0.0
    requires M >= 0 && i < |e|
    ensures Scaled(e, M)[i] >= 0
    ensures e[i] == 0.0 ==> Scaled(e, M)[i] == 0
  {
    SumNonNegative(e);
    assert Quota(e, M) >= 0.0;
  }

  /** Without equalisation and for M >= 0 no count is negative, and unless every count
      floored to 0 (when every point gets one) a point of maximum degree gets none. */
  lemma {:induction false} CountsWithoutEqualisation(degree: seq<real>, weight: seq<real>, M: int, i: nat)
    requires ValidWeights(degree, weight) && i < |degree| && M >= 0
    ensures var a := NumPtsSpec(degree, weight, false, M).value;
            a.counts[i] >= 0 &&
            (ZeroBudget !in a.warnings && degree[i] == Max(degree) ==> a.counts[i] == 0)
  {
    Unequalised(degree, weight, M);
    FinishCounts(Distances(degree), false, M);
    ScaledSigns(Distances(degree), Target(M, |degree|), i);
  }

  /** Without equalisation and for M >= 0 the counts add up to at most M (N when M is
      omitted), unless every count floored to 0. */
  lemma {:induction false} TotalAtMostTarget(degree: seq<real>, weight: seq<real>, M: int)
    requires ValidWeights(degree, weight) && |degree| > 0 && M >= 0
    ensures var a := NumPtsSpec(degree, weight, false, M).value;
            ZeroBudget !in a.warnings ==> SumInt(a.counts) <= Target(M, |degree|)
  {
    var e := Distances(degree);
    Unequalised(degree, weight, M);
    ScaledTotal(e, M, |degree|);
  }

  /** Without equalisation and for M >= 0 the counts add up to more than their unfloored
      total minus N: each floor loses less than one. */
  lemma {:induction false} TotalNearTarget(degree: seq<real>, weight: seq<real>, M: int)
    requires ValidWeights(degree, weight) && |degree| > 0 && M >= 0
    ensures var a := NumPtsSpec(degree, weight, false, M).value;
            ZeroBudget !in a.warnings ==>
              SumInt(a.counts) as real > Unfloored(Distances(degree), Target(M, |degree|)) - |degree| as real
  {
    var e := Distances(degree);
    Unequalised(degree, weight, M);
    ScaledTotal(e, M, |degree|);
  }

  /** The total of the scaled counts, for estimates e. */
  lemma {:induction false} ScaledTotal(e: seq<real>, M: int, n: nat)
    requires forall i :: 0 <= i < |e| ==> e[i] >= 0.0
    requires |e| == n > 0 && M >= 0
    ensures ZeroBudget !in Finish(e, false, M).warnings ==>
              SumInt(Finish(e, false, M).counts) <= Target(M, n) &&
              SumInt(Finish(e, false, M).counts) as real > Unfloored(e, Target(M, n)) - n as real
  {
    var target := Target(M, n);
    if ZeroBudget !in Finish(e, false, M).warnings {
      FinishCounts(e, false, M);
      assert RawCounts(e, false, M) == Scaled(e, target);
      ScaledSum(e, target);
      UnflooredTotal(e, target);
    }
  }

  lemma {:induction false} BoundedByShare(total: real, m: real, f: real)
    requires total <= m * f && m >= 0.0 && 0.0 <= f < 1.0
    ensures total <= m
  {
    assert Times(m, 1.0 - f) >= 0.0;
  }

  /** If the floored counts add up to 0 every point gets one point, with a warning. */
  lemma {:induction false} ZeroFallback(degree: seq<real>, weight: seq<real>, equalize: bool, M: int)
    requires ValidWeights(degree, weight) && |degree| > 0
    requires SumInt(RawCounts(Estimates(degree, weight, equalize), equalize, M)) == 0
    ensures var a := NumPtsSpec(degree, weight, equalize, M).value;
            a.counts == Ones(|degree|) && ZeroBudget in a.warnings
  {
  }

  /** The warnings are advice only: whenever the floored counts are not all 0 they are
      returned unchanged, and the overflow warning is logged exactly when they exceed 10^4. */
  lemma {:induction false} WarningsAreAdvisory(degree: seq<real>, weight: seq<real>, equalize: bool, M: int)
    requires ValidWeights(degree, weight) && |degree| > 0
    requires SumInt(RawCounts(Estimates(degree, weight, equalize), equalize, M)) != 0
    ensures var a := NumPtsSpec(degree, weight, equalize, M).value;
            var raw := RawCounts(Estimates(degree, weight, equalize), equalize, M);
            a.counts == raw && ZeroBudget !in a.warnings &&
            (Overflow in a.warnings <==> SumInt(raw) > OverflowLimit)
  {
  }

  /** The under-constrained warning compares M / S with 0.1, S being the equalised total
      without the guard; with S = 0 the quotient is infinite and warns when M < 0. */
  lemma {:induction false} UnderConstrainedWarning(degree: seq<real>, weight: seq<real>, M: int)
    requires ValidWeights(degree, weight) && |degree| > 0
    ensures var a := NumPtsSpec(degree, weight, true, M).value;
            var S := Sum(Estimates(degree, weight, true));
            UnderConstrained in a.warnings <==> M != 0 && (if S == 0.0 then M < 0 else M as real / S < 0.1)
  {
  }
}

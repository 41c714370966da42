/** `feature_scale`: min-max rescaling of a vector onto [0, 1]. */
module FeatureScaling {
  import opened Errors
  import opened ExtReals
  import opened Sorting

  /** `(x - lo) / (hi - lo)` entry by entry. */
  function Rescale(x: seq<real>, lo: real, hi: real): (y: seq<Ext>)
    ensures |y| == |x| && forall i :: 0 <= i < |x| ==> y[i] == Div(x[i] - lo, hi - lo)
  {
    seq(|x|, i requires 0 <= i < |x| => Div(x[i] - lo, hi - lo))
  }

  /** `(x - min(x)) / (max(x) - min(x))`; `np.min` of an empty vector raises, and a
      constant vector divides 0 by 0. */
  function FeatureScale(x: seq<real>): (r: Result<seq<Ext>>)
    ensures r.Ok? <==> |x| > 0
    ensures r.Ok? ==> |r.value| == |x|
  {
    if |x| == 0 then Err(EmptyReduction) else Ok(Rescale(x, Min(x), Max(x)))
  }

  /** Rescaling by bounds lo < hi maps [lo, hi] onto [0, 1], lo to 0 and hi to 1. */
  lemma RescaleRange(x: seq<real>, lo: real, hi: real, i: nat)
    requires i < |x| && lo < hi && lo <= x[i] <= hi
    ensures var y := Rescale(x, lo, hi)[i];
            y.Fin? && 0.0 <= y.v <= 1.0 && (x[i] == lo ==> y.v == 0.0) && (x[i] == hi ==> y.v == 1.0)
  {
    DivUnit(x[i] - lo, hi - lo);
  }

  /** A vector that is not constant is mapped onto [0, 1], its minimum to 0 and its
      maximum to 1. */
  lemma FeatureScaleRange(x: seq<real>, i: nat)
    requires i < |x| && Min(x) < Max(x)
    ensures var y := FeatureScale(x).value[i];
            y.Fin? && 0.0 <= y.v <= 1.0 &&
            (x[i] == Min(x) ==> y.v == 0.0) && (x[i] == Max(x) ==> y.v == 1.0)
  {
    RescaleRange(x, Min(x), Max(x), i);
  }

  /** Rescaling by bounds lo < hi preserves the order of the entries. */
  lemma RescaleMonotone(x: seq<real>, lo: real, hi: real, i: nat, j: nat)
    requires i < |x| && j < |x| && lo < hi && x[i] <= x[j]
    ensures Rescale(x, lo, hi)[i].v <= Rescale(x, lo, hi)[j].v
  {
    DivMonotone(x[i] - lo, x[j] - lo, hi - lo);
  }

  /** Feature scaling preserves the order of the entries. */
  lemma FeatureScaleMonotone(x: seq<real>, i: nat, j: nat)
    requires i < |x| && j < |x| && Min(x) < Max(x) && x[i] <= x[j]
    ensures FeatureScale(x).value[i].v <= FeatureScale(x).value[j].v
  {
    RescaleMonotone(x, Min(x), Max(x), i, j);
  }

  /** A constant vector becomes all NaN. */
  lemma FeatureScaleConstant(x: seq<real>)
    requires |x| > 0 && Min(x) == Max(x)
    ensures forall i :: 0 <= i < |x| ==> FeatureScale(x).value[i] == NaN
  {
    forall i | 0 <= i < |x| ensures FeatureScale(x).value[i] == NaN {
      assert Min(x) <= x[i] <= Max(x);
    }
  }
}

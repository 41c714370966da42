/** Ascending sort of real vectors (numpy's `np.sort`), the extrema `np.min` and
    `np.max`, and the facts about them the SUGAR core relies on. Only the sorted
    values matter, so a stable merge sort and this insertion sort agree. */
module Sorting {
  import opened Matrices

  predicate Sorted(s: seq<real>) {
    forall i, j :: 0 <= i < j < |s| ==> s[i] <= s[j]
  }

  function Insert(x: real, s: seq<real>): (r: seq<real>)
    ensures |r| == |s| + 1
  {
    if |s| == 0 then [x]
    else if x <= s[0] then [x] + s
    else [s[0]] + Insert(x, s[1..])
  }

  lemma {:induction false} InsertMultiset(x: real, s: seq<real>)
    ensures multiset(Insert(x, s)) == multiset(s) + multiset{x}
  {
    if |s| > 0 && x > s[0] {
      InsertMultiset(x, s[1..]);
      assert s == [s[0]] + s[1..];
    }
  }

  lemma {:induction false} InsertSorted(x: real, s: seq<real>)
    requires Sorted(s)
    ensures Sorted(Insert(x, s))
    ensures |s| > 0 ==> Insert(x, s)[0] == (if x <= s[0] then x else s[0])
  {
    if |s| > 0 && x > s[0] {
      var r' := Insert(x, s[1..]);
      InsertSorted(x, s[1..]);
      assert r'[0] >= s[0];
      var r := [s[0]] + r';
      forall i, j | 0 <= i < j < |r| ensures r[i] <= r[j] {
        if i > 0 {
          assert r[i] == r'[i - 1] && r[j] == r'[j - 1];
        } else {
          assert r[j] == r'[j - 1] && r'[0] <= r'[j - 1];
        }
      }
    }
  }

  /** `np.sort` (insertion sort; for reals every stable sort yields the same values). */
  function Sort(s: seq<real>): (r: seq<real>)
    ensures |r| == |s|
  {
    if |s| == 0 then [] else Insert(s[0], Sort(s[1..]))
  }

  lemma {:induction false} SortSorted(s: seq<real>)
    ensures Sorted(Sort(s))
  {
    if |s| > 0 {
      SortSorted(s[1..]);
      InsertSorted(s[0], Sort(s[1..]));
    }
  }

  lemma {:induction false} SortMultiset(s: seq<real>)
    ensures multiset(Sort(s)) == multiset(s)
  {
    if |s| > 0 {
      SortMultiset(s[1..]);
      InsertMultiset(s[0], Sort(s[1..]));
      assert s == [s[0]] + s[1..];
    }
  }

  /** Sort returns a sorted permutation of its input. */
  lemma SortSpec(s: seq<real>)
    ensures Sorted(Sort(s)) && multiset(Sort(s)) == multiset(s)
  {
    SortSorted(s);
    SortMultiset(s);
  }

  /** The head of a sorted sequence is its least value. */
  lemma SortedHead(a: seq<real>, y: real)
    requires Sorted(a) && y in multiset(a)
    ensures |a| > 0 && a[0] <= y
  {
    assert y in a;
    var k :| 0 <= k < |a| && a[k] == y;
  }

  lemma MultisetTail(a: seq<real>)
    requires |a| > 0
    ensures multiset(a[1..]) == multiset(a) - multiset{a[0]}
  {
    assert a == [a[0]] + a[1..];
  }

  /** A sorted arrangement of a multiset is unique. */
  lemma {:induction false} SortedUnique(a: seq<real>, b: seq<real>)
    requires Sorted(a) && Sorted(b) && multiset(a) == multiset(b)
    ensures a == b
  {
    assert |a| == |multiset(a)| == |multiset(b)| == |b|;
    if |a| > 0 {
      SameHead(a, b);
      SortedTail(a);
      SortedTail(b);
      SortedUnique(a[1..], b[1..]);
      assert a == [a[0]] + a[1..];
      assert b == [b[0]] + b[1..];
    }
  }

  /** Two sorted arrangements of one multiset start alike and leave equal tails. */
  lemma SameHead(a: seq<real>, b: seq<real>)
    requires Sorted(a) && Sorted(b) && multiset(a) == multiset(b) && |a| > 0
    ensures |b| > 0 && a[0] == b[0] && multiset(a[1..]) == multiset(b[1..])
  {
    assert a[0] in multiset(a);
    SortedHead(b, a[0]);
    assert b[0] in multiset(b);
    SortedHead(a, b[0]);
    MultisetTail(a);
    MultisetTail(b);
  }

  lemma SortedTail(a: seq<real>)
    requires Sorted(a) && |a| > 0
    ensures Sorted(a[1..])
  {
  }

  /** Sorting depends only on the multiset of values: it is invariant under permutation. */
  lemma SortPermutation(s: seq<real>, t: seq<real>)
    requires multiset(s) == multiset(t)
    ensures Sort(s) == Sort(t)
  {
    SortSpec(s);
    SortSpec(t);
    SortedUnique(Sort(s), Sort(t));
  }

  /** `np.min` of a non-empty vector. */
  function Min(s: seq<real>): (m: real)
    requires |s| > 0
    ensures exists i :: 0 <= i < |s| && s[i] == m
    ensures forall i :: 0 <= i < |s| ==> m <= s[i]
  {
    if |s| == 1 then s[0]
    else
      var m := Min(s[..|s| - 1]);
      assert forall i :: 0 <= i < |s| - 1 ==> s[..|s| - 1][i] == s[i];
      if s[|s| - 1] < m then s[|s| - 1] else m
  }

  /** `np.max` of a non-empty vector. */
  function Max(s: seq<real>): (m: real)
    requires |s| > 0
    ensures exists i :: 0 <= i < |s| && s[i] == m
    ensures forall i :: 0 <= i < |s| ==> s[i] <= m
  {
    if |s| == 1 then s[0]
    else
      var m := Max(s[..|s| - 1]);
      assert forall i :: 0 <= i < |s| - 1 ==> s[..|s| - 1][i] == s[i];
      if s[|s| - 1] > m then s[|s| - 1] else m
  }

  /** A value of one arrangement of a multiset occurs in every other. */
  lemma Occurs(s: seq<real>, t: seq<real>, i: nat) returns (j: nat)
    requires multiset(s) == multiset(t) && i < |s|
    ensures j < |t| && t[j] == s[i]
  {
    assert s[i] in multiset(s);
    assert s[i] in t;
    j :| 0 <= j < |t| && t[j] == s[i];
  }

  /** The ends of a sorted arrangement of s are the extrema of s. */
  lemma SortedEnds(s: seq<real>, t: seq<real>)
    requires |s| > 0 && Sorted(t) && multiset(t) == multiset(s)
    ensures |t| == |s| && t[0] == Min(s) && t[|s| - 1] == Max(s)
  {
    assert |t| == |multiset(t)| == |multiset(s)| == |s|;
    var n := |s|;
    var i0 := Occurs(t, s, 0);
    var i1 := Occurs(t, s, n - 1);
    var lo :| 0 <= lo < n && s[lo] == Min(s);
    var hi :| 0 <= hi < n && s[hi] == Max(s);
    var j0 := Occurs(s, t, lo);
    var j1 := Occurs(s, t, hi);
    assert t[0] <= t[j0] && t[j1] <= t[n - 1];
  }

  lemma SortEnds(s: seq<real>)
    requires |s| > 0
    ensures Sort(s)[0] == Min(s) && Sort(s)[|s| - 1] == Max(s)
  {
    SortSpec(s);
    SortedEnds(s, Sort(s));
  }

  /** Every value of the sorted vector is a value of the input, between its extrema. */
  lemma SortedMember(s: seq<real>, i: nat)
    requires i < |s|
    ensures Min(s) <= Sort(s)[i] <= Max(s)
    ensures Sort(s)[i] in s
  {
    SortEnds(s);
    SortSpec(s);
    var j := Occurs(Sort(s), s, i);
  }

  /** Every entry of s multiplied by c. */
  function Scale(s: seq<real>, c: real): (r: seq<real>)
    ensures |r| == |s|
  {
    if |s| == 0 then [] else [Times(s[0], c)] + Scale(s[1..], c)
  }

  lemma {:induction false} ScaleAt(s: seq<real>, c: real, i: nat)
    requires i < |s|
    ensures Scale(s, c)[i] == Times(s[i], c)
  {
    if i > 0 {
      ScaleAt(s[1..], c, i - 1);
    }
  }

  lemma ScaleCons(x: real, s: seq<real>, c: real)
    ensures Scale([x] + s, c) == [Times(x, c)] + Scale(s, c)
  {
    var t := [x] + s;
    assert t[0] == x && t[1..] == s;
  }

  lemma ScaleTail(s: seq<real>, c: real)
    requires |s| > 0
    ensures Scale(s, c)[0] == Times(s[0], c) && Scale(s, c)[1..] == Scale(s[1..], c)
  {
  }

  lemma MulMono(a: real, b: real, c: real)
    requires a <= b && c > 0.0
    ensures Times(a, c) <= Times(b, c) && (a < b ==> Times(a, c) < Times(b, c))
  {
  }

  lemma InsertAfter(x: real, s: seq<real>)
    requires |s| > 0 && x > s[0]
    ensures Insert(x, s) == [s[0]] + Insert(x, s[1..])
  {
  }

  lemma InsertBefore(x: real, s: seq<real>)
    requires |s| > 0 && x <= s[0]
    ensures Insert(x, s) == [x] + s
  {
  }

  lemma SortCons(s: seq<real>)
    requires |s| > 0
    ensures Sort(s) == Insert(s[0], Sort(s[1..]))
  {
  }

  lemma InsertScaleBefore(x: real, s: seq<real>, c: real)
    requires c > 0.0 && |s| > 0 && x <= s[0]
    ensures Insert(Times(x, c), Scale(s, c)) == Scale(Insert(x, s), c)
  {
    var sc := Scale(s, c);
    ScaleTail(s, c);
    MulMono(x, s[0], c);
    InsertBefore(Times(x, c), sc);
    InsertBefore(x, s);
    ScaleCons(x, s, c);
  }

  lemma InsertScaleAfter(x: real, s: seq<real>, c: real)
    requires c > 0.0 && |s| > 0 && x > s[0]
    requires Insert(Times(x, c), Scale(s[1..], c)) == Scale(Insert(x, s[1..]), c)
    ensures Insert(Times(x, c), Scale(s, c)) == Scale(Insert(x, s), c)
  {
    var sc := Scale(s, c);
    ScaleTail(s, c);
    MulMono(s[0], x, c);
    InsertAfter(Times(x, c), sc);
    InsertAfter(x, s);
    ScaleCons(s[0], Insert(x, s[1..]), c);
  }

  lemma {:induction false} InsertScale(x: real, s: seq<real>, c: real)
    requires c > 0.0
    ensures Insert(Times(x, c), Scale(s, c)) == Scale(Insert(x, s), c)
  {
    if |s| == 0 {
      ScaleCons(x, [], c);
      assert [x] + [] == [x];
    } else if x <= s[0] {
      InsertScaleBefore(x, s, c);
    } else {
      InsertScale(x, s[1..], c);
      InsertScaleAfter(x, s, c);
    }
  }

  lemma SortScaleStep(s: seq<real>, c: real)
    requires c > 0.0 && |s| > 0
    requires Sort(Scale(s[1..], c)) == Scale(Sort(s[1..]), c)
    ensures Sort(Scale(s, c)) == Scale(Sort(s), c)
  {
    ScaleTail(s, c);
    SortCons(Scale(s, c));
    SortCons(s);
    InsertScale(s[0], Sort(s[1..]), c);
  }

  /** Sorting commutes with multiplication by a positive constant. */
  lemma {:induction false} SortScale(s: seq<real>, c: real)
    requires c > 0.0
    ensures Sort(Scale(s, c)) == Scale(Sort(s), c)
  {
    if |s| == 0 {
      assert Scale(s, c) == [];
    } else {
      SortScale(s[1..], c);
      SortScaleStep(s, c);
    }
  }

  /** The number of entries of s strictly below x. */
  function CountBelow(s: seq<real>, x: real): nat {
    if |s| == 0 then 0 else CountBelow(s[..|s| - 1], x) + (if s[|s| - 1] < x then 1 else 0)
  }

  /** The number of entries of s at most x. */
  function CountAtMost(s: seq<real>, x: real): nat {
    if |s| == 0 then 0 else CountAtMost(s[..|s| - 1], x) + (if s[|s| - 1] <= x then 1 else 0)
  }

  lemma {:induction false} CountsConcat(a: seq<real>, b: seq<real>, x: real)
    ensures CountBelow(a + b, x) == CountBelow(a, x) + CountBelow(b, x)
    ensures CountAtMost(a + b, x) == CountAtMost(a, x) + CountAtMost(b, x)
  {
    if |b| > 0 {
      assert (a + b)[..|a + b| - 1] == a + b[..|b| - 1];
      CountsConcat(a, b[..|b| - 1], x);
    } else {
      assert a + b == a;
    }
  }

  /** Removing entry k of t removes one occurrence of its value. */
  lemma RemoveAtMultiset(t: seq<real>, k: nat)
    requires k < |t|
    ensures multiset(t[..k] + t[k + 1..]) == multiset(t) - multiset{t[k]}
  {
    assert t == t[..k] + [t[k]] + t[k + 1..];
  }

  /** Removing entry k of t lowers each count by that entry's own contribution. */
  lemma RemoveAtCounts(t: seq<real>, k: nat, x: real)
    requires k < |t|
    ensures CountBelow(t, x) == CountBelow(t[..k] + t[k + 1..], x) + (if t[k] < x then 1 else 0)
    ensures CountAtMost(t, x) == CountAtMost(t[..k] + t[k + 1..], x) + (if t[k] <= x then 1 else 0)
  {
    var pre, a, post := t[..k], [t[k]], t[k + 1..];
    assert t == (pre + a) + post;
    CountsConcat(pre + a, post, x);
    CountsConcat(pre, a, x);
    CountsConcat(pre, post, x);
    assert a[..0] == [];
  }

  /** Dropping the last entry of s lowers each count by that entry's contribution. */
  lemma DropLastCounts(s: seq<real>, x: real)
    requires |s| > 0
    ensures multiset(s[..|s| - 1]) == multiset(s) - multiset{s[|s| - 1]}
    ensures CountBelow(s, x) == CountBelow(s[..|s| - 1], x) + (if s[|s| - 1] < x then 1 else 0)
    ensures CountAtMost(s, x) == CountAtMost(s[..|s| - 1], x) + (if s[|s| - 1] <= x then 1 else 0)
  {
    var init, last := s[..|s| - 1], s[|s| - 1];
    assert s == init + [last];
    assert multiset(s) == multiset(init) + multiset{last};
  }

  /** The counts depend only on the multiset of values. */
  lemma {:induction false} CountsPermutation(s: seq<real>, t: seq<real>, x: real)
    requires multiset(s) == multiset(t)
    ensures CountBelow(s, x) == CountBelow(t, x) && CountAtMost(s, x) == CountAtMost(t, x)
  {
    if |s| == 0 {
      assert |t| == |multiset(t)| == 0;
    } else {
      var k := Occurs(s, t, |s| - 1);
      DropLastCounts(s, x);
      RemoveAtMultiset(t, k);
      RemoveAtCounts(t, k, x);
      CountsPermutation(s[..|s| - 1], t[..k] + t[k + 1..], x);
    }
  }

  lemma {:induction false} CountsBounds(s: seq<real>, x: real)
    ensures CountBelow(s, x) <= |s| && CountAtMost(s, x) <= |s|
  {
    if |s| > 0 {
      CountsBounds(s[..|s| - 1], x);
    }
  }

  /** Both counts grow with the threshold. */
  lemma {:induction false} CountsMonotone(s: seq<real>, x: real, y: real)
    requires x <= y
    ensures CountBelow(s, x) <= CountBelow(s, y) && CountAtMost(s, x) <= CountAtMost(s, y)
  {
    if |s| > 0 {
      CountsMonotone(s[..|s| - 1], x, y);
    }
  }

  lemma {:induction false} NoneBelow(s: seq<real>, x: real)
    requires forall i :: 0 <= i < |s| ==> s[i] >= x
    ensures CountBelow(s, x) == 0
  {
    if |s| > 0 {
      NoneBelow(s[..|s| - 1], x);
    }
  }

  lemma {:induction false} AllAtMost(s: seq<real>, x: real)
    requires forall i :: 0 <= i < |s| ==> s[i] <= x
    ensures CountAtMost(s, x) == |s|
  {
    if |s| > 0 {
      AllAtMost(s[..|s| - 1], x);
    }
  }

  /** In a sorted sequence no entry from position k on lies below entry k. */
  lemma SortedSuffix(t: seq<real>, k: nat)
    requires Sorted(t) && k < |t|
    ensures CountBelow(t[k..], t[k]) == 0
  {
    var hi := t[k..];
    forall i | 0 <= i < |hi| ensures hi[i] >= t[k] {
      assert hi[i] == t[k + i];
    }
    NoneBelow(hi, t[k]);
  }

  /** In a sorted sequence every entry up to position k lies at or below entry k. */
  lemma SortedPrefix(t: seq<real>, k: nat)
    requires Sorted(t) && k < |t|
    ensures CountAtMost(t[..k + 1], t[k]) == k + 1
  {
    var lo := t[..k + 1];
    forall i | 0 <= i < |lo| ensures lo[i] <= t[k] {
      assert lo[i] == t[i];
    }
    AllAtMost(lo, t[k]);
  }

  /** In a sorted sequence at most k entries lie strictly below entry k. */
  lemma SortedBelow(t: seq<real>, k: nat)
    requires Sorted(t) && k < |t|
    ensures CountBelow(t, t[k]) <= k
  {
    var lo, hi := t[..k], t[k..];
    SortedSuffix(t, k);
    CountsBounds(lo, t[k]);
    assert lo + hi == t;
    CountsConcat(lo, hi, t[k]);
  }

  /** In a sorted sequence at least k+1 entries lie at or below entry k. */
  lemma SortedAtMost(t: seq<real>, k: nat)
    requires Sorted(t) && k < |t|
    ensures CountAtMost(t, t[k]) >= k + 1
  {
    var lo, hi := t[..k + 1], t[k + 1..];
    SortedPrefix(t, k);
    assert lo + hi == t;
    CountsConcat(lo, hi, t[k]);
  }

  /** Entry k of a sorted arrangement of s is the (k+1)-th smallest value of s:
      at most k entries lie strictly below it and at least k+1 lie at or below it. */
  lemma SortedRank(s: seq<real>, t: seq<real>, k: nat)
    requires Sorted(t) && multiset(t) == multiset(s) && k < |t|
    ensures CountBelow(s, t[k]) <= k
    ensures CountAtMost(s, t[k]) >= k + 1
  {
    CountsPermutation(s, t, t[k]);
    SortedBelow(t, k);
    SortedAtMost(t, k);
  }

  lemma SortRank(s: seq<real>, k: nat)
    requires k < |s|
    ensures CountBelow(s, Sort(s)[k]) <= k
    ensures CountAtMost(s, Sort(s)[k]) >= k + 1
  {
    SortSpec(s);
    SortedRank(s, Sort(s), k);
  }
}

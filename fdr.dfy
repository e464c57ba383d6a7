/**
  `_ecdf` and `fdrcorrection` of gseapy/stats.py: the Benjamini-Hochberg
  (1995) step-up procedure over a dense array of p-values.

  The procedure is specified on the p-values in ascending order (BhReject,
  BhAdjusted) and then scattered back through the sorting permutation
  (FdrSpec). FdrCorrection is the step-by-step computation over arrays and is
  proved to produce exactly FdrSpec.
 */
module Fdr {
  import opened Permutation

  /** Entry i of `_ecdf` over n observations: the rank fraction (i + 1) / n. */
  function EcdfFactor(n: nat, i: nat): real
    requires i < n
  {
    (i + 1) as real / n as real
  }

  lemma EcdfFactorBounds(n: nat, i: nat)
    requires i < n
    ensures 0.0 < EcdfFactor(n, i) <= 1.0
    ensures EcdfFactor(n, i) * n as real == (i + 1) as real
  {
    var a, d := (i + 1) as real, n as real;
    assert a / d * d == a;
    assert a <= d;
  }

  lemma EcdfFactorIncreasing(n: nat, i: nat, j: nat)
    requires i < j < n
    ensures EcdfFactor(n, i) < EcdfFactor(n, j)
  {
    var a, b, d := (i + 1) as real, (j + 1) as real, n as real;
    assert a / d * d == a;
    assert b / d * d == b;
    if b / d <= a / d {
      assert (b / d) * d <= (a / d) * d;
    }
  }

  lemma EcdfFactorFacts(n: nat)
    ensures forall i :: 0 <= i < n ==> 0.0 < EcdfFactor(n, i) <= 1.0 && EcdfFactor(n, i) * n as real == (i + 1) as real
    ensures forall i, j :: 0 <= i < j < n ==> EcdfFactor(n, i) < EcdfFactor(n, j)
    ensures n > 0 ==> EcdfFactor(n, n - 1) == 1.0
  {
    forall i | 0 <= i < n
      ensures 0.0 < EcdfFactor(n, i) <= 1.0 && EcdfFactor(n, i) * n as real == (i + 1) as real
    {
      EcdfFactorBounds(n, i);
    }
    forall i, j | 0 <= i < j < n
      ensures EcdfFactor(n, i) < EcdfFactor(n, j)
    {
      EcdfFactorIncreasing(n, i, j);
    }
  }

  /** `_ecdf(x)`: the rank fractions 1/n, 2/n, ..., n/n. */
  function Ecdf(x: seq<real>): (r: seq<real>)
    ensures |r| == |x|
    ensures forall i :: 0 <= i < |r| ==> r[i] == EcdfFactor(|x|, i)
    ensures forall i :: 0 <= i < |r| ==> 0.0 < r[i] <= 1.0 && r[i] * |x| as real == (i + 1) as real
    ensures forall i, j :: 0 <= i < j < |r| ==> r[i] < r[j]
    ensures |r| > 0 ==> r[|r| - 1] == 1.0
  {
    var r := seq(|x|, i requires 0 <= i < |x| => EcdfFactor(|x|, i));
    EcdfFactorFacts(|x|);
    r
  }

  /** The provisional test of line 74 at sorted position i. */
  predicate Passes(s: seq<real>, alpha: real, i: nat)
    requires i < |s|
  {
    s[i] <= EcdfFactor(|s|, i) * alpha
  }

  /** The largest position below k that passes the provisional test, or -1 when
      none does (`max(np.nonzero(reject)[0])`, guarded by `reject.any()`). */
  function LastPass(s: seq<real>, alpha: real, k: nat): (r: int)
    requires k <= |s|
    ensures -1 <= r < k
    ensures r >= 0 ==> Passes(s, alpha, r)
    ensures forall j :: r < j < k ==> !Passes(s, alpha, j)
  {
    if k == 0 then -1
    else if Passes(s, alpha, k - 1) then k - 1
    else LastPass(s, alpha, k - 1)
  }

  /** The reject flags in sorted order after the step-up fix: every position
      up to the last passing one. */
  function BhReject(s: seq<real>, alpha: real): (r: seq<bool>)
    ensures |r| == |s|
  {
    var last := LastPass(s, alpha, |s|);
    seq(|s|, i requires 0 <= i < |s| => i <= last)
  }

  /** A sorted position is rejected exactly when some position at or after it
      passes the provisional test, so the rejected positions form a prefix;
      nothing is rejected when no position passes. */
  lemma BhRejectFacts(s: seq<real>, alpha: real)
    ensures forall i :: 0 <= i < |s| ==> (BhReject(s, alpha)[i] <==> exists j :: i <= j < |s| && Passes(s, alpha, j))
    ensures forall i, j :: 0 <= i <= j < |s| && BhReject(s, alpha)[j] ==> BhReject(s, alpha)[i]
    ensures (forall j :: 0 <= j < |s| ==> !Passes(s, alpha, j)) ==> forall i :: 0 <= i < |s| ==> !BhReject(s, alpha)[i]
  {
  }

  /** `pvals_sorted / ecdffactor`, with `ecdffactor = _ecdf(pvals_sorted)`. */
  function Raw(s: seq<real>): (r: seq<real>)
    ensures |r| == |s|
  {
    seq(|s|, i requires 0 <= i < |s| => s[i] / EcdfFactor(|s|, i))
  }

  /** Each raw corrected value is p * n / rank. */
  lemma RawAt(s: seq<real>, i: nat)
    requires i < |s|
    ensures Raw(s)[i] == s[i] * |s| as real / (i + 1) as real
  {
    assert Raw(s)[i] == s[i] / EcdfFactor(|s|, i);
    DivByFraction(s[i], (i + 1) as real, |s| as real);
  }

  /** Dividing by a / n is multiplying by n and dividing by a. */
  lemma DivByFraction(x: real, a: real, n: real)
    requires 0.0 < a && 0.0 < n
    ensures x / (a / n) == x * n / a
  {
    var f := a / n;
    assert f * n == a;
    var y := x / f;
    assert y * f == x;
    assert y * a == y * f * n;
    assert y * a == x * n;
  }

  function Min(a: real, b: real): real
  {
    if a <= b then a else b
  }

  /** Entry i of `np.minimum.accumulate(v[::-1])[::-1]`: the least of v[i..]. */
  function SuffixMin(v: seq<real>, i: nat): real
    requires i < |v|
    decreases |v| - i
  {
    if i == |v| - 1 then v[i] else Min(SuffixMin(v, i + 1), v[i])
  }

  /** SuffixMin(v, i) is the least of v[i..]: no later entry is smaller, and
      it is one of them. */
  lemma {:induction false} SuffixMinFacts(v: seq<real>, i: nat)
    requires i < |v|
    ensures forall j :: i <= j < |v| ==> SuffixMin(v, i) <= v[j]
    ensures exists j :: i <= j < |v| && SuffixMin(v, i) == v[j]
    decreases |v| - i
  {
    if i < |v| - 1 {
      SuffixMinFacts(v, i + 1);
      var j :| i + 1 <= j < |v| && SuffixMin(v, i + 1) == v[j];
      if SuffixMin(v, i + 1) <= v[i] {
        assert SuffixMin(v, i) == v[j];
      } else {
        assert SuffixMin(v, i) == v[i];
      }
    } else {
      assert SuffixMin(v, i) == v[i];
    }
  }

  /** `pvals_corrected[pvals_corrected > 1] = 1`, one entry. */
  function Clamp(x: real): real
  {
    if x > 1.0 then 1.0 else x
  }

  /** The corrected p-values in sorted order (lines 78-81): entry i is the
      running minimum of the raw values from the end, clamped at 1. */
  function BhAdjusted(s: seq<real>): (q: seq<real>)
    ensures |q| == |s|
  {
    var raw := Raw(s);
    seq(|s|, i requires 0 <= i < |s| => Clamp(SuffixMin(raw, i)))
  }

  /** Entry i of BhAdjusted(s) is min(1, min over j >= i of Raw(s)[j]): it is
      at most 1 and at most every later raw value, and it is 1 or one of
      them. The entries never decrease. */
  lemma BhAdjustedFacts(s: seq<real>)
    ensures forall i :: 0 <= i < |s| ==> BhAdjusted(s)[i] <= 1.0
    ensures forall i, j :: 0 <= i <= j < |s| ==> BhAdjusted(s)[i] <= Raw(s)[j]
    ensures forall i :: 0 <= i < |s| ==> BhAdjusted(s)[i] == 1.0 || exists j :: i <= j < |s| && BhAdjusted(s)[i] == Raw(s)[j]
    ensures forall i, j :: 0 <= i <= j < |s| ==> BhAdjusted(s)[i] <= BhAdjusted(s)[j]
  {
    var raw, q := Raw(s), BhAdjusted(s);
    forall i | 0 <= i < |s|
      ensures forall j :: i <= j < |s| ==> SuffixMin(raw, i) <= raw[j]
      ensures exists j :: i <= j < |s| && SuffixMin(raw, i) == raw[j]
    {
      SuffixMinFacts(raw, i);
    }
    forall i, j | 0 <= i <= j < |s|
      ensures q[i] <= q[j]
    {
      var w :| j <= w < |s| && SuffixMin(raw, j) == raw[w];
      assert SuffixMin(raw, i) <= raw[w];
    }
  }

  lemma DivAntitone(v: real, f: real, g: real)
    requires 0.0 <= v && 0.0 < f <= g
    ensures v / f >= v / g
  {
    var a, b := v / f, v / g;
    assert a * f == v && b * g == v;
    assert a >= 0.0;
    assert a * g >= a * f;
  }

  /** A raw corrected value is never below its non-negative p-value, since
      the rank fraction is at most 1. */
  lemma RawAtLeastP(s: seq<real>, j: nat)
    requires j < |s| && 0.0 <= s[j]
    ensures s[j] <= Raw(s)[j]
  {
    var f := EcdfFactor(|s|, j);
    EcdfFactorBounds(|s|, j);
    assert Raw(s)[j] == s[j] / f;
    DivAntitone(s[j], f, 1.0);
    assert s[j] / 1.0 == s[j];
  }

  /** On p-values in [0, 1], a corrected value is never below its own p-value. */
  lemma AdjustedAtLeastP(s: seq<real>, i: nat)
    requires Sorted(s) && forall k :: 0 <= k < |s| ==> 0.0 <= s[k] <= 1.0
    requires i < |s|
    ensures s[i] <= BhAdjusted(s)[i]
  {
    var q := BhAdjusted(s);
    BhAdjustedFacts(s);
    if q[i] != 1.0 {
      var j :| i <= j < |s| && q[i] == Raw(s)[j];
      RawAtLeastP(s, j);
      assert s[i] <= s[j];
    }
  }

  /** Equal p-values in sorted order get the same reject flag: the last passing
      position never falls strictly inside a run of ties. */
  lemma RejectTie(s: seq<real>, alpha: real, i: nat, i': nat)
    requires Sorted(s) && 0.0 <= alpha
    requires i < |s| && i' < |s| && s[i] == s[i']
    ensures BhReject(s, alpha)[i] == BhReject(s, alpha)[i']
  {
    if i' < i {
      RejectTie(s, alpha, i', i);
    } else if i < i' {
      var last := LastPass(s, alpha, |s|);
      if i <= last < i' {
        EcdfFactorIncreasing(|s|, last, i');
        assert s[last] == s[i'];
        assert EcdfFactor(|s|, last) * alpha <= EcdfFactor(|s|, i') * alpha;
        assert Passes(s, alpha, i');
        assert false;
      }
    }
  }

  /** Within a run of equal non-negative p-values, the running minimum from
      the end does not change: the raw values inside the run only grow
      towards its start. */
  lemma {:induction false} SuffixMinTie(s: seq<real>, k: nat, i': nat)
    requires Sorted(s) && k <= i' < |s| && s[k] == s[i'] && 0.0 <= s[i']
    ensures SuffixMin(Raw(s), k) == SuffixMin(Raw(s), i')
    decreases i' - k
  {
    if k < i' {
      var raw := Raw(s);
      assert s[k + 1] == s[i'];
      SuffixMinTie(s, k + 1, i');
      EcdfFactorIncreasing(|s|, k, i');
      EcdfFactorBounds(|s|, k);
      DivAntitone(s[i'], EcdfFactor(|s|, k), EcdfFactor(|s|, i'));
      assert raw[k] >= raw[i'] >= SuffixMin(raw, i');
    }
  }

  /** Equal non-negative p-values in sorted order get the same corrected value. */
  lemma AdjustedTie(s: seq<real>, i: nat, i': nat)
    requires Sorted(s) && i < |s| && i' < |s| && s[i] == s[i'] && 0.0 <= s[i]
    ensures BhAdjusted(s)[i] == BhAdjusted(s)[i']
  {
    if i <= i' {
      SuffixMinTie(s, i, i');
    } else {
      SuffixMinTie(s, i', i);
    }
  }

  /** What `fdrcorrection(pvals, alpha)` returns: `(reject_, pvals_corrected_)`,
      each holding at original index ind[j] the value computed at sorted
      position j, where ind sorts pvals ascending. */
  function FdrSpec(p: seq<real>, alpha: real): (r: (seq<bool>, seq<real>))
    ensures |r.0| == |p| && |r.1| == |p|
    ensures var ind := ArgSort(p);
      forall j :: 0 <= j < |p| ==>
        && r.0[ind[j]] == BhReject(Take(p, ind), alpha)[j]
        && r.1[ind[j]] == BhAdjusted(Take(p, ind))[j]
  {
    var ind := ArgSort(p);
    var s := Take(p, ind);
    (Scatter(ind, BhReject(s, alpha)), Scatter(ind, BhAdjusted(s)))
  }

  /** The position at which a sorting permutation places original index t. */
  lemma SortedPosition(p: seq<real>, ind: seq<nat>, t: nat) returns (j: nat)
    requires IsArgsort(p, ind) && t < |p|
    ensures j < |ind| && ind[j] == t && Take(p, ind)[j] == p[t]
  {
    PermutationFacts(ind);
    j := IndexOf(ind, t);
  }

  /** The result depends only on each p-value and the multiset of all of them:
      inputs that are permutations of each other give equal results at
      positions holding equal p-values, so the tie order chosen by the sort
      and the order of the input do not matter. */
  lemma FdrOrderInvariant(p: seq<real>, p': seq<real>, alpha: real, t: nat, t': nat)
    requires multiset(p) == multiset(p')
    requires 0.0 <= alpha
    requires t < |p| && t' < |p'| && p[t] == p'[t'] && 0.0 <= p[t]
    ensures FdrSpec(p, alpha).0[t] == FdrSpec(p', alpha).0[t']
    ensures FdrSpec(p, alpha).1[t] == FdrSpec(p', alpha).1[t']
  {
    var ind, ind' := ArgSort(p), ArgSort(p');
    ArgsortValuesUnique(p, p', ind, ind');
    var s := Take(p, ind);
    var j := SortedPosition(p, ind, t);
    var j' := SortedPosition(p', ind', t');
    RejectTie(s, alpha, j, j');
    AdjustedTie(s, j, j');
  }

  /** Whichever permutation `np.argsort` picks among those that sort the
      input, the values landing at each original index are those of FdrSpec. */
  lemma FdrAnyArgsort(p: seq<real>, alpha: real, ind: seq<nat>)
    requires IsArgsort(p, ind) && 0.0 <= alpha
    requires forall k :: 0 <= k < |p| ==> 0.0 <= p[k]
    ensures forall j :: 0 <= j < |p| ==>
      && FdrSpec(p, alpha).0[ind[j]] == BhReject(Take(p, ind), alpha)[j]
      && FdrSpec(p, alpha).1[ind[j]] == BhAdjusted(Take(p, ind))[j]
  {
    var ind0 := ArgSort(p);
    ArgsortValuesUnique(p, p, ind0, ind);
    var s := Take(p, ind);
    forall j | 0 <= j < |p|
      ensures FdrSpec(p, alpha).0[ind[j]] == BhReject(s, alpha)[j]
      ensures FdrSpec(p, alpha).1[ind[j]] == BhAdjusted(s)[j]
    {
      var j0 := SortedPosition(p, ind0, ind[j]);
      RejectTie(s, alpha, j0, j);
      AdjustedTie(s, j0, j);
    }
  }

  /** In original order: on p-values in [0, 1] each corrected value lies
      between its p-value and 1. */
  lemma FdrBounds(p: seq<real>, alpha: real, t: nat)
    requires forall k :: 0 <= k < |p| ==> 0.0 <= p[k] <= 1.0
    requires t < |p|
    ensures p[t] <= FdrSpec(p, alpha).1[t] <= 1.0
  {
    var ind := ArgSort(p);
    var j := SortedPosition(p, ind, t);
    var s := Take(p, ind);
    AdjustedAtLeastP(s, j);
  }

  /** In original order: a smaller p-value never gets a larger corrected value,
      and whenever a p-value is rejected so is every smaller or equal one. */
  lemma FdrMonotone(p: seq<real>, alpha: real, t: nat, u: nat)
    requires 0.0 <= alpha
    requires t < |p| && u < |p| && 0.0 <= p[t] <= p[u]
    ensures FdrSpec(p, alpha).1[t] <= FdrSpec(p, alpha).1[u]
    ensures FdrSpec(p, alpha).0[u] ==> FdrSpec(p, alpha).0[t]
  {
    var ind := ArgSort(p);
    var s := Take(p, ind);
    var jt := SortedPosition(p, ind, t);
    var ju := SortedPosition(p, ind, u);
    BhAdjustedFacts(s);
    BhRejectFacts(s, alpha);
    if p[t] == p[u] {
      RejectTie(s, alpha, jt, ju);
      AdjustedTie(s, jt, ju);
    }
  }

  /** A p-value times the number of tests, the Bonferroni product. */
  function Times(p: real, n: nat): real
  {
    p * n as real
  }

  /** p * n < alpha with alpha >= 0 puts p under every rank fraction of n
      times alpha. */
  lemma BelowEveryThreshold(x: real, alpha: real, n: nat, j: nat)
    requires 0.0 <= alpha && j < n && Times(x, n) < alpha
    ensures x <= EcdfFactor(n, j) * alpha
  {
    var f, m := EcdfFactor(n, j), n as real;
    EcdfFactorBounds(n, j);
    var b := f * alpha;
    assert b * m == (f * m) * alpha;
    AtLeastOnce(alpha, j);
    assert x * m < b * m;
    ScaledLess(x, b, m);
  }

  lemma AtLeastOnce(alpha: real, j: nat)
    requires 0.0 <= alpha
    ensures alpha <= (j + 1) as real * alpha
  {
    assert (j + 1) as real * alpha == alpha + j as real * alpha;
  }

  lemma ScaledLess(a: real, b: real, n: real)
    requires 0.0 < n && a * n < b * n
    ensures a <= b
  {
  }

  /** In sorted order: a p-value with p * n < alpha is rejected. */
  lemma BonferroniRejectSorted(s: seq<real>, alpha: real, j: nat)
    requires 0.0 <= alpha && j < |s| && Times(s[j], |s|) < alpha
    ensures BhReject(s, alpha)[j]
  {
    BelowEveryThreshold(s[j], alpha, |s|, j);
    assert Passes(s, alpha, j);
    BhRejectFacts(s, alpha);
  }

  /** A p-value that the Bonferroni test rejects (p * n < alpha) is also
      rejected by the step-up procedure, for alpha >= 0. */
  lemma BonferroniRejectImpliesBh(p: seq<real>, alpha: real, t: nat)
    requires 0.0 <= alpha
    requires t < |p| && Times(p[t], |p|) < alpha
    ensures FdrSpec(p, alpha).0[t]
  {
    var ind := ArgSort(p);
    var s := Take(p, ind);
    var j := SortedPosition(p, ind, t);
    assert |s| == |p| && s[j] == p[t];
    BonferroniRejectSorted(s, alpha, j);
  }

  /** A single p-value equal to alpha is rejected: the test at line 74 is
      `<=`. */
  lemma SingleRejectedAtAlpha(alpha: real)
    ensures FdrSpec([alpha], alpha).0 == [true]
  {
    var p := [alpha];
    var ind := ArgSort(p);
    var j := SortedPosition(p, ind, 0);
    assert EcdfFactor(1, 0) == 1.0;
    assert Passes(Take(p, ind), alpha, j);
  }

  /** Lines 73-77: the provisional test of each sorted p-value against its
      rank fraction times alpha, then `reject[:rejectmax] = True` when any
      passes. */
  method StepUpReject(pvalsSorted: seq<real>, alpha: real) returns (rejectSorted: seq<bool>)
    ensures rejectSorted == BhReject(pvalsSorted, alpha)
  {
    var n := |pvalsSorted|;
    var ecdffactor := Ecdf(pvalsSorted);
    var reject := new bool[n](i requires 0 <= i < n => pvalsSorted[i] <= ecdffactor[i] * alpha);
    assert forall k :: 0 <= k < n ==> reject[k] == Passes(pvalsSorted, alpha, k);
    var rejectmax := -1;
    for i := 0 to n
      invariant rejectmax == LastPass(pvalsSorted, alpha, i)
    {
      if reject[i] {
        rejectmax := i;
      }
    }
    if rejectmax >= 0 {
      for i := 0 to rejectmax
        invariant forall k :: 0 <= k < n ==> reject[k] == (k < i || Passes(pvalsSorted, alpha, k))
      {
        reject[i] := true;
      }
    }
    rejectSorted := reject[..];
  }

  /** Lines 78-81: the raw corrected values, their running minimum taken from
      the end, then every value above 1 set to 1. */
  method MonotoneCorrected(pvalsSorted: seq<real>) returns (correctedSorted: seq<real>)
    ensures correctedSorted == BhAdjusted(pvalsSorted)
  {
    var n := |pvalsSorted|;
    var pvalsCorrectedRaw := Raw(pvalsSorted);
    var pvalsCorrected := new real[n];
    var i := n;
    while i > 0
      invariant 0 <= i <= n
      invariant forall k :: i <= k < n ==> pvalsCorrected[k] == SuffixMin(pvalsCorrectedRaw, k)
    {
      i := i - 1;
      if i == n - 1 {
        pvalsCorrected[i] := pvalsCorrectedRaw[i];
      } else {
        pvalsCorrected[i] := Min(pvalsCorrected[i + 1], pvalsCorrectedRaw[i]);
      }
    }
    for i := 0 to n
      invariant forall k :: 0 <= k < i ==> pvalsCorrected[k] == Clamp(SuffixMin(pvalsCorrectedRaw, k))
      invariant forall k :: i <= k < n ==> pvalsCorrected[k] == SuffixMin(pvalsCorrectedRaw, k)
    {
      if pvalsCorrected[i] > 1.0 {
        pvalsCorrected[i] := 1.0;
      }
    }
    correctedSorted := pvalsCorrected[..];
    assert forall k :: 0 <= k < n ==> correctedSorted[k] == BhAdjusted(pvalsSorted)[k];
  }

  /** Lines 82-86: `out = np.empty_like(v); out[ind] = v`. */
  method ScatterBack<T(0)>(ind: seq<nat>, v: seq<T>) returns (out: seq<T>)
    requires |v| == |ind| && IsPermutation(ind)
    ensures |out| == |v|
    ensures forall j :: 0 <= j < |ind| ==> ind[j] < |out| && out[ind[j]] == v[j]
  {
    var n := |v|;
    PermutationFacts(ind);
    var a := new T[n];
    for j := 0 to n
      invariant forall k :: 0 <= k < j ==> a[ind[k]] == v[k]
    {
      a[ind[j]] := v[j];
    }
    out := a[..];
  }

  /** `fdrcorrection(pvals, alpha)`: sorts, tests against the rank fractions,
      extends the rejections to a prefix, takes the running minimum from the
      end, clamps at 1 and scatters both results back to the input order. */
  method FdrCorrection(pvals: seq<real>, alpha: real) returns (reject_: seq<bool>, pvalsCorrected_: seq<real>)
    ensures (reject_, pvalsCorrected_) == FdrSpec(pvals, alpha)
  {
    var pvalsSortind := ArgSort(pvals);
    var pvalsSorted := Take(pvals, pvalsSortind);
    var reject := StepUpReject(pvalsSorted, alpha);
    var pvalsCorrected := MonotoneCorrected(pvalsSorted);
    pvalsCorrected_ := ScatterBack(pvalsSortind, pvalsCorrected);
    reject_ := ScatterBack(pvalsSortind, reject);
    PermutationFacts(pvalsSortind);
    AgreeThroughPermutation(pvalsSortind, reject_, FdrSpec(pvals, alpha).0);
    AgreeThroughPermutation(pvalsSortind, pvalsCorrected_, FdrSpec(pvals, alpha).1);
  }
}

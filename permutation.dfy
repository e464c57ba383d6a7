/**
  The array primitives that `fdrcorrection` in gseapy/stats.py takes from numpy,
  modelled by their effect on values: `np.argsort` is any permutation of the
  indices that lists the values in ascending order, `np.take` reads a sequence
  through such a permutation, and the fancy-index write `out[ind] = v` scatters
  values back to their original positions.
 */
module Permutation {

  /** The indices 0, 1, ..., n - 1 in order. */
  function Range(n: nat): seq<nat>
  {
    seq(n, i requires 0 <= i < n => i)
  }

  /** `ind` lists every index below |ind| exactly once. */
  predicate IsPermutation(ind: seq<nat>)
  {
    multiset(ind) == multiset(Range(|ind|))
  }

  predicate InRange(ind: seq<nat>, n: nat)
  {
    forall j :: 0 <= j < |ind| ==> ind[j] < n
  }

  predicate Sorted(s: seq<real>)
  {
    forall i, j :: 0 <= i <= j < |s| ==> s[i] <= s[j]
  }

  /** Reading `p` through `ind` gives an ascending sequence. */
  predicate SortedBy(p: seq<real>, ind: seq<nat>)
    requires InRange(ind, |p|)
  {
    forall i, j :: 0 <= i <= j < |ind| ==> p[ind[i]] <= p[ind[j]]
  }

  /** What `np.argsort(p)` promises: a permutation of the indices of `p` that
      sorts it ascending. The order among equal values is left open. */
  predicate IsArgsort(p: seq<real>, ind: seq<nat>)
  {
    |ind| == |p| && InRange(ind, |p|) && IsPermutation(ind) && SortedBy(p, ind)
  }

  /** `np.take(p, ind)`. */
  function Take(p: seq<real>, ind: seq<nat>): (r: seq<real>)
    requires InRange(ind, |p|)
    ensures |r| == |ind|
    ensures forall j :: 0 <= j < |ind| ==> r[j] == p[ind[j]]
  {
    seq(|ind|, j requires 0 <= j < |ind| => p[ind[j]])
  }

  lemma {:induction false} RangeCountAtMostOne(n: nat, x: nat)
    ensures multiset(Range(n))[x] <= 1
    ensures multiset(Range(n))[x] == 1 <==> x < n
  {
    if n > 0 {
      assert Range(n) == Range(n - 1) + [n - 1];
      RangeCountAtMostOne(n - 1, x);
    } else {
      assert Range(n) == [];
    }
  }

  /** A permutation, read as a sequence, stays in range, never repeats an index
      and reaches every index. */
  lemma PermutationFacts(ind: seq<nat>)
    requires IsPermutation(ind)
    ensures InRange(ind, |ind|)
    ensures forall i, j :: 0 <= i < j < |ind| ==> ind[i] != ind[j]
    ensures forall t :: 0 <= t < |ind| ==> t in ind
  {
    var n := |ind|;
    forall j | 0 <= j < n
      ensures ind[j] < n
    {
      assert ind[j] in multiset(ind);
      RangeCountAtMostOne(n, ind[j]);
    }
    forall i, j | 0 <= i < j < n
      ensures ind[i] != ind[j]
    {
      if ind[i] == ind[j] {
        var x := ind[i];
        assert ind == ind[..j] + ind[j..];
        assert x in multiset(ind[..j]) by { assert ind[..j][i] == x; }
        assert x in multiset(ind[j..]) by { assert ind[j..][0] == x; }
        assert multiset(ind)[x] == multiset(ind[..j])[x] + multiset(ind[j..])[x];
        RangeCountAtMostOne(n, x);
        assert false;
      }
    }
    forall t | 0 <= t < n
      ensures t in ind
    {
      RangeCountAtMostOne(n, t);
      assert t in multiset(ind);
    }
  }

  /** Inserts index `t` into `ind`, which is sorted by `p`, keeping it sorted. */
  function Insert(p: seq<real>, ind: seq<nat>, t: nat): (r: seq<nat>)
    requires t < |p| && InRange(ind, |p|) && SortedBy(p, ind)
    ensures multiset(r) == multiset(ind) + multiset{t}
    ensures |r| == |ind| + 1
    ensures InRange(r, |p|) && SortedBy(p, r)
    decreases |ind|
  {
    if ind == [] then [t]
    else if p[t] <= p[ind[0]] then [t] + ind
    else
      var rest := Insert(p, ind[1..], t);
      InsertStep(p, ind, t, rest);
      [ind[0]] + rest
  }

  /** Putting the head of `ind` back in front of the insertion into its tail
      keeps the order. */
  lemma InsertStep(p: seq<real>, ind: seq<nat>, t: nat, rest: seq<nat>)
    requires t < |p| && ind != [] && InRange(ind, |p|) && SortedBy(p, ind)
    requires p[ind[0]] < p[t]
    requires multiset(rest) == multiset(ind[1..]) + multiset{t}
    requires InRange(rest, |p|) && SortedBy(p, rest)
    ensures multiset([ind[0]] + rest) == multiset(ind) + multiset{t}
    ensures InRange([ind[0]] + rest, |p|) && SortedBy(p, [ind[0]] + rest)
  {
    assert ind == [ind[0]] + ind[1..];
    forall j | 0 <= j < |rest|
      ensures p[ind[0]] <= p[rest[j]]
    {
      assert rest[j] in multiset(rest);
      if rest[j] != t {
        assert rest[j] in multiset(ind[1..]);
        var k :| 0 <= k < |ind[1..]| && ind[1..][k] == rest[j];
        assert ind[k + 1] == rest[j];
      }
    }
    var r := [ind[0]] + rest;
    forall i, j | 0 <= i <= j < |r|
      ensures p[r[i]] <= p[r[j]]
    {
      if i > 0 {
        assert r[i] == rest[i - 1] && r[j] == rest[j - 1];
      } else if j > 0 {
        assert r[j] == rest[j - 1];
      }
    }
  }

  /** The indices 0 .. k - 1 of `p`, sorted by insertion. */
  function ArgSortPrefix(p: seq<real>, k: nat): (r: seq<nat>)
    requires k <= |p|
    ensures multiset(r) == multiset(Range(k))
    ensures |r| == k && InRange(r, |p|) && SortedBy(p, r)
  {
    if k == 0 then []
    else
      assert Range(k) == Range(k - 1) + [k - 1];
      Insert(p, ArgSortPrefix(p, k - 1), k - 1)
  }

  /** `np.argsort(p)`: one permutation that sorts `p` ascending. */
  function ArgSort(p: seq<real>): (ind: seq<nat>)
    ensures IsArgsort(p, ind)
  {
    ArgSortPrefix(p, |p|)
  }

  function IndexOf(s: seq<nat>, x: nat): (r: nat)
    requires x in s
    ensures r < |s| && s[r] == x
  {
    if s[0] == x then 0 else 1 + IndexOf(s[1..], x)
  }

  /** `out = np.empty_like(v); out[ind] = v`: the value at sorted position j
      lands at original position ind[j]. */
  function Scatter<T>(ind: seq<nat>, v: seq<T>): (r: seq<T>)
    requires |v| == |ind| && IsPermutation(ind)
    ensures |r| == |ind| && InRange(ind, |ind|)
    ensures forall j :: 0 <= j < |ind| ==> r[ind[j]] == v[j]
  {
    PermutationFacts(ind);
    seq(|ind|, t requires 0 <= t < |ind| => v[IndexOf(ind, t)])
  }

  /** Two sequences that agree at every position a permutation reaches are equal. */
  lemma AgreeThroughPermutation<T>(ind: seq<nat>, a: seq<T>, b: seq<T>)
    requires IsPermutation(ind) && |a| == |ind| && |b| == |ind|
    requires InRange(ind, |ind|)
    requires forall j :: 0 <= j < |ind| ==> a[ind[j]] == b[ind[j]]
    ensures a == b
  {
    PermutationFacts(ind);
    forall t | 0 <= t < |a|
      ensures a[t] == b[t]
    {
      var j := IndexOf(ind, t);
      assert a[ind[j]] == b[ind[j]];
    }
  }

  /** Reading `p` through two index sequences holding the same indices gives
      the same multiset of values. */
  lemma {:induction false} TakeMultiset(p: seq<real>, a: seq<nat>, b: seq<nat>)
    requires InRange(a, |p|) && InRange(b, |p|)
    requires multiset(a) == multiset(b)
    ensures multiset(Take(p, a)) == multiset(Take(p, b))
    decreases |a|
  {
    if a == [] {
      assert |b| == |multiset(b)| == 0;
      assert b == [];
    } else {
      var x := a[0];
      assert x in multiset(b);
      var k :| 0 <= k < |b| && b[k] == x;
      var front, back := b[..k], b[k + 1..];
      var b' := front + back;
      RemoveOne(b, k);
      assert multiset(a) == multiset{x} + multiset(a[1..]) by {
        assert a == [x] + a[1..];
      }
      MultisetCancel(multiset(a[1..]), multiset(b'), x);
      assert InRange(b', |p|) by {
        TakeSplit(p, b, k);
      }
      TakeMultiset(p, a[1..], b');
      TakeMultisetStep(p, a, b, k);
    }
  }

  /** The inductive step of TakeMultiset: removing the first index of `a` and
      the same index at position k of `b` removes the same value from both. */
  lemma TakeMultisetStep(p: seq<real>, a: seq<nat>, b: seq<nat>, k: nat)
    requires InRange(a, |p|) && InRange(b, |p|)
    requires 0 < |a| && k < |b| && b[k] == a[0]
    requires InRange(b[..k] + b[k + 1..], |p|)
    requires multiset(Take(p, a[1..])) == multiset(Take(p, b[..k] + b[k + 1..]))
    ensures multiset(Take(p, a)) == multiset(Take(p, b))
  {
    TakeSplit(p, a, 0);
    assert a[..0] + a[1..] == a[1..];
    TakeSplit(p, b, k);
  }

  lemma RemoveOne(b: seq<nat>, k: nat)
    requires k < |b|
    ensures multiset(b) == multiset(b[..k] + b[k + 1..]) + multiset{b[k]}
  {
    assert b == b[..k] + [b[k]] + b[k + 1..];
  }

  /** Taking through `ind` is taking through the index sequence with position
      `k` removed, plus the value at `ind[k]`. */
  lemma TakeSplit(p: seq<real>, ind: seq<nat>, k: nat)
    requires InRange(ind, |p|) && k < |ind|
    ensures InRange(ind[..k] + ind[k + 1..], |p|)
    ensures multiset(Take(p, ind)) == multiset(Take(p, ind[..k] + ind[k + 1..])) + multiset{p[ind[k]]}
  {
    var rest := ind[..k] + ind[k + 1..];
    assert InRange(rest, |p|) by {
      forall j | 0 <= j < |rest| ensures rest[j] < |p| {
        if j >= k { assert rest[j] == ind[j + 1]; }
      }
    }
    var t := Take(p, ind);
    var tr := Take(p, rest);
    assert t == t[..k] + [t[k]] + t[k + 1..];
    assert tr == t[..k] + t[k + 1..];
  }

  /** `np.take` through a permutation keeps the multiset of values. */
  lemma TakePermutation(p: seq<real>, ind: seq<nat>)
    requires |ind| == |p| && IsPermutation(ind)
    ensures InRange(ind, |p|)
    ensures multiset(Take(p, ind)) == multiset(p)
  {
    PermutationFacts(ind);
    var r := Range(|p|);
    TakeMultiset(p, ind, r);
    assert Take(p, r) == p;
  }

  lemma MultisetCancel<T>(m: multiset<T>, m': multiset<T>, x: T)
    requires m + multiset{x} == m' + multiset{x}
    ensures m == m'
  {
    forall y
      ensures m[y] == m'[y]
    {
      assert (m + multiset{x})[y] == (m' + multiset{x})[y];
    }
  }

  /** A sorted sequence is determined by its multiset of values. */
  lemma {:induction false} SortedUnique(a: seq<real>, b: seq<real>)
    requires Sorted(a) && Sorted(b) && multiset(a) == multiset(b)
    ensures a == b
    decreases |a|
  {
    assert |a| == |multiset(a)| == |b|;
    if a != [] {
      assert a[0] <= b[0] by {
        assert b[0] in multiset(a);
        var j :| 0 <= j < |a| && a[j] == b[0];
        assert a[0] <= a[j];
      }
      assert b[0] <= a[0] by {
        assert a[0] in multiset(b);
        var i :| 0 <= i < |b| && b[i] == a[0];
        assert b[0] <= b[i];
      }
      assert a == [a[0]] + a[1..];
      assert b == [b[0]] + b[1..];
      assert multiset(a) == multiset(a[1..]) + multiset{a[0]};
      assert multiset(b) == multiset(b[1..]) + multiset{a[0]};
      MultisetCancel(multiset(a[1..]), multiset(b[1..]), a[0]);
      SortedTail(a);
      SortedTail(b);
      SortedUnique(a[1..], b[1..]);
    }
  }

  lemma SortedTail(s: seq<real>)
    requires Sorted(s) && s != []
    ensures Sorted(s[1..])
  {
    forall i, j | 0 <= i <= j < |s| - 1
      ensures s[1..][i] <= s[1..][j]
    {
      assert s[1..][i] == s[i + 1] && s[1..][j] == s[j + 1];
    }
  }

  /** Every sorting permutation of `p` lists the same sorted values. */
  lemma ArgsortValuesUnique(p: seq<real>, p': seq<real>, ind: seq<nat>, ind': seq<nat>)
    requires IsArgsort(p, ind) && IsArgsort(p', ind') && multiset(p) == multiset(p')
    ensures Take(p, ind) == Take(p', ind')
  {
    TakePermutation(p, ind);
    TakePermutation(p', ind');
    SortedUnique(Take(p, ind), Take(p', ind'));
  }
}

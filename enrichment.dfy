/**
  `calc_pvalues` of gseapy/stats.py: hypergeometric enrichment of a query gene
  list in every gene set, visited in sorted order of the gene-set names.

  `scipy.stats.hypergeom.sf` is a foreign special function; it enters the
  model as the parameter `sf`, so the model fixes only which arguments it is
  given.
 */
module Enrichment {

  datatype Option<T> = None | Some(value: T)

  /** `hypergeom.sf(k, M, n, N)`: survival function at k of the hypergeometric
      distribution with population M, n successes in the population and N draws. */
  type SurvivalFunction = (int, int, int, int) -> real

  /** The background size used when none is given. */
  const DefaultBackground: int := 20000

  /** Python's `<=` on `str`: code point by code point, a proper prefix first. */
  predicate LexLe(a: string, b: string)
  {
    if a == [] then true
    else if b == [] then false
    else if a[0] != b[0] then a[0] < b[0]
    else LexLe(a[1..], b[1..])
  }

  predicate LexLess(a: string, b: string)
  {
    LexLe(a, b) && a != b
  }

  lemma {:induction false} LexLeReflexive(a: string)
    ensures LexLe(a, a)
  {
    if a != [] {
      LexLeReflexive(a[1..]);
    }
  }

  lemma {:induction false} LexLeTotal(a: string, b: string)
    ensures LexLe(a, b) || LexLe(b, a)
  {
    if a != [] && b != [] && a[0] == b[0] {
      LexLeTotal(a[1..], b[1..]);
    }
  }

  lemma {:induction false} LexLeAntisymmetric(a: string, b: string)
    requires LexLe(a, b) && LexLe(b, a)
    ensures a == b
  {
    if a != [] && b != [] {
      LexLeAntisymmetric(a[1..], b[1..]);
      assert a == [a[0]] + a[1..] && b == [b[0]] + b[1..];
    }
  }

  lemma {:induction false} LexLeTransitive(a: string, b: string, c: string)
    requires LexLe(a, b) && LexLe(b, c)
    ensures LexLe(a, c)
  {
    if a != [] && b != [] && c != [] && a[0] == b[0] && b[0] == c[0] {
      LexLeTransitive(a[1..], b[1..], c[1..]);
    }
  }

  predicate IsLeast(m: string, keys: set<string>)
  {
    m in keys && forall k :: k in keys ==> LexLe(m, k)
  }

  /** Every non-empty finite set of names has a least one. */
  lemma {:induction false} LeastExists(keys: set<string>)
    requires keys != {}
    ensures exists m :: IsLeast(m, keys)
    decreases |keys|
  {
    var x :| x in keys;
    if keys == {x} {
      LexLeReflexive(x);
      assert IsLeast(x, keys);
    } else {
      var rest := keys - {x};
      LeastExists(rest);
      var m :| IsLeast(m, rest);
      LexLeTotal(x, m);
      if LexLe(x, m) {
        forall k | k in keys
          ensures LexLe(x, k)
        {
          if k == x { LexLeReflexive(x); } else { LexLeTransitive(x, m, k); }
        }
        assert IsLeast(x, keys);
      } else {
        assert IsLeast(m, keys);
      }
    }
  }

  /** The least name of a non-empty set: the only name that is in the set and
      `<=` every name in it. */
  function Least(keys: set<string>): (m: string)
    requires keys != {}
    ensures IsLeast(m, keys)
    ensures forall m' :: IsLeast(m', keys) ==> m' == m
  {
    LeastExists(keys);
    LeastUnique(keys);
    var m :| IsLeast(m, keys);
    m
  }

  lemma LeastUnique(keys: set<string>)
    ensures forall m, m' :: IsLeast(m, keys) && IsLeast(m', keys) ==> m == m'
  {
    forall m, m' | IsLeast(m, keys) && IsLeast(m', keys)
      ensures m == m'
    {
      LexLeAntisymmetric(m, m');
    }
  }

  /** `sorted(gene_sets.keys())`: every name exactly once, in strictly
      ascending order. */
  function SortedKeys(keys: set<string>): (r: seq<string>)
    ensures |r| == |keys|
    ensures forall k :: k in r <==> k in keys
    ensures forall i, j :: 0 <= i < j < |r| ==> LexLess(r[i], r[j])
    decreases |keys|
  {
    if keys == {} then []
    else
      var m := Least(keys);
      var rest := SortedKeys(keys - {m});
      assert forall j :: 0 <= j < |rest| ==> LexLess(m, rest[j]) by {
        forall j | 0 <= j < |rest|
          ensures LexLess(m, rest[j])
        {
          assert rest[j] in rest;
        }
      }
      [m] + rest
  }

  /** `set(s)`. */
  function SetOf(s: seq<string>): set<string>
  {
    set x | x in s
  }

  lemma {:induction false} SetOfSize(s: seq<string>)
    ensures |SetOf(s)| <= |s|
  {
    if s != [] {
      var init := s[..|s| - 1];
      SetOfSize(init);
      assert SetOf(s) == SetOf(init) + {s[|s| - 1]} by {
        assert s == init + [s[|s| - 1]];
      }
    }
  }

  lemma SubsetSize(a: set<string>, b: set<string>)
    requires a <= b
    ensures |a| <= |b|
  {
    assert b == a + (b - a);
  }

  /** `set(query).intersection(set(category))`: the names in both lists; there
      are no more of them than entries in either list. */
  function Hits(query: seq<string>, category: seq<string>): (h: set<string>)
    ensures forall g :: g in h <==> g in query && g in category
    ensures |h| <= |category| && |h| <= |query|
  {
    var h := SetOf(query) * SetOf(category);
    SubsetSize(h, SetOf(category));
    SubsetSize(h, SetOf(query));
    SetOfSize(category);
    SetOfSize(query);
    h
  }

  /** `bg_num`: the given background size, or 20000 when there is none. */
  function BackgroundSize(background: Option<int>): int
  {
    if background.None? then DefaultBackground else background.value
  }

  /** One entry `(p, x, m, hits)` of `calc_pvalues` for a gene list
      `category`: m is its length, hits the query genes in it, x their number
      and p the survival function at x - 1 for population bg, m successes and
      k = |query| draws. */
  predicate IsEntry(query: seq<string>, category: seq<string>, bg: int, sf: SurvivalFunction,
                    p: real, x: nat, m: nat, hits: set<string>)
  {
    && m == |category|
    && hits == Hits(query, category)
    && x == |hits|
    && p == sf(x as int - 1, bg, m, |query|)
  }

  /** Lines 57-60 for one gene list: its entry, whose hit count is bounded by
      both the gene list's length and the query's length. */
  method ScoreCategory(query: seq<string>, querySet: set<string>, category: seq<string>, bgNum: int, sf: SurvivalFunction)
    returns (p: real, x: nat, m: nat, h: set<string>)
    requires querySet == SetOf(query)
    ensures IsEntry(query, category, bgNum, sf, p, x, m, h)
    ensures x <= m && x <= |query|
  {
    m := |category|;
    h := querySet * SetOf(category);
    assert h == Hits(query, category);
    x := |h|;
    p := sf(x as int - 1, bgNum, m, |query|);
  }

  /** Lines 55-61: one entry per name of `subsets`, in that order. */
  method ScoreSubsets(query: seq<string>, geneSets: map<string, seq<string>>, subsets: seq<string>, bgNum: int, sf: SurvivalFunction)
    returns (pvals: seq<real>, xs: seq<nat>, ms: seq<nat>, hits: seq<set<string>>)
    requires forall s :: s in subsets ==> s in geneSets
    ensures |pvals| == |subsets| && |xs| == |subsets| && |ms| == |subsets| && |hits| == |subsets|
    ensures forall i :: 0 <= i < |subsets| ==>
      IsEntry(query, geneSets[subsets[i]], bgNum, sf, pvals[i], xs[i], ms[i], hits[i])
    ensures forall i :: 0 <= i < |subsets| ==> xs[i] <= ms[i] && xs[i] <= |query|
  {
    var querySet := SetOf(query);
    pvals, xs, ms, hits := [], [], [], [];
    for i := 0 to |subsets|
      invariant |pvals| == i && |xs| == i && |ms| == i && |hits| == i
      invariant forall j :: 0 <= j < i ==>
        IsEntry(query, geneSets[subsets[j]], bgNum, sf, pvals[j], xs[j], ms[j], hits[j])
      invariant forall j :: 0 <= j < i ==> xs[j] <= ms[j] && xs[j] <= |query|
    {
      var p, x, m, h := ScoreCategory(query, querySet, geneSets[subsets[i]], bgNum, sf);
      pvals, xs, ms, hits := pvals + [p], xs + [x], ms + [m], hits + [h];
    }
  }

  /** `calc_pvalues(query, gene_sets, background)`. Entry i of the four
      results belongs to the i-th gene-set name in ascending order, with
      background size 20000 when none is given. The draw count k is the
      length of `query` with duplicates. */
  method CalcPvalues(query: seq<string>, geneSets: map<string, seq<string>>, background: Option<int>, sf: SurvivalFunction)
    returns (pvals: seq<real>, xs: seq<nat>, ms: seq<nat>, hits: seq<set<string>>)
    ensures |pvals| == |geneSets| && |xs| == |geneSets| && |ms| == |geneSets| && |hits| == |geneSets|
    ensures forall i :: 0 <= i < |geneSets| ==>
      IsEntry(query, geneSets[SortedKeys(geneSets.Keys)[i]], BackgroundSize(background), sf,
              pvals[i], xs[i], ms[i], hits[i])
    ensures forall i :: 0 <= i < |geneSets| ==> xs[i] <= ms[i] && xs[i] <= |query|
  {
    var bgNum := BackgroundSize(background);
    var subsets := SortedKeys(geneSets.Keys);
    pvals, xs, ms, hits := ScoreSubsets(query, geneSets, subsets, bgNum, sf);
  }
}

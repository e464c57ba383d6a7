# gseapy statistics kernel in Dafny

This project models the statistics kernel of gseapy, `gseapy/stats.py`, and proves properties of the model. The kernel has three parts.

- **Enrichment scoring, `calc_pvalues`** (module `Enrichment`, `enrichment.dfy`).
  - The gene-set names are visited in ascending string order.
  - For each gene list the kernel computes four things: its length m, the set of query genes in it, their number x, and the hypergeometric survival function at `(x - 1, bg_num, m, k)`.
  - k is the length of the query list with duplicates.
  - `bg_num` is 20000 when no background is given.
  - `scipy.stats.hypergeom.sf` enters the model as a function parameter. The model fixes exactly which arguments it receives.
- **Benjamini-Hochberg step-up procedure, `_ecdf` and `fdrcorrection`** (module `Fdr`, `fdr.dfy`, on top of module `Permutation`, `permutation.dfy`).
  - `np.argsort` is modelled as any permutation that lists the p-values in ascending order. `ArgSort` is one such permutation.
  - The procedure is specified on the sorted p-values:
    - `BhReject` is the prefix up to the last position passing `p <= rank/n * alpha`;
    - `BhAdjusted` is the running minimum from the end of `p * n / rank`, clamped at 1.
  - `FdrSpec` scatters both results back through the permutation.
  - `FdrCorrection` is the array computation of lines 67-87, step by step. It is proved to return exactly `FdrSpec`.
  - The result does not depend on which sorting permutation numpy picks among tied values (`FdrAnyArgsort`), nor on the input order (`FdrOrderInvariant`).
- **NaN-masked correction, `multiple_testing_correction`** (module `Correction`, `correction.dfy`).
  - A float entry is `NaN` or `Num(v)`.
  - The kernel takes the non-NaN p-values in order (`Dense`) and corrects them with Bonferroni or Benjamini-Hochberg.
  - It writes the results back at the non-NaN positions of float copies of the input (`Fill`, `AssignMasked`).
  - `rej` is a float copy of the input, so its NaN positions stay NaN and its other positions hold 1.0 or 0.0.
  - An unknown method name gives `ValueError(method)`.

P-values are exact reals. The integer quantities (`len`, set sizes) are unbounded naturals.

## Model

| member | source | states |
|---|---|---|
| Enrichment.CalcPvalues | gseapy/stats.py:47-61 | Exactly one entry per gene-set name, in ascending name order, as four parallel sequences. Entry i has m = length of the i-th gene list, hits = query genes in it, x = number of hits, and p = sf(x - 1, bg, m, len(query)). bg is 20000 when no background is given. Also 0 <= x <= m and x <= len(query). |
| Enrichment.ScoreSubsets | gseapy/stats.py:55-61 | The loop over the names yields, for every name in the given order, the entry (p, x, m, hits) of its gene list, with x <= m and x <= len(query). |
| Enrichment.ScoreCategory | gseapy/stats.py:56-60 | One gene list's entry: m is its length, hits is set(query) ∩ set(category), x = len(hits) and p = sf(x - 1, bg, m, k). x is bounded by both lengths. |
| Enrichment.SortedKeys | gseapy/stats.py:53 | `sorted(gene_sets.keys())` lists every name exactly once, in strictly ascending Python string order. |
| Enrichment.Least | gseapy/stats.py:53 | The name chosen first is in the set and is `<=` every other name, and it is the only name with that property, so the first name of the sorted order is determined. |
| Enrichment.LeastExists | gseapy/stats.py:53 | Every non-empty finite set of names has a least element under Python string order. |
| Enrichment.LexLeTotal | gseapy/stats.py:53 | Python string order is total. |
| Enrichment.LexLeAntisymmetric | gseapy/stats.py:53 | Python string order is antisymmetric, so the sorted order of the names is unique. |
| Enrichment.LexLeTransitive | gseapy/stats.py:53 | Python string order is transitive. |
| Enrichment.Hits | gseapy/stats.py:58-59 | A gene is a hit exactly when it is in the query and in the gene list. There are no more hits than entries in either list. |
| Enrichment.SetOfSize | gseapy/stats.py:51 | `set(query)` has no more elements than the list it was built from. |
| Fdr.Ecdf | gseapy/stats.py:63-65 | `_ecdf(x)` has the length of x. Entry i is (i + 1)/n, lies in (0, 1], and times n gives i + 1. The entries strictly increase, and the last one is 1. |
| Fdr.EcdfFactorIncreasing | gseapy/stats.py:65 | The rank fractions strictly increase with the rank. |
| Fdr.LastPass | gseapy/stats.py:75-76 | `max(np.nonzero(reject)[0])` guarded by `reject.any()` is the largest passing position, or -1 when none passes. Every later position fails. |
| Fdr.BhRejectFacts | gseapy/stats.py:73-77 | In sorted order, a position is rejected iff some position at or after it has p <= rank/n * alpha. The rejections form a prefix, and nothing is rejected when no position passes. |
| Fdr.StepUpReject | gseapy/stats.py:73-77 | The array computation (provisional test, then `reject[:rejectmax] = True`) yields exactly BhReject. |
| Fdr.RawAt | gseapy/stats.py:78 | Each raw corrected value `pvals_sorted / ecdffactor` equals p * n / (i + 1). |
| Fdr.SuffixMinFacts | gseapy/stats.py:79 | The reversed running minimum at i is at most every entry from i on, and it equals one of them. |
| Fdr.BhAdjustedFacts | gseapy/stats.py:78-81 | In sorted order, corrected value i is min(1, min over j >= i of p[j] * n / (j + 1)). It is at most 1, at most every later raw value, and equal to 1 or to one of them. The corrected values never decrease. |
| Fdr.MonotoneCorrected | gseapy/stats.py:78-81 | The array computation (reverse running minimum, then clamping at 1) yields exactly BhAdjusted. |
| Fdr.AdjustedAtLeastP | gseapy/stats.py:78-81 | On sorted p-values in [0, 1], each corrected value is at least its own p-value. |
| Fdr.RejectTie | gseapy/stats.py:74-77 | Equal sorted p-values get the same reject flag, for alpha >= 0. |
| Fdr.SuffixMinTie | gseapy/stats.py:78-79 | Within a run of equal non-negative sorted p-values, the reversed running minimum is constant. |
| Fdr.AdjustedTie | gseapy/stats.py:78-81 | Equal non-negative sorted p-values get the same corrected value. |
| Permutation.ArgSort | gseapy/stats.py:70 | The index sequence is a permutation of 0..n-1 that lists the p-values in ascending order. |
| Permutation.TakePermutation | gseapy/stats.py:71 | Reading the p-values through a permutation keeps their multiset. |
| Permutation.SortedUnique | gseapy/stats.py:70-71 | Two sorted sequences with the same multiset are equal. |
| Permutation.ArgsortValuesUnique | gseapy/stats.py:70-71 | Every sorting permutation of a multiset of p-values yields the same sorted sequence. |
| Permutation.Scatter | gseapy/stats.py:82-86 | `out[ind] = v` puts v[j] at position ind[j], for every j. |
| Permutation.AgreeThroughPermutation | gseapy/stats.py:82-86 | Two arrays that agree at every position a permutation reaches are equal. |
| Fdr.ScatterBack | gseapy/stats.py:82-86 | The scatter loop into a fresh array puts v[j] at position ind[j]. |
| Fdr.FdrSpec | gseapy/stats.py:67-87 | The two results have the input's length. At original index ind[j] they hold the reject flag and the corrected value of sorted position j. |
| Fdr.FdrCorrection | gseapy/stats.py:67-87 | The whole array computation returns exactly FdrSpec(pvals, alpha). |
| Fdr.FdrAnyArgsort | gseapy/stats.py:70-86 | For alpha >= 0 and p >= 0, any permutation that sorts the input gives the same results at each original index. Numpy's unstable tie order does not matter. |
| Fdr.FdrOrderInvariant | gseapy/stats.py:67-87 | For inputs that are permutations of each other, equal non-negative p-values get equal reject flags and corrected values. |
| Fdr.FdrBounds | gseapy/stats.py:67-87 | In input order, on p-values in [0, 1], each corrected value lies between its p-value and 1. |
| Fdr.FdrMonotone | gseapy/stats.py:67-87 | For alpha >= 0 and a non-negative smaller p-value: in input order, a smaller p-value never gets a larger corrected value. If the larger p-value is rejected, so is the smaller one. |
| Fdr.BonferroniRejectSorted | gseapy/stats.py:74 | A sorted p-value with p * n < alpha passes the step-up test and is rejected. |
| Fdr.BonferroniRejectImpliesBh | gseapy/stats.py:67-87 | With alpha >= 0, every p-value with p * n < alpha is rejected by `fdrcorrection`. |
| Fdr.SingleRejectedAtAlpha | gseapy/stats.py:74 | A single p-value equal to alpha is rejected, because the test is `<=`. |
| Correction.CountNumPrefix | gseapy/stats.py:100-101 | The non-NaN entries before a position are fewer than all non-NaN entries when that position holds a number. |
| Correction.Dense | gseapy/stats.py:100-101 | `_p[~np.isnan(_p)]` has one value per non-NaN entry. The non-NaN entry at position i is the dense value numbered by the count of non-NaN entries before i. |
| Correction.DenseFrom | gseapy/stats.py:101 | Every dense value comes from a non-NaN input entry. |
| Correction.Fill | gseapy/stats.py:98-99 | A copy of the input with `vals` written at the mask: NaN entries stay NaN, and the non-NaN entries receive `vals` in order. |
| Correction.AssignMasked | gseapy/stats.py:103-108 | `a[mask] = vals` writes `vals` in order at the non-NaN positions and leaves the NaN positions unchanged. |
| Correction.FilledCopy | gseapy/stats.py:97-108 | A copy of the input overwritten at the mask equals Fill. |
| Correction.Bonferroni | gseapy/stats.py:102-104 | NaN stays NaN in q and rej. Otherwise q = p * (number of non-NaN entries), not clamped, and rej is 1.0 exactly when q < alpha, else 0.0. |
| Correction.BonferroniInto | gseapy/stats.py:102-104 | The masked writes of the 'bonferroni' branch leave q and rej equal to Bonferroni. |
| Correction.BonferroniUnclamped | gseapy/stats.py:103 | p-values 0.6 and 0.7 give Bonferroni values 1.2 and 1.4, above 1. |
| Correction.BenjaminiHochberg | gseapy/stats.py:105-108 | NaN stays NaN in q and rej. The non-NaN entries receive, in order, the corrected values and the reject flags (as 1.0 or 0.0) of fdrcorrection on the dense p-values. |
| Correction.BenjaminiHochbergInto | gseapy/stats.py:105-108 | The masked writes of the 'benjamini-hochberg' branch leave q and rej equal to BenjaminiHochberg. |
| Correction.BenjaminiHochbergBounds | gseapy/stats.py:105-108 | On p-values in [0, 1], each non-NaN q lies between its p and 1, and its rej is 1.0 or 0.0. |
| Correction.BenjaminiHochbergMonotone | gseapy/stats.py:105-108 | For alpha >= 0 and a non-negative smaller p: among non-NaN entries, a smaller p never gets a larger q. If the larger p is rejected, so is the smaller one. |
| Correction.BonferroniRejectImpliesBh | gseapy/stats.py:102-108 | For alpha >= 0, every entry rejected by the 'bonferroni' branch is rejected by the 'benjamini-hochberg' branch. |
| Correction.StrictVersusInclusive | gseapy/stats.py:104 | A single p-value equal to alpha is not rejected by Bonferroni (`<`) but is rejected by Benjamini-Hochberg (`<=`). |
| Correction.MultipleTestingCorrection | gseapy/stats.py:89-111 | 'bonferroni' gives Ok(Bonferroni), 'benjamini-hochberg' gives Ok(BenjaminiHochberg), and any other method name gives Err(ValueError(method)). |

## Left out

- `scipy.stats.hypergeom.sf`: a foreign special function, computed in floating point from log-gamma values. It is the parameter `sf`, so its values are unconstrained. For example, that it returns 1.0 at x - 1 = -1 is not part of the model.
- IEEE floating point: rounding, infinities and NaN comparison semantics are not modelled. P-values are exact reals, and NaN is an explicit tag that `np.isnan` tests.
- numpy internals of `argsort`, `take`, `minimum.accumulate` and `empty_like`: only their effect on values is modelled. Sort stability is replaced by "any sorting permutation", and `FdrAnyArgsort` shows that the choice does not matter.
- Fdr.RejectTie, Fdr.AdjustedTie, Fdr.FdrAnyArgsort, Fdr.FdrOrderInvariant, Fdr.FdrMonotone, Correction.BenjaminiHochbergMonotone: these require alpha >= 0 and p >= 0. With a negative alpha, or a negative p, the tie order can change the result, and those inputs are outside what p-values are.
- Enrichment.CalcPvalues: `zip(*vals)` returns one iterator of tuples. The model returns the four sequences it yields. An empty gene-set mapping, which the caller cannot unpack, is modelled as four empty sequences.
- Enrichment.CalcPvalues: the docstring's types (query as a set, background as a set of genes) are not followed. The code uses `len(query)` before deduplication and uses `background` as a number, and the model follows the code.
- The unused `sys` and `logging` imports and the ignored `**kwargs` parameters.
- The defaults `alpha=0.05` and `method='benjamini-hochberg'`: Dafny has no default arguments, so callers pass both.
- Correction.MultipleTestingCorrection: `rej` is not a boolean array that is False at NaN positions. The code at gseapy/stats.py:99 makes `rej` a float copy of the input, so NaN positions stay NaN and the others hold 1.0 or 0.0, and the model follows the code.

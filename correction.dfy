/**
  `multiple_testing_correction` of gseapy/stats.py: Bonferroni or
  Benjamini-Hochberg correction of an array of p-values in which NaN marks a
  test left out. NaN entries are masked out, the method runs on the dense
  remainder, and its results are written back at the non-NaN positions of
  float copies of the input.
 */
module Correction {
  import Fdr

  /** One entry of a float array: a number, or NaN. */
  datatype Float = NaN | Num(v: real)

  datatype Error = ValueError(methodName: string)

  datatype Result<T> = Ok(value: T) | Err(error: Error)

  /** The number of non-NaN entries of `ps`. */
  function CountNum(ps: seq<Float>): nat
  {
    if ps == [] then 0
    else CountNum(ps[..|ps| - 1]) + (if ps[|ps| - 1].Num? then 1 else 0)
  }

  /** A non-NaN entry has fewer non-NaN entries before it than there are in all. */
  lemma {:induction false} CountNumPrefix(ps: seq<Float>, i: nat)
    requires i < |ps|
    ensures CountNum(ps[..i]) + (if ps[i].Num? then 1 else 0) <= CountNum(ps)
    decreases |ps|
  {
    var init := ps[..|ps| - 1];
    if i == |ps| - 1 {
      assert ps[..i] == init;
    } else {
      assert init[..i] == ps[..i];
      CountNumPrefix(init, i);
    }
  }

  /** `_p[~np.isnan(_p)]`: the non-NaN values in order; the non-NaN entry at
      position i is the dense entry numbered by the non-NaN entries before it. */
  function Dense(ps: seq<Float>): (d: seq<real>)
    ensures |d| == CountNum(ps)
    ensures forall i :: 0 <= i < |ps| && ps[i].Num? ==>
      CountNum(ps[..i]) < |d| && d[CountNum(ps[..i])] == ps[i].v
    decreases |ps|
  {
    if ps == [] then []
    else
      var init := ps[..|ps| - 1];
      var d := Dense(init) + (if ps[|ps| - 1].Num? then [ps[|ps| - 1].v] else []);
      assert forall i :: 0 <= i < |ps| - 1 ==> init[..i] == ps[..i];
      assert ps[..|ps| - 1] == init;
      d
  }

  /** `out = _p.copy(); out[mask] = vals`: NaN entries stay NaN, the non-NaN
      entries receive `vals` in order. */
  function Fill(ps: seq<Float>, vals: seq<Float>): (r: seq<Float>)
    requires |vals| == CountNum(ps)
    ensures |r| == |ps|
    ensures forall i :: 0 <= i < |ps| && ps[i].NaN? ==> r[i] == NaN
    ensures forall i :: 0 <= i < |ps| && ps[i].Num? ==>
      CountNum(ps[..i]) < |vals| && r[i] == vals[CountNum(ps[..i])]
  {
    forall i | 0 <= i < |ps|
      ensures CountNum(ps[..i]) + (if ps[i].Num? then 1 else 0) <= CountNum(ps)
    {
      CountNumPrefix(ps, i);
    }
    seq(|ps|, i requires 0 <= i < |ps| => if ps[i].NaN? then NaN else vals[CountNum(ps[..i])])
  }

  function Nums(xs: seq<real>): (r: seq<Float>)
    ensures |r| == |xs| && forall k :: 0 <= k < |xs| ==> r[k] == Num(xs[k])
  {
    seq(|xs|, k requires 0 <= k < |xs| => Num(xs[k]))
  }

  /** A boolean stored into a float array: 1.0 for True, 0.0 for False. */
  function AsFloat(b: bool): Float
  {
    Num(if b then 1.0 else 0.0)
  }

  function Flags(bs: seq<bool>): (r: seq<Float>)
    ensures |r| == |bs| && forall k :: 0 <= k < |bs| ==> r[k] == AsFloat(bs[k])
  {
    seq(|bs|, k requires 0 <= k < |bs| => AsFloat(bs[k]))
  }

  /** `q[mask] = p * len(p)` on the dense p-values. */
  function BonferroniScale(p: seq<real>): (q: seq<real>)
    ensures |q| == |p| && forall k :: 0 <= k < |p| ==> q[k] == Fdr.Times(p[k], |p|)
  {
    seq(|p|, k requires 0 <= k < |p| => Fdr.Times(p[k], |p|))
  }

  /** The result of the 'bonferroni' branch, `(q, rej)`: every non-NaN p-value
      times the number of non-NaN p-values, not clamped at 1, and rejected
      exactly when that product is strictly below alpha. */
  function Bonferroni(ps: seq<Float>, alpha: real): (r: (seq<Float>, seq<Float>))
    ensures |r.0| == |ps| && |r.1| == |ps|
    ensures forall i :: 0 <= i < |ps| && ps[i].NaN? ==> r.0[i] == NaN && r.1[i] == NaN
    ensures forall i :: 0 <= i < |ps| && ps[i].Num? ==>
      r.0[i] == Num(Fdr.Times(ps[i].v, CountNum(ps))) && r.1[i] == AsFloat(Fdr.Times(ps[i].v, CountNum(ps)) < alpha)
  {
    var q := BonferroniScale(Dense(ps));
    var rej := seq(|q|, k requires 0 <= k < |q| => q[k] < alpha);
    var r := (Fill(ps, Nums(q)), Fill(ps, Flags(rej)));
    forall i | 0 <= i < |ps| && ps[i].Num?
      ensures r.0[i] == Num(Fdr.Times(ps[i].v, CountNum(ps))) && r.1[i] == AsFloat(Fdr.Times(ps[i].v, CountNum(ps)) < alpha)
    {
      var k := CountNum(ps[..i]);
      assert Dense(ps)[k] == ps[i].v;
      assert r.0[i] == Nums(q)[k];
      assert r.1[i] == Flags(rej)[k];
    }
    r
  }

  /** The result of the 'benjamini-hochberg' branch, `(q, rej)`: NaN entries
      stay NaN in both; the non-NaN entries receive, in order, the corrected
      values and the reject flags (as 1.0 or 0.0) of `fdrcorrection` run on
      the non-NaN p-values. */
  function BenjaminiHochberg(ps: seq<Float>, alpha: real): (r: (seq<Float>, seq<Float>))
    ensures |r.0| == |ps| && |r.1| == |ps|
    ensures forall i :: 0 <= i < |ps| && ps[i].NaN? ==> r.0[i] == NaN && r.1[i] == NaN
    ensures forall i :: 0 <= i < |ps| && ps[i].Num? ==>
      var k := CountNum(ps[..i]);
      var fdr := Fdr.FdrSpec(Dense(ps), alpha);
      k < |Dense(ps)| && r.0[i] == Num(fdr.1[k]) && r.1[i] == AsFloat(fdr.0[k])
  {
    var fdr := Fdr.FdrSpec(Dense(ps), alpha);
    (Fill(ps, Nums(fdr.1)), Fill(ps, Flags(fdr.0)))
  }

  /** On p-values in [0, 1], each non-NaN entry's corrected value lies between
      its p-value and 1, and its reject entry is 1.0 or 0.0. */
  lemma BenjaminiHochbergBounds(ps: seq<Float>, alpha: real, i: nat)
    requires forall j :: 0 <= j < |ps| && ps[j].Num? ==> 0.0 <= ps[j].v <= 1.0
    requires i < |ps| && ps[i].Num?
    ensures BenjaminiHochberg(ps, alpha).0[i].Num?
    ensures ps[i].v <= BenjaminiHochberg(ps, alpha).0[i].v <= 1.0
    ensures BenjaminiHochberg(ps, alpha).1[i] in {Num(1.0), Num(0.0)}
  {
    var d := Dense(ps);
    forall k | 0 <= k < |d|
      ensures 0.0 <= d[k] <= 1.0
    {
      DenseFrom(ps, k);
    }
    Fdr.FdrBounds(d, alpha, CountNum(ps[..i]));
  }

  /** Every dense entry comes from some non-NaN entry of `ps`. */
  lemma {:induction false} DenseFrom(ps: seq<Float>, k: nat)
    requires k < |Dense(ps)|
    ensures exists j :: 0 <= j < |ps| && ps[j] == Num(Dense(ps)[k])
    decreases |ps|
  {
    var init := ps[..|ps| - 1];
    if k < |Dense(init)| {
      DenseFrom(init, k);
      var j :| 0 <= j < |init| && init[j] == Num(Dense(init)[k]);
      assert ps[j] == init[j];
    } else {
      assert ps[|ps| - 1] == Num(Dense(ps)[k]);
    }
  }

  /** Among non-NaN entries, a smaller p-value never gets a larger corrected
      value, and if the larger one is rejected so is the smaller. */
  lemma BenjaminiHochbergMonotone(ps: seq<Float>, alpha: real, i: nat, j: nat)
    requires 0.0 <= alpha
    requires i < |ps| && j < |ps| && ps[i].Num? && ps[j].Num?
    requires 0.0 <= ps[i].v <= ps[j].v
    ensures BenjaminiHochberg(ps, alpha).0[i].v <= BenjaminiHochberg(ps, alpha).0[j].v
    ensures BenjaminiHochberg(ps, alpha).1[j] == Num(1.0) ==> BenjaminiHochberg(ps, alpha).1[i] == Num(1.0)
  {
    Fdr.FdrMonotone(Dense(ps), alpha, CountNum(ps[..i]), CountNum(ps[..j]));
  }

  /** For alpha >= 0, every non-NaN entry rejected by the Bonferroni branch
      is rejected by the Benjamini-Hochberg branch as well. */
  lemma BonferroniRejectImpliesBh(ps: seq<Float>, alpha: real, i: nat)
    requires 0.0 <= alpha
    requires i < |ps| && Bonferroni(ps, alpha).1[i] == Num(1.0)
    ensures BenjaminiHochberg(ps, alpha).1[i] == Num(1.0)
  {
    var d := Dense(ps);
    var k := CountNum(ps[..i]);
    assert ps[i].Num? && k < |d| && d[k] == ps[i].v;
    assert Fdr.Times(d[k], |d|) < alpha;
    Fdr.BonferroniRejectImpliesBh(d, alpha, k);
  }

  /** The Bonferroni branch rejects strictly below alpha while the
      Benjamini-Hochberg test accepts equality: a single p-value equal to
      alpha is rejected by the second only. */
  lemma StrictVersusInclusive(alpha: real)
    requires 0.0 < alpha
    ensures Bonferroni([Num(alpha)], alpha).1 == [Num(0.0)]
    ensures BenjaminiHochberg([Num(alpha)], alpha).1 == [Num(1.0)]
  {
    var ps := [Num(alpha)];
    assert ps[..0] == [];
    Fdr.SingleRejectedAtAlpha(alpha);
  }

  /** Bonferroni values are not clamped at 1: two p-values 0.6 and 0.7 give
      corrected values 1.2 and 1.4. */
  lemma BonferroniUnclamped()
    ensures Bonferroni([Num(0.6), Num(0.7)], 0.05).0 == [Num(1.2), Num(1.4)]
  {
    var ps := [Num(0.6), Num(0.7)];
    assert ps[..0] == [] && ps[..1] == [Num(0.6)];
    assert CountNum(ps) == 2;
  }

  /** Writes `vals`, in order, over the entries of `a` at the non-NaN
      positions of `ps` (`a[mask] = vals`). */
  method AssignMasked(a: array<Float>, ps: seq<Float>, vals: seq<Float>)
    requires a.Length == |ps| && |vals| == CountNum(ps)
    modifies a
    ensures forall i :: 0 <= i < |ps| && ps[i].NaN? ==> a[i] == old(a[i])
    ensures forall i :: 0 <= i < |ps| && ps[i].Num? ==>
      CountNum(ps[..i]) < |vals| && a[i] == vals[CountNum(ps[..i])]
  {
    var k := 0;
    for i := 0 to |ps|
      invariant k == CountNum(ps[..i])
      invariant forall j :: i <= j < |ps| ==> a[j] == old(a[j])
      invariant forall j :: 0 <= j < i && ps[j].NaN? ==> a[j] == old(a[j])
      invariant forall j :: 0 <= j < i && ps[j].Num? ==>
        CountNum(ps[..j]) < |vals| && a[j] == vals[CountNum(ps[..j])]
    {
      assert ps[..i + 1][..i] == ps[..i];
      CountNumPrefix(ps, i);
      if ps[i].Num? {
        a[i] := vals[k];
        k := k + 1;
      }
    }
  }

  /** An array that started as a copy of `ps` and had `vals` written at its
      non-NaN positions now holds Fill(ps, vals). */
  lemma FilledCopy(a: seq<Float>, ps: seq<Float>, vals: seq<Float>)
    requires |a| == |ps| && |vals| == CountNum(ps)
    requires forall i :: 0 <= i < |ps| && ps[i].NaN? ==> a[i] == ps[i]
    requires forall i :: 0 <= i < |ps| && ps[i].Num? ==>
      CountNum(ps[..i]) < |vals| && a[i] == vals[CountNum(ps[..i])]
    ensures a == Fill(ps, vals)
  {
  }

  /** The 'bonferroni' branch, on float copies `q` and `rej` of `ps`. */
  method BonferroniInto(q: array<Float>, rej: array<Float>, ps: seq<Float>, alpha: real)
    requires q != rej && q[..] == ps && rej[..] == ps
    modifies q, rej
    ensures (q[..], rej[..]) == Bonferroni(ps, alpha)
  {
    var p := Dense(ps);
    var qMasked := BonferroniScale(p);
    var rejMasked := seq(|p|, k requires 0 <= k < |p| => qMasked[k] < alpha);
    AssignMasked(q, ps, Nums(qMasked));
    AssignMasked(rej, ps, Flags(rejMasked));
    FilledCopy(q[..], ps, Nums(qMasked));
    FilledCopy(rej[..], ps, Flags(rejMasked));
  }

  /** The 'benjamini-hochberg' branch, on float copies `q` and `rej` of `ps`. */
  method BenjaminiHochbergInto(q: array<Float>, rej: array<Float>, ps: seq<Float>, alpha: real)
    requires q != rej && q[..] == ps && rej[..] == ps
    modifies q, rej
    ensures (q[..], rej[..]) == BenjaminiHochberg(ps, alpha)
  {
    var p := Dense(ps);
    var rejDense, qDense := Fdr.FdrCorrection(p, alpha);
    AssignMasked(rej, ps, Flags(rejDense));
    AssignMasked(q, ps, Nums(qDense));
    FilledCopy(q[..], ps, Nums(qDense));
    FilledCopy(rej[..], ps, Flags(rejDense));
  }

  /** `multiple_testing_correction(ps, alpha, method)`: `Ok((q, rej))` for the
      two supported methods, `ValueError(method)` for any other. */
  method MultipleTestingCorrection(ps: seq<Float>, alpha: real, methodName: string)
    returns (r: Result<(seq<Float>, seq<Float>)>)
    ensures methodName == "bonferroni" ==> r == Ok(Bonferroni(ps, alpha))
    ensures methodName == "benjamini-hochberg" ==> r == Ok(BenjaminiHochberg(ps, alpha))
    ensures methodName != "bonferroni" && methodName != "benjamini-hochberg" ==>
      r == Err(ValueError(methodName))
  {
    var q := new Float[|ps|](i requires 0 <= i < |ps| => ps[i]);
    var rej := new Float[|ps|](i requires 0 <= i < |ps| => ps[i]);
    if methodName == "bonferroni" {
      BonferroniInto(q, rej, ps, alpha);
    } else if methodName == "benjamini-hochberg" {
      BenjaminiHochbergInto(q, rej, ps, alpha);
    } else {
      return Err(ValueError(methodName));
    }
    r := Ok((q[..], rej[..]));
  }
}

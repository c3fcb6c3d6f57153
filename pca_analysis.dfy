/** The bookkeeping around a fitted principal component analysis
    (python/pca_analysis.py): eigenvalue table, loadings, communalities,
    the two retention rules and the dominant-variable reading. The
    eigen-decomposition itself is not modelled: its outputs are the
    fields of FittedPca. */
module PcaAnalysis {
  import opened Wrappers
  import opened Numerics
  import opened Labels

  /** What the fitted model exposes: `explained_variance_` (the
      eigenvalues), `explained_variance_ratio_`, `components_` (one row
      per component, one column per variable) and the square roots of
      the eigenvalues used for the loadings. */
  datatype FittedPca = FittedPca(
    explainedVariance: seq<real>,
    explainedVarianceRatio: seq<real>,
    components: seq<seq<real>>,
    sqrtVariance: seq<real>)

  predicate Descending(s: seq<real>)
  {
    forall i, j :: 0 <= i <= j < |s| ==> s[i] >= s[j]
  }

  /** A fit over p variables: m >= 1 components, eigenvalues non-negative
      and in descending order, ratios non-negative, each component a
      vector over the p variables, and sqrtVariance[k] the non-negative
      square root of eigenvalue k. */
  predicate Conforms(f: FittedPca, p: nat)
  {
    var m := |f.explainedVariance|;
    1 <= m <= p
    && |f.explainedVarianceRatio| == m && |f.components| == m && |f.sqrtVariance| == m
    && (forall k :: 0 <= k < m ==> |f.components[k]| == p)
    && (forall k :: 0 <= k < m ==> f.explainedVariance[k] >= 0.0 && f.explainedVarianceRatio[k] >= 0.0)
    && (forall k :: 0 <= k < m ==>
          f.sqrtVariance[k] >= 0.0 && f.sqrtVariance[k] * f.sqrtVariance[k] == f.explainedVariance[k])
    && Descending(f.explainedVariance)
  }

  /** The ratios are the eigenvalues over their total, i.e. every
      component was kept (the default `n_components=None`). */
  predicate RatiosOfAllComponents(f: FittedPca)
  {
    |f.explainedVarianceRatio| == |f.explainedVariance|
    && Sum(f.explainedVariance) > 0.0
    && forall k :: 0 <= k < |f.explainedVariance| ==>
         f.explainedVarianceRatio[k] == f.explainedVariance[k] / Sum(f.explainedVariance)
  }

  // ---------------------------------------------------------------------
  //  Result tables
  // ---------------------------------------------------------------------

  datatype EigenRow = EigenRow(composante: string, valeurPropre: real, variancePct: real, cumulPct: real)

  datatype CommunalityRow = CommunalityRow(variable: string, communalite: real)

  /** The data frames the analysis produces, unrounded. */
  datatype Frame =
    | EigenvalueFrame(rows: seq<EigenRow>)
    | LoadingFrame(index: seq<string>, columns: seq<string>, values: seq<seq<real>>)
    | CommunalityFrame(entries: seq<CommunalityRow>)
    | ScoreFrame(columns: seq<string>, scores: seq<seq<real>>)

  const KeyValeursPropres: string := "valeurs_propres"
  const KeyLoadings: string := "loadings"
  const KeyCommunalites: string := "communalites"

  // ---------------------------------------------------------------------
  //  Eigenvalue table
  // ---------------------------------------------------------------------

  /** One row per component, named CP1..CPm in order, with its eigenvalue,
      its percentage of variance and the running percentage. */
  function EigenvalueTable(lambda: seq<real>, tau: seq<real>): (rows: seq<EigenRow>)
    requires |tau| == |lambda|
    ensures |rows| == |lambda|
    ensures forall k :: 0 <= k < |rows| ==>
              rows[k].composante == ComponentLabel(k)
              && rows[k].valeurPropre == lambda[k]
              && rows[k].variancePct == tau[k] * 100.0
    ensures forall k :: 0 <= k < |rows| ==> rows[k].cumulPct == Sum(tau[..k + 1]) * 100.0
  {
    var cumul := Cumsum(tau);
    var names := ComponentLabels(|lambda|);
    seq(|lambda|, k requires 0 <= k < |lambda| =>
      EigenRow(names[k], lambda[k], tau[k] * 100.0, cumul[k] * 100.0))
  }

  /** The cumulative column starts at the first share and adds each share
      in turn. */
  lemma {:induction false} CumulativeRecurrence(lambda: seq<real>, tau: seq<real>)
    requires |tau| == |lambda| > 0
    ensures var rows := EigenvalueTable(lambda, tau);
            rows[0].cumulPct == rows[0].variancePct
            && forall k :: 0 < k < |rows| ==> rows[k].cumulPct == rows[k - 1].cumulPct + rows[k].variancePct
  {
    var rows := EigenvalueTable(lambda, tau);
    assert tau[..1][..0] == [];
    forall k | 0 < k < |rows|
      ensures rows[k].cumulPct == rows[k - 1].cumulPct + rows[k].variancePct
    {
      assert tau[..k + 1][..k] == tau[..k];
      assert Sum(tau[..k + 1]) == Sum(tau[..k]) + tau[k];
    }
  }

  lemma {:induction false} CumulativeNonDecreasing(lambda: seq<real>, tau: seq<real>)
    requires |tau| == |lambda|
    requires forall k :: 0 <= k < |tau| ==> tau[k] >= 0.0
    ensures var rows := EigenvalueTable(lambda, tau);
            forall a, b :: 0 <= a <= b < |rows| ==> rows[a].cumulPct <= rows[b].cumulPct
  {
    var rows := EigenvalueTable(lambda, tau);
    forall a, b | 0 <= a <= b < |rows|
      ensures rows[a].cumulPct <= rows[b].cumulPct
    {
      PrefixSumMonotone(tau, a + 1, b + 1);
    }
  }

  /** Ratios that are the eigenvalues over their total add up to one. */
  lemma {:induction false} RatiosSumToOne(f: FittedPca)
    requires RatiosOfAllComponents(f)
    ensures Sum(f.explainedVarianceRatio) == 1.0
  {
    var total := Sum(f.explainedVariance);
    SumOfRatios(f.explainedVarianceRatio, f.explainedVariance, total);
    assert total / total == 1.0;
  }

  /** With every component kept, the last cumulative percentage is 100. */
  lemma {:induction false} LastCumulativeIsHundred(f: FittedPca)
    requires RatiosOfAllComponents(f) && |f.explainedVariance| > 0
    ensures var rows := EigenvalueTable(f.explainedVariance, f.explainedVarianceRatio);
            rows[|rows| - 1].cumulPct == 100.0
  {
    RatiosSumToOne(f);
    var tau := f.explainedVarianceRatio;
    assert tau[..|tau|] == tau;
  }

  // ---------------------------------------------------------------------
  //  Kaiser rule
  // ---------------------------------------------------------------------

  /** `np.sum(explained_variance_ > 1)`. */
  function KaiserCount(lambda: seq<real>): (n: nat)
    ensures n <= |lambda|
  {
    if lambda == [] then 0
    else KaiserCount(lambda[..|lambda| - 1]) + (if lambda[|lambda| - 1] > 1.0 then 1 else 0)
  }

  /** The count is the number of positions whose eigenvalue exceeds 1
      strictly. */
  lemma {:induction false} KaiserCountCardinality(lambda: seq<real>)
    ensures KaiserCount(lambda) == |set k | 0 <= k < |lambda| && lambda[k] > 1.0|
  {
    if lambda != [] {
      var n := |lambda| - 1;
      var front := lambda[..n];
      KaiserCountCardinality(front);
      var below := set k | 0 <= k < n && front[k] > 1.0;
      var all := set k | 0 <= k < |lambda| && lambda[k] > 1.0;
      if lambda[n] > 1.0 {
        assert all == below + {n};
      } else {
        assert all == below;
      }
    }
  }

  /** On eigenvalues in descending order the retained components are a
      prefix: position k is counted exactly when k is below the count. An
      eigenvalue equal to 1 is not counted. */
  lemma {:induction false} KaiserCountIsPrefix(lambda: seq<real>)
    requires Descending(lambda)
    ensures forall k :: 0 <= k < |lambda| ==> (lambda[k] > 1.0 <==> k < KaiserCount(lambda))
  {
    if lambda != [] {
      var n := |lambda| - 1;
      var front := lambda[..n];
      assert Descending(front);
      KaiserCountIsPrefix(front);
      if lambda[n] > 1.0 {
        assert forall k :: 0 <= k < n ==> front[k] >= lambda[n];
      } else {
        assert forall k :: 0 <= k < n ==> front[k] == lambda[k];
      }
    }
  }

  // ---------------------------------------------------------------------
  //  Cumulative-variance threshold rule
  // ---------------------------------------------------------------------

  /** Position of the first true entry, or |bs| when there is none. */
  function FirstTrue(bs: seq<bool>): (k: nat)
    ensures k <= |bs|
    ensures k < |bs| ==> bs[k]
    ensures forall i :: 0 <= i < k ==> !bs[i]
  {
    if bs == [] then 0 else if bs[0] then 0 else 1 + FirstTrue(bs[1..])
  }

  /** `np.argmax` of a boolean vector: the first position holding the
      maximum, hence the first True, or 0 when every entry is False. */
  function ArgMaxBool(bs: seq<bool>): (k: nat)
    requires |bs| > 0
    ensures k < |bs|
    ensures (exists i :: 0 <= i < |bs| && bs[i]) ==> bs[k] && forall i :: 0 <= i < k ==> !bs[i]
    ensures (forall i :: 0 <= i < |bs| ==> !bs[i]) ==> k == 0
  {
    var f := FirstTrue(bs);
    if f < |bs| then f else 0
  }

  /** `argmax(cumsum(tau) >= seuil) + 1`: the smallest number of leading
      components whose shares reach the threshold; when no prefix reaches
      it the rule as written answers 1. */
  function VarianceThreshold(tau: seq<real>, seuil: real): (n: nat)
    requires |tau| > 0
    ensures 1 <= n <= |tau|
    ensures (exists K :: 1 <= K <= |tau| && Sum(tau[..K]) >= seuil) ==>
              Sum(tau[..n]) >= seuil && forall K :: 1 <= K < n ==> Sum(tau[..K]) < seuil
    ensures (forall K :: 1 <= K <= |tau| ==> Sum(tau[..K]) < seuil) ==> n == 1
  {
    var cumul := Cumsum(tau);
    var reached := seq(|tau|, k requires 0 <= k < |tau| => cumul[k] >= seuil);
    assert forall K :: 1 <= K <= |tau| ==> (reached[K - 1] <==> Sum(tau[..K]) >= seuil);
    ArgMaxBool(reached) + 1
  }

  /** With every component kept, any threshold up to 1 is reached, so the
      all-False fallback of the rule is never taken. */
  lemma {:induction false} ThresholdReachedWhenAllKept(f: FittedPca, seuil: real)
    requires RatiosOfAllComponents(f) && |f.explainedVariance| > 0 && seuil <= 1.0
    ensures var tau := f.explainedVarianceRatio;
            var n := VarianceThreshold(tau, seuil);
            Sum(tau[..n]) >= seuil && forall K :: 1 <= K < n ==> Sum(tau[..K]) < seuil
  {
    var tau := f.explainedVarianceRatio;
    RatiosSumToOne(f);
    assert tau[..|tau|] == tau;
  }

  // ---------------------------------------------------------------------
  //  Loadings and communalities
  // ---------------------------------------------------------------------

  /** `components_.T * sqrt(explained_variance_)`: one row per variable,
      one column per component. */
  function LoadingMatrix(f: FittedPca, p: nat): (L: seq<seq<real>>)
    requires Conforms(f, p)
    ensures |L| == p
    ensures forall j :: 0 <= j < p ==> |L[j]| == |f.explainedVariance|
    ensures forall j, k :: 0 <= j < p && 0 <= k < |f.explainedVariance| ==>
              L[j][k] == f.components[k][j] * f.sqrtVariance[k]
  {
    var m := |f.explainedVariance|;
    seq(p, j requires 0 <= j < p =>
      seq(m, k requires 0 <= k < m => f.components[k][j] * f.sqrtVariance[k]))
  }

  /** A loading carries the sign of the eigenvector entry and its square is
      that entry squared times the eigenvalue. */
  lemma {:induction false} LoadingSquare(f: FittedPca, p: nat, j: nat, k: nat)
    requires Conforms(f, p) && j < p && k < |f.explainedVariance|
    ensures var l := LoadingMatrix(f, p)[j][k];
            var v := f.components[k][j];
            l * l == v * v * f.explainedVariance[k] && l * v >= 0.0
  {
    var v := f.components[k][j];
    var s := f.sqrtVariance[k];
    assert LoadingMatrix(f, p)[j][k] == v * s;
    assert (v * s) * (v * s) == v * v * (s * s);
    assert v * v >= 0.0;
    assert (v * s) * v == (v * v) * s;
    assert (v * v) * s >= 0.0;
  }

  /** Sum of the squares of the first K entries of a row. */
  function SquaresUpTo(row: seq<real>, K: nat): (r: real)
    requires K <= |row|
    ensures r >= 0.0
  {
    if K == 0 then 0.0 else SquaresUpTo(row, K - 1) + row[K - 1] * row[K - 1]
  }

  /** `(L ** 2).sum(axis=1)`: each variable's communality. */
  function Communalities(f: FittedPca, p: nat): (h2: seq<real>)
    requires Conforms(f, p)
    ensures |h2| == p
    ensures forall j :: 0 <= j < p ==> h2[j] >= 0.0
  {
    var L := LoadingMatrix(f, p);
    seq(p, j requires 0 <= j < p => SquaresUpTo(L[j], |L[j]|))
  }

  /** Sum over the first K components of eigenvalue times the squared
      eigenvector entry for variable j: the communality without square
      roots. */
  function EigenWeightedUpTo(f: FittedPca, p: nat, j: nat, K: nat): real
    requires Conforms(f, p) && j < p && K <= |f.explainedVariance|
  {
    if K == 0 then 0.0
    else EigenWeightedUpTo(f, p, j, K - 1)
         + f.components[K - 1][j] * f.components[K - 1][j] * f.explainedVariance[K - 1]
  }

  /** h2_j = sum over k of lambda_k v_jk^2: the communality does not depend
      on which square roots were taken. */
  lemma {:induction false} CommunalityFromEigenvalues(f: FittedPca, p: nat, j: nat)
    requires Conforms(f, p) && j < p
    ensures Communalities(f, p)[j] == EigenWeightedUpTo(f, p, j, |f.explainedVariance|)
  {
    var row := LoadingMatrix(f, p)[j];
    forall k | 0 <= k < |f.explainedVariance|
      ensures row[k] * row[k] == f.components[k][j] * f.components[k][j] * f.explainedVariance[k]
    {
      LoadingSquare(f, p, j, k);
    }
    WeightedPrefix(f, p, j, row, |f.explainedVariance|);
  }

  /** Over the first K components, a row whose squares are the
      eigenvalue-weighted squared entries of variable j has the same sum
      of squares. */
  lemma {:induction false} WeightedPrefix(f: FittedPca, p: nat, j: nat, row: seq<real>, K: nat)
    requires Conforms(f, p) && j < p && K <= |f.explainedVariance| == |row|
    requires forall k :: 0 <= k < |row| ==>
               row[k] * row[k] == f.components[k][j] * f.components[k][j] * f.explainedVariance[k]
    ensures SquaresUpTo(row, K) == EigenWeightedUpTo(f, p, j, K)
  {
    if K > 0 {
      WeightedPrefix(f, p, j, row, K - 1);
    }
  }

  // ---------------------------------------------------------------------
  //  Dominant variables per component
  // ---------------------------------------------------------------------

  /** One entry of the reading: the top variables with their signed
      loadings, in decreasing absolute value, and the component's share
      of variance in percent. */
  datatype Reading = Reading(variablesDominantes: seq<(string, real)>, varianceExpliquee: real)

  /** How many rows pandas' `head(n)` keeps out of len: the first n, or
      for negative n all but the last |n|. */
  function HeadCount(len: nat, n: int): (c: nat)
    ensures c <= len
    ensures n >= 0 ==> c == Min(n, len)
    ensures n < 0 ==> c + Min(-n, len) == len
  {
    if n >= 0 then Min(n, len) else if len + n >= 0 then len + n else 0
  }

  /** No element occurs twice: variable names, or selected positions. */
  predicate Distinct<T(==)>(s: seq<T>)
  {
    forall a, b :: 0 <= a < b < |s| ==> s[a] != s[b]
  }

  /** Position in cands of the first candidate whose entry of col is
      largest in absolute value. */
  function MaxAbsPos(col: seq<real>, cands: seq<nat>): (i: nat)
    requires |cands| > 0
    requires forall t :: 0 <= t < |cands| ==> cands[t] < |col|
    ensures i < |cands|
    ensures forall t :: 0 <= t < |cands| ==> Abs(col[cands[t]]) <= Abs(col[cands[i]])
  {
    if |cands| == 1 then 0
    else
      var r := MaxAbsPos(col, cands[1..]);
      if Abs(col[cands[0]]) >= Abs(col[cands[1 + r]]) then 0 else 1 + r
  }

  /** `col.abs().sort_values(ascending=False).head(count).index`: the
      candidates of largest absolute value, largest first (among equal
      absolute values the earlier candidate first). It lists candidates
      only, distinct ones when they are, in decreasing absolute value, and
      none of them is below a candidate left out. */
  function TopByAbs(col: seq<real>, cands: seq<nat>, count: nat): (top: seq<nat>)
    requires forall t :: 0 <= t < |cands| ==> cands[t] < |col|
    ensures |top| == Min(count, |cands|)
    ensures forall t :: 0 <= t < |top| ==> top[t] in cands && top[t] < |col|
    ensures Distinct(cands) ==> Distinct(top)
    ensures forall t, u :: 0 <= t <= u < |top| ==> Abs(col[top[t]]) >= Abs(col[top[u]])
    ensures forall t, c :: 0 <= t < |top| && c in cands && c !in top ==> Abs(col[top[t]]) >= Abs(col[c])
    decreases count
  {
    if count == 0 || cands == [] then []
    else
      var i := MaxAbsPos(col, cands);
      var rest := Without(cands, i);
      var tail := TopByAbs(col, rest, count - 1);
      MaxAbsPosBoundsAll(col, cands);
      ConsSelection(col, cands, i, rest, tail, count);
      [cands[i]] + tail
  }

  /** The largest candidate in front of a selection of count - 1 from the
      others is a selection of count from all of them. */
  lemma ConsSelection(col: seq<real>, cands: seq<nat>, i: nat, rest: seq<nat>, tail: seq<nat>, count: nat)
    requires i < |cands| && count > 0
    requires forall t :: 0 <= t < |cands| ==> cands[t] < |col|
    requires forall x :: x in cands ==> Abs(col[x]) <= Abs(col[cands[i]])
    requires |rest| == |cands| - 1
    requires forall x :: x in rest ==> x in cands
    requires forall x :: x in cands && x != cands[i] ==> x in rest
    requires Distinct(cands) ==> Distinct(rest) && cands[i] !in rest
    requires |tail| == Min(count - 1, |rest|)
    requires forall t :: 0 <= t < |tail| ==> tail[t] in rest && tail[t] < |col|
    requires Distinct(rest) ==> Distinct(tail)
    requires forall t, u :: 0 <= t <= u < |tail| ==> Abs(col[tail[t]]) >= Abs(col[tail[u]])
    requires forall t, c :: 0 <= t < |tail| && c in rest && c !in tail ==> Abs(col[tail[t]]) >= Abs(col[c])
    ensures |[cands[i]] + tail| == Min(count, |cands|)
    ensures forall t :: 0 <= t < |tail| + 1 ==> ([cands[i]] + tail)[t] in cands && ([cands[i]] + tail)[t] < |col|
    ensures Distinct(cands) ==> Distinct([cands[i]] + tail)
    ensures forall t, u :: 0 <= t <= u < |tail| + 1 ==>
              Abs(col[([cands[i]] + tail)[t]]) >= Abs(col[([cands[i]] + tail)[u]])
    ensures forall t, c :: 0 <= t < |tail| + 1 && c in cands && c !in [cands[i]] + tail ==>
              Abs(col[([cands[i]] + tail)[t]]) >= Abs(col[c])
  {
    ConsWithin(cands[i], tail, rest, cands);
    ConsOrdered(col, cands[i], tail, rest);
    ConsDominates(col, cands[i], tail, rest, cands);
  }

  /** The candidates with the one at position i taken out. */
  function Without(cands: seq<nat>, i: nat): (rest: seq<nat>)
    requires i < |cands|
    ensures |rest| == |cands| - 1
    ensures forall x :: x in rest ==> x in cands
    ensures forall x :: x in cands && x != cands[i] ==> x in rest
    ensures Distinct(cands) ==> Distinct(rest) && cands[i] !in rest
  {
    var rest := cands[..i] + cands[i + 1..];
    assert forall t :: 0 <= t < |rest| ==> rest[t] == if t < i then cands[t] else cands[t + 1];
    assert forall x :: x in cands && x != cands[i] ==> x in rest by {
      forall x | x in cands && x != cands[i]
        ensures x in rest
      {
        var t :| 0 <= t < |cands| && cands[t] == x;
        if t < i { assert rest[t] == x; } else { assert rest[t - 1] == x; }
      }
    }
    rest
  }

  /** Every candidate is at most the one MaxAbsPos picks. */
  lemma MaxAbsPosBoundsAll(col: seq<real>, cands: seq<nat>)
    requires |cands| > 0
    requires forall t :: 0 <= t < |cands| ==> cands[t] < |col|
    ensures forall x :: x in cands ==> Abs(col[x]) <= Abs(col[cands[MaxAbsPos(col, cands)]])
  {
    var i := MaxAbsPos(col, cands);
    forall x | x in cands
      ensures Abs(col[x]) <= Abs(col[cands[i]])
    {
      var q :| 0 <= q < |cands| && cands[q] == x;
    }
  }

  /** A candidate put in front of a selection from the other candidates:
      still candidates only, and distinct when the selection was and the
      head is not among the others. */
  lemma ConsWithin(h: nat, tail: seq<nat>, rest: seq<nat>, cands: seq<nat>)
    requires h in cands
    requires forall x :: x in rest ==> x in cands
    requires forall t :: 0 <= t < |tail| ==> tail[t] in rest
    ensures forall t :: 0 <= t < |tail| + 1 ==> ([h] + tail)[t] in cands
    ensures h !in rest && Distinct(tail) ==> Distinct([h] + tail)
  {
    var top := [h] + tail;
    forall t | 0 <= t < |top|
      ensures top[t] in cands
    {
      if t > 0 {
        assert top[t] == tail[t - 1];
      }
    }
    if h !in rest && Distinct(tail) {
      forall a, b | 0 <= a < b < |top|
        ensures top[a] != top[b]
      {
        assert top[b] == tail[b - 1];
        if a > 0 {
          assert top[a] == tail[a - 1];
        }
      }
    }
  }

  /** A head at least as large as every candidate, in front of an ordered
      selection from those candidates, is ordered. */
  lemma ConsOrdered(col: seq<real>, h: nat, tail: seq<nat>, cands: seq<nat>)
    requires h < |col| && forall t :: 0 <= t < |tail| ==> tail[t] < |col|
    requires forall x :: x in cands ==> x < |col| && Abs(col[x]) <= Abs(col[h])
    requires forall t :: 0 <= t < |tail| ==> tail[t] in cands
    requires forall t, u :: 0 <= t <= u < |tail| ==> Abs(col[tail[t]]) >= Abs(col[tail[u]])
    ensures forall t, u :: 0 <= t <= u < |tail| + 1 ==>
              Abs(col[([h] + tail)[t]]) >= Abs(col[([h] + tail)[u]])
  {
    var top := [h] + tail;
    forall t, u | 0 <= t <= u < |top|
      ensures Abs(col[top[t]]) >= Abs(col[top[u]])
    {
      if t > 0 {
        assert top[t] == tail[t - 1] && top[u] == tail[u - 1];
      } else if u > 0 {
        assert top[u] == tail[u - 1];
      }
    }
  }

  /** A head at least as large as every candidate, in front of a selection
      from the others that dominates what it leaves out, dominates what
      the whole leaves out. */
  lemma ConsDominates(col: seq<real>, h: nat, tail: seq<nat>, rest: seq<nat>, cands: seq<nat>)
    requires h < |col| && forall t :: 0 <= t < |tail| ==> tail[t] < |col|
    requires forall x :: x in cands ==> x < |col| && Abs(col[x]) <= Abs(col[h])
    requires forall x :: x in rest ==> x < |col|
    requires forall x :: x in cands && x != h ==> x in rest
    requires forall t, c :: 0 <= t < |tail| && c in rest && c !in tail ==> Abs(col[tail[t]]) >= Abs(col[c])
    ensures forall t, c :: 0 <= t < |tail| + 1 && c in cands && c !in [h] + tail ==>
              Abs(col[([h] + tail)[t]]) >= Abs(col[c])
  {
    var top := [h] + tail;
    forall t, c | 0 <= t < |top| && c in cands && c !in top
      ensures Abs(col[top[t]]) >= Abs(col[c])
    {
      assert top[0] == h;
      if t > 0 {
        assert top[t] == tail[t - 1];
      }
    }
  }

  function Indices(n: nat): (s: seq<nat>)
    ensures |s| == n && Distinct(s)
    ensures forall t :: 0 <= t < n ==> s[t] == t
  {
    seq(n, t requires 0 <= t < n => t)
  }

  /** Column k of a loading matrix. */
  function ColumnOf(L: seq<seq<real>>, k: nat): (col: seq<real>)
    requires forall j :: 0 <= j < |L| ==> k < |L[j]|
    ensures |col| == |L| && forall j :: 0 <= j < |L| ==> col[j] == L[j][k]
  {
    seq(|L|, j requires 0 <= j < |L| => L[j][k])
  }

  /** The entry is some variable's name paired with its own loading on
      component k. */
  ghost predicate EntryOfVariable(L: seq<seq<real>>, names: seq<string>, k: nat, e: (string, real))
  {
    exists j :: 0 <= j < |L| && j < |names| && k < |L[j]| && e == (names[j], L[j][k])
  }

  function NamesOf(d: seq<(string, real)>): (s: seq<string>)
    ensures |s| == |d| && forall t :: 0 <= t < |d| ==> s[t] == d[t].0
  {
    seq(|d|, t requires 0 <= t < |d| => d[t].0)
  }

  /** The reading of component k: HeadCount(p, nTop) distinct variables,
      each with its own signed loading on component k, ordered by
      decreasing absolute loading, none of them below a variable left out;
      and the component's share of variance in percent. */
  function ComponentReading(L: seq<seq<real>>, names: seq<string>, tau: seq<real>, k: nat, nTop: int): (r: Reading)
    requires |names| == |L| && k < |tau| && Distinct(names)
    requires forall j :: 0 <= j < |L| ==> |L[j]| == |tau|
    ensures |r.variablesDominantes| == HeadCount(|L|, nTop)
    ensures r.varianceExpliquee == tau[k] * 100.0
    ensures forall t :: 0 <= t < |r.variablesDominantes| ==> EntryOfVariable(L, names, k, r.variablesDominantes[t])
    ensures Distinct(NamesOf(r.variablesDominantes))
    ensures forall t, u :: 0 <= t <= u < |r.variablesDominantes| ==>
              Abs(r.variablesDominantes[t].1) >= Abs(r.variablesDominantes[u].1)
    ensures forall t, j ::
              0 <= t < |r.variablesDominantes| && 0 <= j < |L| && names[j] !in NamesOf(r.variablesDominantes)
              ==> Abs(r.variablesDominantes[t].1) >= Abs(L[j][k])
  {
    var col := ColumnOf(L, k);
    var cands := Indices(|L|);
    var top := TopByAbs(col, cands, HeadCount(|L|, nTop));
    var d := seq(|top|, t requires 0 <= t < |top| => (names[top[t]], L[top[t]][k]));
    ReadingFacts(L, names, k, col, cands, top, d);
    Reading(d, tau[k] * 100.0)
  }

  /** Carries the facts about the selected indices over to the named
      entries of a reading. */
  lemma ReadingFacts(L: seq<seq<real>>, names: seq<string>, k: nat,
                     col: seq<real>, cands: seq<nat>, top: seq<nat>, d: seq<(string, real)>)
    requires |names| == |L| && Distinct(names)
    requires forall j :: 0 <= j < |L| ==> k < |L[j]|
    requires col == ColumnOf(L, k) && cands == Indices(|L|)
    requires forall t :: 0 <= t < |top| ==> top[t] < |L|
    requires Distinct(top)
    requires forall t, u :: 0 <= t <= u < |top| ==> Abs(col[top[t]]) >= Abs(col[top[u]])
    requires forall t, c :: 0 <= t < |top| && c in cands && c !in top ==> Abs(col[top[t]]) >= Abs(col[c])
    requires |d| == |top| && forall t :: 0 <= t < |top| ==> d[t] == (names[top[t]], L[top[t]][k])
    ensures forall t :: 0 <= t < |d| ==> EntryOfVariable(L, names, k, d[t])
    ensures Distinct(NamesOf(d))
    ensures forall t, u :: 0 <= t <= u < |d| ==> Abs(d[t].1) >= Abs(d[u].1)
    ensures forall t, j :: 0 <= t < |d| && 0 <= j < |L| && names[j] !in NamesOf(d) ==> Abs(d[t].1) >= Abs(L[j][k])
  {
    forall t | 0 <= t < |d|
      ensures EntryOfVariable(L, names, k, d[t])
    {
      var j := top[t];
      assert 0 <= j < |L| && d[t] == (names[j], L[j][k]);
    }
    forall t, j | 0 <= t < |d| && 0 <= j < |L| && names[j] !in NamesOf(d)
      ensures Abs(d[t].1) >= Abs(L[j][k])
    {
      assert cands[j] == j;
      assert j !in top;
      assert col[top[t]] == L[top[t]][k];
    }
  }

  /** The readings of the first five components (fewer when there are
      fewer), in component order. */
  function Readings(L: seq<seq<real>>, names: seq<string>, tau: seq<real>, nTop: int): (rs: seq<Reading>)
    requires |names| == |L| && Distinct(names)
    requires forall j :: 0 <= j < |L| ==> |L[j]| == |tau|
    ensures |rs| == Min(5, |tau|)
    ensures forall k :: 0 <= k < |rs| ==> rs[k] == ComponentReading(L, names, tau, k, nTop)
  {
    var m := Min(5, |tau|);
    seq(m, k requires 0 <= k < m => ComponentReading(L, names, tau, k, nTop))
  }

  /** The interpretation is keyed by CP1..CPm, m = min(5, number of
      components), and each name maps to its own component's reading. */
  lemma InterpretationKeyed(L: seq<seq<real>>, names: seq<string>, tau: seq<real>, nTop: int)
    requires |names| == |L| && Distinct(names)
    requires forall j :: 0 <= j < |L| ==> |L[j]| == |tau|
    ensures KeyedByComponent(Readings(L, names, tau, nTop), Min(5, |tau|)).Keys
            == set k | 0 <= k < Min(5, |tau|) :: ComponentLabel(k)
    ensures forall k :: 0 <= k < Min(5, |tau|) ==>
              KeyedByComponent(Readings(L, names, tau, nTop), Min(5, |tau|))[ComponentLabel(k)]
              == ComponentReading(L, names, tau, k, nTop)
  {
    KeyedByComponentFacts(Readings(L, names, tau, nTop), Min(5, |tau|));
  }

  /** The loop of `interpreter`: one reading per component among the
      first five, keyed by the component's name. */
  method Interpret(L: seq<seq<real>>, names: seq<string>, tau: seq<real>, nTop: int)
    returns (interp: map<string, Reading>)
    requires |names| == |L| && Distinct(names)
    requires forall j :: 0 <= j < |L| ==> |L[j]| == |tau|
    ensures interp == KeyedByComponent(Readings(L, names, tau, nTop), Min(5, |tau|))
  {
    var m := Min(5, |tau|);
    ghost var readings := Readings(L, names, tau, nTop);
    interp := map[];
    for i := 0 to m
      invariant interp == KeyedByComponent(readings, i)
    {
      var r := ComponentReading(L, names, tau, i, nTop);
      assert r == readings[i];
      interp := interp[ComponentLabel(i) := r];
    }
  }

  class AnalyseAcp {
    var nComposantes: Option<nat>
    var pca: Option<FittedPca>
    var nomsVariables: Option<seq<string>>
    var resultats: map<string, Frame>

    /** A model has been fitted over the recorded variables. */
    ghost predicate Fitted()
      reads this`pca, this`nomsVariables
    {
      pca.Some? && nomsVariables.Some?
      && Conforms(pca.value, |nomsVariables.value|)
      && Distinct(nomsVariables.value)
    }

    constructor (nComposantes: Option<nat> := None)
      ensures this.nComposantes == nComposantes
      ensures pca == None && nomsVariables == None && resultats == map[]
    {
      this.nComposantes := nComposantes;
      pca := None;
      nomsVariables := None;
      resultats := map[];
    }

    /** `ajuster`: keeps the column names of the data and the model fitted
        on it, which honours the requested number of components. */
    method Ajuster(names: seq<string>, fit: FittedPca)
      requires Conforms(fit, |names|) && Distinct(names)
      requires nComposantes.Some? ==> |fit.explainedVariance| == nComposantes.value
      modifies this`pca, this`nomsVariables
      ensures Fitted()
      ensures pca == Some(fit) && nomsVariables == Some(names)
    {
      nomsVariables := Some(names);
      pca := Some(fit);
    }

    /** `transformer`: the projected scores under the columns CP1..CPm,
        one per retained component. */
    method Transformer(scores: seq<seq<real>>) returns (df: Frame)
      requires Fitted()
      requires forall i :: 0 <= i < |scores| ==> |scores[i]| == |pca.value.explainedVariance|
      ensures df == ScoreFrame(ComponentLabels(|pca.value.explainedVariance|), scores)
    {
      df := ScoreFrame(ComponentLabels(|pca.value.explainedVariance|), scores);
    }

    /** `ajuster_transformer`: fit, then project. */
    method AjusterTransformer(names: seq<string>, fit: FittedPca, scores: seq<seq<real>>) returns (df: Frame)
      requires Conforms(fit, |names|) && Distinct(names)
      requires nComposantes.Some? ==> |fit.explainedVariance| == nComposantes.value
      requires forall i :: 0 <= i < |scores| ==> |scores[i]| == |fit.explainedVariance|
      modifies this`pca, this`nomsVariables
      ensures Fitted() && pca == Some(fit) && nomsVariables == Some(names)
      ensures df == ScoreFrame(ComponentLabels(|fit.explainedVariance|), scores)
    {
      Ajuster(names, fit);
      df := Transformer(scores);
    }

    /** `valeurs_propres`: the eigenvalue table, stored under its key. */
    method ValeursPropres() returns (rows: seq<EigenRow>)
      requires Fitted()
      modifies this`resultats
      ensures rows == EigenvalueTable(pca.value.explainedVariance, pca.value.explainedVarianceRatio)
      ensures resultats == old(resultats)[KeyValeursPropres := EigenvalueFrame(rows)]
    {
      rows := EigenvalueTable(pca.value.explainedVariance, pca.value.explainedVarianceRatio);
      resultats := resultats[KeyValeursPropres := EigenvalueFrame(rows)];
    }

    /** The loading frame of the current fit. */
    ghost function LoadingFrameOf(): Frame
      reads this`pca, this`nomsVariables
      requires Fitted()
    {
      LoadingFrame(nomsVariables.value, ComponentLabels(|pca.value.explainedVariance|),
                   LoadingMatrix(pca.value, |nomsVariables.value|))
    }

    /** `loadings`: rows are the variables in order, columns CP1..CPm;
        stored under its key. */
    method Loadings() returns (df: Frame)
      requires Fitted()
      modifies this`resultats
      ensures df == LoadingFrameOf()
      ensures resultats == old(resultats)[KeyLoadings := df]
    {
      var names := nomsVariables.value;
      df := LoadingFrame(names, ComponentLabels(|pca.value.explainedVariance|), LoadingMatrix(pca.value, |names|));
      resultats := resultats[KeyLoadings := df];
    }

    /** `communalites`: one row per variable, in order, with its
        communality; recomputes and stores the loadings first, as the
        source does by calling `loadings`. */
    method Communalites() returns (rows: seq<CommunalityRow>)
      requires Fitted()
      modifies this`resultats
      ensures |rows| == |nomsVariables.value|
      ensures forall j :: 0 <= j < |rows| ==>
                rows[j].variable == nomsVariables.value[j]
                && rows[j].communalite == Communalities(pca.value, |rows|)[j]
                && rows[j].communalite == EigenWeightedUpTo(pca.value, |rows|, j, |pca.value.explainedVariance|)
      ensures resultats == old(resultats)[KeyLoadings := LoadingFrameOf()][KeyCommunalites := CommunalityFrame(rows)]
    {
      var L := Loadings();
      var names := nomsVariables.value;
      var h2 := Communalities(pca.value, |names|);
      forall j | 0 <= j < |names|
        ensures h2[j] == EigenWeightedUpTo(pca.value, |names|, j, |pca.value.explainedVariance|)
      {
        CommunalityFromEigenvalues(pca.value, |names|, j);
      }
      rows := seq(|names|, j requires 0 <= j < |names| => CommunalityRow(names[j], h2[j]));
      resultats := resultats[KeyCommunalites := CommunalityFrame(rows)];
    }

    /** `critere_kaiser`: the number of eigenvalues strictly above 1, which
        are the leading ones. */
    method CritereKaiser() returns (n: nat)
      requires Fitted()
      ensures n == |set k | 0 <= k < |pca.value.explainedVariance| && pca.value.explainedVariance[k] > 1.0|
      ensures forall k :: 0 <= k < |pca.value.explainedVariance| ==>
                (pca.value.explainedVariance[k] > 1.0 <==> k < n)
    {
      n := KaiserCount(pca.value.explainedVariance);
      KaiserCountCardinality(pca.value.explainedVariance);
      KaiserCountIsPrefix(pca.value.explainedVariance);
    }

    /** `seuil_variance`: the least number of leading components whose
        shares reach `seuil`, or 1 when none does. */
    method SeuilVariance(seuil: real := 0.8) returns (n: nat)
      requires Fitted()
      ensures n == VarianceThreshold(pca.value.explainedVarianceRatio, seuil)
    {
      n := VarianceThreshold(pca.value.explainedVarianceRatio, seuil);
    }

    /** `interpreter`: recomputes and stores the loadings, then reads the
        dominant variables of the first five components. */
    method Interpreter(nTop: int := 5) returns (interp: map<string, Reading>)
      requires Fitted()
      modifies this`resultats
      ensures resultats == old(resultats)[KeyLoadings := LoadingFrameOf()]
      ensures interp.Keys == set k | 0 <= k < Min(5, |pca.value.explainedVariance|) :: ComponentLabel(k)
      ensures forall k :: 0 <= k < Min(5, |pca.value.explainedVariance|) ==>
                interp[ComponentLabel(k)]
                == ComponentReading(LoadingMatrix(pca.value, |nomsVariables.value|), nomsVariables.value,
                                    pca.value.explainedVarianceRatio, k, nTop)
    {
      var L := Loadings();
      interp := Interpret(L.values, nomsVariables.value, pca.value.explainedVarianceRatio, nTop);
      InterpretationKeyed(L.values, nomsVariables.value, pca.value.explainedVarianceRatio, nTop);
    }
  }
}

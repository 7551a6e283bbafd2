/**
 The risk-coverage analysis of `analyze` in src/analyze_results.py: rank the
 records by score, keep the k most confident ones for k = 1..n, report the
 error rate among those kept, integrate the curve with the trapezoidal rule,
 and gather the summary metrics.
 */
module RankCurve {
  import opened Results
  import opened Grading

  /** An error label: 1 for an error (wrong or impossible), 0 for a correct answer. */
  type Label = n: nat | n <= 1

  /** One entry of the `scores` / `labels` arrays. */
  datatype Scored = Scored(score: real, errorLabel: Label)

  /** One point of the curve: fraction of questions answered, error rate among them. */
  datatype CurvePoint = CurvePoint(coverage: real, risk: real)

  /** The `metrics` dictionary. */
  datatype Metrics = Metrics(totalSamples: nat, baseErrorRate: real, rocAuc: real, aurc: real, answerableAcc: real)

  datatype Analysis = Analysis(curve: seq<CurvePoint>, metrics: Metrics)

  /** EmptyData: `sum(labels)/len(labels)` divides by zero.
      TooFewCurvePoints: the trapezoidal `auc` needs at least two points. */
  datatype AnalyzeError = EmptyData | TooFewCurvePoints

  predicate SortedByScore(ps: seq<Scored>) {
    forall i, j :: 0 <= i < j < |ps| ==> ps[i].score <= ps[j].score
  }

  /** Number of errors among the given entries. */
  function Errors(ps: seq<Scored>): (e: nat)
    ensures e <= |ps|
  {
    if ps == [] then 0 else Errors(ps[..|ps| - 1]) + ps[|ps| - 1].errorLabel
  }

  /* ---------------------------------------------------------------------
     Ranking by score (`np.argsort(scores)` then `labels[sorted_indices]`)
     --------------------------------------------------------------------- */

  /** Every element of a sequence holding `x` and the elements of `qs` is at
      least `b` when `x` and every element of `qs` are. */
  lemma LowerBoundOfUnion(b: real, x: Scored, qs: seq<Scored>, r: seq<Scored>)
    requires b <= x.score
    requires forall i :: 0 <= i < |qs| ==> b <= qs[i].score
    requires multiset(r) == multiset(qs) + multiset{x}
    ensures forall j :: 0 <= j < |r| ==> b <= r[j].score
  {
    forall j | 0 <= j < |r|
      ensures b <= r[j].score
    {
      assert r[j] in multiset(r);
      if r[j] != x {
        assert r[j] in multiset(qs);
        var m :| 0 <= m < |qs| && qs[m] == r[j];
      }
    }
  }

  function Insert(x: Scored, ps: seq<Scored>): (r: seq<Scored>)
    requires SortedByScore(ps)
    ensures SortedByScore(r)
    ensures multiset(r) == multiset(ps) + multiset{x}
  {
    if ps == [] || x.score <= ps[0].score then [x] + ps
    else
      var r' := Insert(x, ps[1..]);
      LowerBoundOfUnion(ps[0].score, x, ps[1..], r');
      ConsSorted(ps[0], r');
      assert ps == [ps[0]] + ps[1..];
      [ps[0]] + r'
  }

  /** An entry no greater than every entry of a sorted sequence may go in front of it. */
  lemma ConsSorted(y: Scored, r: seq<Scored>)
    requires SortedByScore(r)
    requires forall j :: 0 <= j < |r| ==> y.score <= r[j].score
    ensures SortedByScore([y] + r)
  {
    var s := [y] + r;
    forall i, j | 0 <= i < j < |s|
      ensures s[i].score <= s[j].score
    {
      assert s[j] == r[j - 1];
      if i > 0 {
        assert s[i] == r[i - 1];
      }
    }
  }

  /** Ascending by score. Entries with equal scores may come in any order in
      the source; this insertion sort fixes one such order. */
  function SortByScore(ps: seq<Scored>): (r: seq<Scored>)
    ensures SortedByScore(r)
    ensures multiset(r) == multiset(ps)
  {
    if ps == [] then []
    else
      assert ps == [ps[0]] + ps[1..];
      Insert(ps[0], SortByScore(ps[1..]))
  }

  /* ---------------------------------------------------------------------
     The curve
     --------------------------------------------------------------------- */

  predicate StrictlyIncreasingCoverage(curve: seq<CurvePoint>) {
    forall k :: 0 < k < |curve| ==> curve[k - 1].coverage < curve[k].coverage
  }

  predicate RisksInUnitInterval(curve: seq<CurvePoint>) {
    forall k :: 0 <= k < |curve| ==> 0.0 <= curve[k].risk <= 1.0
  }

  lemma ComplementFraction(n: nat)
    requires 0 < n
    ensures 1.0 - 1.0 / n as real == (n - 1) as real / n as real
  {
  }

  lemma CoverageStep(k: nat, n: nat)
    requires 0 < n
    ensures (k + 1) as real / n as real - k as real / n as real == 1.0 / n as real
    ensures k as real / n as real < (k + 1) as real / n as real
  {
  }

  /** The point after keeping the k lowest-score entries: coverage k/n,
      risk (errors among them)/k. */
  function PointAfter(ranked: seq<Scored>, k: nat): CurvePoint
    requires 0 < k <= |ranked|
  {
    CurvePoint(k as real / |ranked| as real, Errors(ranked[..k]) as real / k as real)
  }

  /** The reference curve: one point for each k = 1..n. */
  function RiskCoverage(ranked: seq<Scored>): seq<CurvePoint>
  {
    seq(|ranked|, k requires 0 <= k < |ranked| => PointAfter(ranked, k + 1))
  }

  lemma RiskCoverageLength(ranked: seq<Scored>)
    ensures |RiskCoverage(ranked)| == |ranked|
  {
  }

  /** Every risk of the curve lies in [0,1]. */
  lemma RiskCoverageRisks(ranked: seq<Scored>)
    ensures RisksInUnitInterval(RiskCoverage(ranked))
  {
    var curve := RiskCoverage(ranked);
    forall k | 0 <= k < |curve|
      ensures 0.0 <= curve[k].risk <= 1.0
    {
      assert curve[k] == PointAfter(ranked, k + 1);
      FractionInUnit(Errors(ranked[..k + 1]), k + 1);
    }
  }

  /** Coverage rises by exactly 1/n from one point to the next, from 1/n to 1. */
  lemma RiskCoverageCoverage(ranked: seq<Scored>)
    ensures StrictlyIncreasingCoverage(RiskCoverage(ranked))
    ensures forall k :: 0 < k < |ranked| ==>
      RiskCoverage(ranked)[k].coverage - RiskCoverage(ranked)[k - 1].coverage == 1.0 / |ranked| as real
    ensures |ranked| > 0 ==> RiskCoverage(ranked)[0].coverage == 1.0 / |ranked| as real
    ensures |ranked| > 0 ==> RiskCoverage(ranked)[|ranked| - 1].coverage == 1.0
  {
    var n := |ranked|;
    var curve := RiskCoverage(ranked);
    forall k | 0 < k < n
      ensures curve[k].coverage - curve[k - 1].coverage == 1.0 / n as real
      ensures curve[k - 1].coverage < curve[k].coverage
    {
      assert curve[k].coverage == (k + 1) as real / n as real;
      assert curve[k - 1].coverage == k as real / n as real;
      CoverageStep(k, n);
    }
    if n > 0 {
      assert curve[0].coverage == 1 as real / n as real;
      assert curve[n - 1].coverage == n as real / n as real;
      WholeFraction(n);
    }
  }

  /** The last point keeps every entry: coverage 1, risk the overall error fraction. */
  lemma RiskCoverageLast(ranked: seq<Scored>)
    requires |ranked| > 0
    ensures RiskCoverage(ranked)[|ranked| - 1] == CurvePoint(1.0, Errors(ranked) as real / |ranked| as real)
  {
    var n := |ranked|;
    var last := RiskCoverage(ranked)[n - 1];
    assert last == PointAfter(ranked, n);
    assert ranked[..n] == ranked;
    WholeFraction(n);
  }

  /** The loop of `analyze` (lines 87-107): running error total (`cumsum`)
      and one point per k. It computes the reference curve. */
  method RiskCoverageCurve(ranked: seq<Scored>) returns (curve: seq<CurvePoint>)
    ensures curve == RiskCoverage(ranked)
  {
    var n := |ranked|;
    var reference := RiskCoverage(ranked);
    curve := [];
    var errors := 0;
    var k := 1;
    while k <= n
      invariant 1 <= k <= n + 1
      invariant errors == Errors(ranked[..k - 1])
      invariant curve == reference[..k - 1]
    {
      assert ranked[..k][..k - 1] == ranked[..k - 1];
      errors := errors + ranked[k - 1].errorLabel;
      curve := curve + [CurvePoint(k as real / n as real, errors as real / k as real)];
      k := k + 1;
    }
    assert reference[..n] == reference;
  }

  /* ---------------------------------------------------------------------
     Area under the curve (`sklearn.metrics.auc`, the trapezoidal rule)
     --------------------------------------------------------------------- */

  /** `auc(coverages, risks)`. With coverage non-decreasing and risks in [0,1]
      the area lies between 0 and the width of the coverage range. */
  function Trapezoid(curve: seq<CurvePoint>): (area: real)
    ensures |curve| > 0 && NonDecreasingCoverage(curve) && RisksInUnitInterval(curve) ==>
              0.0 <= area <= curve[|curve| - 1].coverage - curve[0].coverage
  {
    if |curve| < 2 then 0.0
    else
      var rest := Trapezoid(curve[1..]);
      var area := (curve[1].coverage - curve[0].coverage) * (curve[0].risk + curve[1].risk) / 2.0 + rest;
      if NonDecreasingCoverage(curve) && RisksInUnitInterval(curve) then
        SuffixShape(curve);
        assert curve[1..][|curve| - 2] == curve[|curve| - 1];
        TrapezoidStep(curve[0].coverage, curve[1].coverage, curve[|curve| - 1].coverage,
                      curve[0].risk, curve[1].risk, rest, area);
        area
      else area
  }

  /** The same area when consecutive coverages are 1/n apart:
      the sum of (1/n)(r_k + r_{k+1})/2. */
  function UniformTrapezoid(curve: seq<CurvePoint>, n: nat): real
    requires n > 0
  {
    if |curve| < 2 then 0.0
    else (1.0 / n as real) * (curve[0].risk + curve[1].risk) / 2.0 + UniformTrapezoid(curve[1..], n)
  }

  predicate NonDecreasingCoverage(curve: seq<CurvePoint>) {
    forall k :: 0 < k < |curve| ==> curve[k - 1].coverage <= curve[k].coverage
  }

  /** One trapezoid of width c1 - c0 and heights in [0,1] added to an area
      bounded by the remaining width stays bounded by the whole width. */
  lemma TrapezoidStep(c0: real, c1: real, last: real, a: real, b: real, restArea: real, area: real)
    requires c0 <= c1
    requires 0.0 <= a <= 1.0 && 0.0 <= b <= 1.0
    requires 0.0 <= restArea <= last - c1
    requires area == (c1 - c0) * (a + b) / 2.0 + restArea
    ensures 0.0 <= area <= last - c0
  {
    var d, t := c1 - c0, a + b;
    ProductNonNegative(d, t);
    ProductNonNegative(d, 2.0 - t);
    assert d * (2.0 - t) == d * 2.0 - d * t;
    assert area == d * t / 2.0 + restArea;
  }

  lemma ProductNonNegative(x: real, y: real)
    requires 0.0 <= x && 0.0 <= y
    ensures 0.0 <= x * y
  {
  }

  /** Dropping the first point keeps coverage ordered and risks in [0,1]. */
  lemma SuffixShape(curve: seq<CurvePoint>)
    requires |curve| >= 1
    requires NonDecreasingCoverage(curve)
    requires RisksInUnitInterval(curve)
    ensures NonDecreasingCoverage(curve[1..])
    ensures RisksInUnitInterval(curve[1..])
  {
    var rest := curve[1..];
    forall k | 0 < k < |rest|
      ensures rest[k - 1].coverage <= rest[k].coverage
    {
      assert rest[k - 1] == curve[k] && rest[k] == curve[k + 1];
    }
    forall k | 0 <= k < |rest|
      ensures 0.0 <= rest[k].risk <= 1.0
    {
      assert rest[k] == curve[k + 1];
    }
  }

  /** The first trapezoid plus the area of the rest. */
  lemma TrapezoidCons(curve: seq<CurvePoint>)
    requires |curve| >= 2
    ensures Trapezoid(curve)
            == (curve[1].coverage - curve[0].coverage) * (curve[0].risk + curve[1].risk) / 2.0
               + Trapezoid(curve[1..])
  {
  }

  lemma AddEqual(t: real, u: real, x: real, y: real, tr: real, ur: real)
    requires t == x + tr && u == y + ur
    requires x == y && tr == ur
    ensures t == u
  {
  }

  lemma SameWidth(w: real, u: real, h: real)
    requires w == u
    ensures w * h / 2.0 == u * h / 2.0
  {
  }

  lemma UniformCons(curve: seq<CurvePoint>, n: nat)
    requires n > 0 && |curve| >= 2
    ensures UniformTrapezoid(curve, n)
            == (1.0 / n as real) * (curve[0].risk + curve[1].risk) / 2.0 + UniformTrapezoid(curve[1..], n)
  {
  }

  /** Consecutive coverages are 1/n apart, stated point by point from the front. */
  predicate UniformSteps(curve: seq<CurvePoint>, n: nat)
    requires n > 0
  {
    |curve| < 2 || (curve[1].coverage - curve[0].coverage == 1.0 / n as real && UniformSteps(curve[1..], n))
  }

  lemma {:induction false} UniformStepsOfSpacing(curve: seq<CurvePoint>, n: nat)
    requires n > 0
    requires forall k :: 0 < k < |curve| ==> curve[k].coverage - curve[k - 1].coverage == 1.0 / n as real
    ensures UniformSteps(curve, n)
  {
    if |curve| >= 2 {
      var rest := curve[1..];
      forall k | 0 < k < |rest|
        ensures rest[k].coverage - rest[k - 1].coverage == 1.0 / n as real
      {
        assert rest[k] == curve[k + 1] && rest[k - 1] == curve[k];
      }
      UniformStepsOfSpacing(rest, n);
    }
  }

  lemma {:induction false} TrapezoidUniform(curve: seq<CurvePoint>, n: nat)
    requires n > 0
    requires UniformSteps(curve, n)
    ensures Trapezoid(curve) == UniformTrapezoid(curve, n)
  {
    if |curve| >= 2 {
      var rest := curve[1..];
      TrapezoidUniform(rest, n);
      TrapezoidCons(curve);
      UniformCons(curve, n);
      SameWidth(curve[1].coverage - curve[0].coverage, 1.0 / n as real, curve[0].risk + curve[1].risk);
      AddEqual(Trapezoid(curve), UniformTrapezoid(curve, n),
               (curve[1].coverage - curve[0].coverage) * (curve[0].risk + curve[1].risk) / 2.0,
               (1.0 / n as real) * (curve[0].risk + curve[1].risk) / 2.0,
               Trapezoid(rest), UniformTrapezoid(rest, n));
    }
  }

  /** AURC of the rank curve, for n >= 2: the uniform trapezoid sum, in [0, (n-1)/n]. */
  lemma AurcOfRiskCoverage(ranked: seq<Scored>)
    requires |ranked| >= 2
    ensures Trapezoid(RiskCoverage(ranked)) == UniformTrapezoid(RiskCoverage(ranked), |ranked|)
    ensures 0.0 <= Trapezoid(RiskCoverage(ranked)) <= (|ranked| - 1) as real / |ranked| as real
  {
    var n := |ranked|;
    var curve := RiskCoverage(ranked);
    RiskCoverageCoverage(ranked);
    RiskCoverageRisks(ranked);
    UniformStepsOfSpacing(curve, n);
    TrapezoidUniform(curve, n);
    assert NonDecreasingCoverage(curve);
    assert curve[n - 1].coverage - curve[0].coverage == 1.0 - 1.0 / n as real;
    ComplementFraction(n);
  }

  /* ---------------------------------------------------------------------
     Independence of the order of equal scores
     --------------------------------------------------------------------- */

  lemma {:induction false} ErrorsAppend(u: seq<Scored>, v: seq<Scored>)
    ensures Errors(u + v) == Errors(u) + Errors(v)
    decreases |v|
  {
    if v == [] {
      assert u + v == u;
    } else {
      var w := u + v;
      var v' := v[..|v| - 1];
      assert w[..|w| - 1] == u + v';
      ErrorsAppend(u, v');
    }
  }

  /** Any reordering of the same entries has the same number of errors. */
  lemma {:induction false} ErrorsPermutation(a: seq<Scored>, b: seq<Scored>)
    requires multiset(a) == multiset(b)
    ensures Errors(a) == Errors(b)
    decreases |a|
  {
    if a == [] {
      assert |b| == |multiset(b)| == 0;
    } else {
      var n := |a|;
      var x := a[n - 1];
      var front := a[..n - 1];
      assert multiset(front) == multiset(a) - multiset{x} by {
        assert a == front + [x];
      }
      assert x in multiset(b);
      var j :| 0 <= j < |b| && b[j] == x;
      var rest := b[..j] + b[j + 1..];
      MultisetRemove(b, j);
      ErrorsRemove(b, j);
      ErrorsPermutation(front, rest);
    }
  }

  /** Removing the entry at j takes its label off the error count. */
  lemma ErrorsRemove(b: seq<Scored>, j: nat)
    requires j < |b|
    ensures Errors(b) == Errors(b[..j] + b[j + 1..]) + b[j].errorLabel
  {
    var x, front, back := b[j], b[..j], b[j + 1..];
    var tail := [x] + back;
    SplitAt(b, j);
    ErrorsAppend(front, tail);
    ErrorsAppend([x], back);
    ErrorsAppend(front, back);
    ErrorsSingleton(x);
  }

  lemma ErrorsSingleton(x: Scored)
    ensures Errors([x]) == x.errorLabel
  {
    assert [x][..0] == [];
  }

  /** A sequence is its part before j, its j-th entry and its part after j. */
  lemma SplitAt<T>(b: seq<T>, j: nat)
    requires j < |b|
    ensures b == b[..j] + ([b[j]] + b[j + 1..])
  {
    assert b[j..] == [b[j]] + b[j + 1..];
    assert b == b[..j] + b[j..];
  }

  /** Removing the entry at j removes one copy of it. */
  lemma MultisetRemove<T>(b: seq<T>, j: nat)
    requires j < |b|
    ensures multiset(b[..j] + b[j + 1..]) == multiset(b) - multiset{b[j]}
  {
    assert b == b[..j] + [b[j]] + b[j + 1..];
  }

  /** Whatever order `argsort` gives equal scores, the last point of the curve
      is coverage 1 with risk equal to the overall error fraction. */
  lemma FinalPointAnyRanking(ps: seq<Scored>, ranked: seq<Scored>)
    requires multiset(ranked) == multiset(ps)
    requires |ps| > 0
    ensures |RiskCoverage(ranked)| == |ps|
    ensures RiskCoverage(ranked)[|ps| - 1] == CurvePoint(1.0, Errors(ps) as real / |ps| as real)
  {
    PermutationLength(ranked, ps);
    ErrorsPermutation(ranked, ps);
    RiskCoverageLength(ranked);
    RiskCoverageLast(ranked);
  }

  /** Reordering keeps the length. */
  lemma PermutationLength(a: seq<Scored>, b: seq<Scored>)
    requires multiset(a) == multiset(b)
    ensures |a| == |b|
  {
    assert |a| == |multiset(a)|;
  }

  /* ---------------------------------------------------------------------
     ROC-AUC and the summary
     --------------------------------------------------------------------- */

  /** All labels are the same (`np.unique(labels)` has at most one element). */
  predicate SingleClass(labels: seq<nat>) {
    forall i :: 0 <= i < |labels| ==> labels[i] == labels[0]
  }

  /** The number of distinct labels exceeds one exactly when the labels are not all equal. */
  lemma DistinctLabels(labels: seq<nat>)
    ensures |set i | 0 <= i < |labels| :: labels[i]| > 1 <==> !SingleClass(labels)
  {
    var distinct := set i | 0 <= i < |labels| :: labels[i];
    if |labels| > 0 && !SingleClass(labels) {
      var i :| 0 <= i < |labels| && labels[i] != labels[0];
      assert {labels[0], labels[i]} <= distinct;
      assert |{labels[0], labels[i]}| == 2;
      assert |distinct| >= 2 by {
        assert distinct == {labels[0], labels[i]} + (distinct - {labels[0], labels[i]});
      }
    } else if |labels| > 0 {
      assert distinct == {labels[0]};
    } else {
      assert distinct == {};
    }
  }

  /** `roc_auc_score(labels, scores)` is a call into scikit-learn; its value is
      the parameter `classifierAuc`. Only the degenerate branch is modelled:
      `len(np.unique(labels)) > 1` decides which value is used. */
  function RocAuc(labels: seq<nat>, classifierAuc: real): (auc: real)
    ensures SingleClass(labels) ==> auc == 0.5
    ensures !SingleClass(labels) ==> auc == classifierAuc
  {
    DistinctLabels(labels);
    if |set i | 0 <= i < |labels| :: labels[i]| > 1 then classifierAuc else 0.5
  }

  /* ---------------------------------------------------------------------
     The analysis as a whole
     --------------------------------------------------------------------- */

  /** The `scores` and `labels` arrays of `analyze`, entry by entry. */
  function Graded(data: seq<Record>): (ps: seq<Scored>)
    ensures |ps| == |data|
  {
    seq(|data|, i requires 0 <= i < |data| => Scored(data[i].score, ErrorLabel(data[i])))
  }

  /** Every record gets the same error label. */
  ghost predicate AllSameLabel(data: seq<Record>) {
    forall i :: 0 <= i < |data| ==> ErrorLabel(data[i]) == ErrorLabel(data[0])
  }

  lemma {:induction false} ErrorsIsSum(ps: seq<Scored>, labels: seq<nat>)
    requires |ps| == |labels|
    requires forall i :: 0 <= i < |ps| ==> ps[i].errorLabel == labels[i]
    ensures Errors(ps) == Sum(labels)
  {
    if ps != [] {
      var n := |ps|;
      ErrorsIsSum(ps[..n - 1], labels[..n - 1]);
    }
  }

  /** The error rate if every question were answered: the fraction of records not graded correct. */
  ghost predicate BaseRateOf(data: seq<Record>, base: real) {
    && |data| > 0
    && base == (|data| - CorrectCount(data)) as real / |data| as real
    && 0.0 <= base <= 1.0
  }

  ghost predicate RocAucOf(data: seq<Record>, classifierAuc: real, rocAuc: real) {
    && (AllSameLabel(data) ==> rocAuc == 0.5)
    && (!AllSameLabel(data) ==> rocAuc == classifierAuc)
  }

  /** The curve: records ranked by score, one point per k, ending at the base error rate. */
  ghost predicate CurveOf(data: seq<Record>, c: seq<CurvePoint>, base: real) {
    var n := |data|;
    && n > 0
    && c == RiskCoverage(SortByScore(Graded(data)))
    && |c| == n
    && StrictlyIncreasingCoverage(c)
    && RisksInUnitInterval(c)
    && c[0].coverage == 1.0 / n as real
    && c[n - 1] == CurvePoint(1.0, base)
  }

  /** The trapezoidal area under an n-point curve. */
  ghost predicate AurcOf(c: seq<CurvePoint>, n: nat, aurc: real) {
    && n >= 2
    && aurc == Trapezoid(c)
    && aurc == UniformTrapezoid(c, n)
    && 0.0 <= aurc <= (n - 1) as real / n as real
  }

  /** Accuracy over answerable questions, 0 when there are none. */
  ghost predicate AccuracyOf(data: seq<Record>, acc: real) {
    var answerable := |data| - ImpossibleCount(data);
    && (answerable == 0 ==> acc == 0.0)
    && (answerable > 0 ==> acc == CorrectCount(data) as real / answerable as real)
    && 0.0 <= acc <= 1.0
  }

  /** What a successful analysis reports about `data`. */
  ghost predicate Summarizes(data: seq<Record>, classifierAuc: real, a: Analysis) {
    var m := a.metrics;
    && |data| >= 2
    && m.totalSamples == |data|
    && BaseRateOf(data, m.baseErrorRate)
    && RocAucOf(data, classifierAuc, m.rocAuc)
    && CurveOf(data, a.curve, m.baseErrorRate)
    && AurcOf(a.curve, |data|, m.aurc)
    && AccuracyOf(data, m.answerableAcc)
  }

  /** The computational part of `analyze`: grading, ROC-AUC, base error rate,
      the ranked risk-coverage curve, AURC and the metrics. */
  method Analyze(data: seq<Record>, classifierAuc: real) returns (result: Result<Analysis, AnalyzeError>)
    ensures |data| == 0 ==> result == Failure(EmptyData)
    ensures |data| == 1 ==> result == Failure(TooFewCurvePoints)
    ensures |data| >= 2 ==> result.Success? && Summarizes(data, classifierAuc, result.value)
  {
    var labels, counts := Tally(data);
    var rocAuc := RocAuc(labels, classifierAuc);
    RocFacts(data, labels, classifierAuc);
    var n := |data|;
    if n == 0 {
      return Failure(EmptyData);
    }
    var base := Sum(labels) as real / n as real;
    var scored := seq(n, i requires 0 <= i < n => Scored(data[i].score, labels[i]));
    GradedFromLabels(data, labels, scored);
    var ranked := SortByScore(scored);
    var curve := RiskCoverageCurve(ranked);
    if n < 2 {
      return Failure(TooFewCurvePoints);
    }
    var aurc := Trapezoid(curve);
    var acc := if counts.answerableTotal > 0
      then counts.answerableCorrect as real / counts.answerableTotal as real
      else 0.0;
    result := Success(Analysis(curve, Metrics(n, base, rocAuc, aurc, acc)));
    SummaryFacts(data, classifierAuc, labels, counts, ranked, result.value);
  }

  /** The metrics assembled by `Analyze` summarize the data. */
  lemma SummaryFacts(data: seq<Record>, classifierAuc: real, labels: seq<nat>, counts: Counts,
                     ranked: seq<Scored>, a: Analysis)
    requires |data| >= 2
    requires Sum(labels) + counts.answerableCorrect == |data|
    requires counts.impossibleTotal == ImpossibleCount(data)
    requires counts.answerableCorrect == CorrectCount(data)
    requires counts.answerableTotal + counts.impossibleTotal == |data|
    requires counts.answerableCorrect <= counts.answerableTotal
    requires Errors(Graded(data)) == Sum(labels)
    requires ranked == SortByScore(Graded(data))
    requires RocAucOf(data, classifierAuc, a.metrics.rocAuc)
    requires a.curve == RiskCoverage(ranked)
    requires a.metrics.totalSamples == |data|
    requires a.metrics.baseErrorRate == Sum(labels) as real / |data| as real
    requires a.metrics.aurc == Trapezoid(a.curve)
    requires a.metrics.answerableAcc == if counts.answerableTotal > 0
      then counts.answerableCorrect as real / counts.answerableTotal as real
      else 0.0
    ensures Summarizes(data, classifierAuc, a)
  {
    var m := a.metrics;
    BaseRateFacts(data, labels, m.baseErrorRate);
    CurveFacts(data, a.curve, m.baseErrorRate);
    AurcOfRiskCoverage(ranked);
    AccuracyFacts(data, counts, m.answerableAcc);
  }

  lemma RocFacts(data: seq<Record>, labels: seq<nat>, classifierAuc: real)
    requires |labels| == |data|
    requires forall i :: 0 <= i < |data| ==> labels[i] == ErrorLabel(data[i])
    ensures RocAucOf(data, classifierAuc, RocAuc(labels, classifierAuc))
  {
    assert SingleClass(labels) <==> AllSameLabel(data);
  }

  lemma GradedFromLabels(data: seq<Record>, labels: seq<nat>, scored: seq<Scored>)
    requires |labels| == |data| == |scored|
    requires forall i :: 0 <= i < |data| ==> labels[i] == ErrorLabel(data[i])
    requires forall i :: 0 <= i < |data| ==> scored[i].score == data[i].score && scored[i].errorLabel == labels[i]
    ensures scored == Graded(data)
    ensures Errors(scored) == Sum(labels)
  {
    ErrorsIsSum(scored, labels);
  }

  lemma AccuracyFacts(data: seq<Record>, counts: Counts, acc: real)
    requires counts.impossibleTotal == ImpossibleCount(data)
    requires counts.answerableCorrect == CorrectCount(data)
    requires counts.answerableTotal + counts.impossibleTotal == |data|
    requires counts.answerableCorrect <= counts.answerableTotal
    requires acc == if counts.answerableTotal > 0
      then counts.answerableCorrect as real / counts.answerableTotal as real
      else 0.0
    ensures AccuracyOf(data, acc)
  {
    if counts.answerableTotal > 0 {
      FractionInUnit(counts.answerableCorrect, counts.answerableTotal);
    }
  }

  lemma BaseRateFacts(data: seq<Record>, labels: seq<nat>, base: real)
    requires |data| > 0
    requires Sum(labels) + CorrectCount(data) == |data|
    requires base == Sum(labels) as real / |data| as real
    ensures BaseRateOf(data, base)
  {
    FractionInUnit(Sum(labels), |data|);
  }

  lemma CurveFacts(data: seq<Record>, curve: seq<CurvePoint>, base: real)
    requires |data| > 0
    requires curve == RiskCoverage(SortByScore(Graded(data)))
    requires base == Errors(Graded(data)) as real / |data| as real
    ensures CurveOf(data, curve, base)
  {
    var ps := Graded(data);
    var ranked := SortByScore(ps);
    FinalPointAnyRanking(ps, ranked);
    RiskCoverageCoverage(ranked);
    RiskCoverageRisks(ranked);
  }
}

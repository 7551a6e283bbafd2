/**
 The fixed-grid threshold sweep of `plot_results` in plot_results.py: for
 each of 100 evenly spaced thresholds t in [0,1], a question is answered
 when its score is at most t; coverage is the answered fraction and risk
 the fraction of answered questions that were impossible.
 */
module GridCurve {
  import opened Grading

  /** Number of thresholds of `np.linspace(0, 1, 100)`. */
  const GridSize: nat := 100

  /** The i-th threshold i/99, as an exact real. */
  function Threshold(i: nat): real
    requires i < GridSize
  {
    i as real / 99.0
  }

  /** `answered_indices`, as the records themselves: those with score <= t, in order. */
  function Answered(data: seq<Record>, t: real): (a: seq<Record>)
    ensures |a| <= |data|
    ensures forall i :: 0 <= i < |a| ==> a[i].score <= t
  {
    if data == [] then []
    else
      var n := |data|;
      Answered(data[..n - 1], t) + (if data[n - 1].score <= t then [data[n - 1]] else [])
  }

  /** `answered_indices` itself: the positions whose score is at most t. */
  function AnsweredIndices(data: seq<Record>, t: real): set<int>
  {
    set i | 0 <= i < |data| && data[i].score <= t
  }

  /** The answered positions holding an impossible question (`n_hallucinations`). */
  function HallucinatedIndices(data: seq<Record>, t: real): set<int>
  {
    set i | 0 <= i < |data| && data[i].score <= t && data[i].isImpossible
  }

  /** `coverage`: answered / total, and 0 for no data. */
  function Coverage(data: seq<Record>, t: real): (c: real)
    ensures 0.0 <= c <= 1.0
    ensures |data| == 0 ==> c == 0.0
    ensures |data| > 0 ==> c == |AnsweredIndices(data, t)| as real / |data| as real
  {
    var answered := Answered(data, t);
    AnsweredIndexCounts(data, t);
    if |data| > 0 then
      FractionInUnit(|answered|, |data|);
      |answered| as real / |data| as real
    else 0.0
  }

  /** `risk`: impossible questions among those answered, and 0 when nothing is answered. */
  function Risk(data: seq<Record>, t: real): (r: real)
    ensures 0.0 <= r <= 1.0
    ensures |AnsweredIndices(data, t)| == 0 ==> r == 0.0
    ensures |AnsweredIndices(data, t)| > 0 ==>
              r == |HallucinatedIndices(data, t)| as real / |AnsweredIndices(data, t)| as real
  {
    var answered := Answered(data, t);
    AnsweredIndexCounts(data, t);
    if |answered| == 0 then 0.0
    else
      FractionInUnit(ImpossibleCount(answered), |answered|);
      ImpossibleCount(answered) as real / |answered| as real
  }

  /** The answered records and their impossible ones are as many as the
      answered and hallucinated positions. */
  lemma {:induction false} AnsweredIndexCounts(data: seq<Record>, t: real)
    ensures |Answered(data, t)| == |AnsweredIndices(data, t)|
    ensures ImpossibleCount(Answered(data, t)) == |HallucinatedIndices(data, t)|
  {
    if data == [] {
      assert AnsweredIndices(data, t) == {};
      assert HallucinatedIndices(data, t) == {};
    } else {
      var n := |data|;
      var p, x := data[..n - 1], data[n - 1];
      var a := Answered(p, t);
      AnsweredIndexCounts(p, t);
      AnsweredIndicesSnoc(data, t);
      HallucinatedIndicesSnoc(data, t);
      if x.score <= t {
        assert (a + [x])[..|a|] == a;
      } else {
        assert a + [] == a;
      }
    }
  }

  /** The last position joins the answered positions of the shorter prefix
      exactly when it is answered. */
  lemma AnsweredIndicesSnoc(data: seq<Record>, t: real)
    requires |data| > 0
    ensures |AnsweredIndices(data, t)|
              == |AnsweredIndices(data[..|data| - 1], t)| + (if data[|data| - 1].score <= t then 1 else 0)
  {
    var n := |data|;
    var p, x := data[..n - 1], data[n - 1];
    var before := AnsweredIndices(p, t);
    if x.score <= t {
      assert AnsweredIndices(data, t) == before + {n - 1} by {
        forall i ensures i in AnsweredIndices(data, t) <==> i in before + {n - 1} {
          if 0 <= i < n - 1 {
            assert p[i] == data[i];
          }
        }
      }
      CardAddFresh(before, n - 1);
    } else {
      assert AnsweredIndices(data, t) == before by {
        forall i ensures i in AnsweredIndices(data, t) <==> i in before {
          if 0 <= i < n - 1 {
            assert p[i] == data[i];
          }
        }
      }
    }
  }

  /** The last position joins the hallucinated positions of the shorter
      prefix exactly when it is answered and impossible. */
  lemma HallucinatedIndicesSnoc(data: seq<Record>, t: real)
    requires |data| > 0
    ensures |HallucinatedIndices(data, t)|
              == |HallucinatedIndices(data[..|data| - 1], t)|
                 + (if data[|data| - 1].score <= t && data[|data| - 1].isImpossible then 1 else 0)
  {
    var n := |data|;
    var p, x := data[..n - 1], data[n - 1];
    var before := HallucinatedIndices(p, t);
    if x.score <= t && x.isImpossible {
      assert HallucinatedIndices(data, t) == before + {n - 1} by {
        forall i ensures i in HallucinatedIndices(data, t) <==> i in before + {n - 1} {
          if 0 <= i < n - 1 {
            assert p[i] == data[i];
          }
        }
      }
      CardAddFresh(before, n - 1);
    } else {
      assert HallucinatedIndices(data, t) == before by {
        forall i ensures i in HallucinatedIndices(data, t) <==> i in before {
          if 0 <= i < n - 1 {
            assert p[i] == data[i];
          }
        }
      }
    }
  }

  lemma CardAddFresh(s: set<int>, x: int)
    requires x !in s
    ensures |s + {x}| == |s| + 1
  {
  }

  /** The loop of `plot_results` (lines 30-51): one coverage and one risk per threshold. */
  method Sweep(data: seq<Record>) returns (coverages: seq<real>, risks: seq<real>)
    ensures |coverages| == GridSize && |risks| == GridSize
    ensures forall i :: 0 <= i < GridSize ==> coverages[i] == Coverage(data, Threshold(i))
    ensures forall i :: 0 <= i < GridSize ==> risks[i] == Risk(data, Threshold(i))
  {
    coverages, risks := [], [];
    var i := 0;
    while i < GridSize
      invariant 0 <= i <= GridSize
      invariant |coverages| == i && |risks| == i
      invariant forall j :: 0 <= j < i ==> coverages[j] == Coverage(data, Threshold(j))
      invariant forall j :: 0 <= j < i ==> risks[j] == Risk(data, Threshold(j))
    {
      var t := Threshold(i);
      var answered := Answered(data, t);
      var nAnswered := |answered|;
      var nTotal := |data|;
      var coverage := if nTotal > 0 then nAnswered as real / nTotal as real else 0.0;
      var risk := 0.0;
      if nAnswered != 0 {
        risk := ImpossibleCount(answered) as real / nAnswered as real;
      }
      coverages := coverages + [coverage];
      risks := risks + [risk];
      i := i + 1;
    }
  }

  /* ---------------------------------------------------------------------
     Properties of the sweep
     --------------------------------------------------------------------- */

  /** The thresholds run from 0 to 1 in strictly ascending order. */
  lemma ThresholdsAscending(i: nat, j: nat)
    requires i < j < GridSize
    ensures 0.0 <= Threshold(i) < Threshold(j) <= 1.0
    ensures Threshold(0) == 0.0 && Threshold(GridSize - 1) == 1.0
  {
  }

  /** The answered questions at t are exactly the records scoring at most t. */
  lemma {:induction false} AnsweredMembers(data: seq<Record>, t: real)
    ensures forall r :: r in Answered(data, t) <==> r in data && r.score <= t
  {
    if data != [] {
      var n := |data|;
      AnsweredMembers(data[..n - 1], t);
      assert data == data[..n - 1] + [data[n - 1]];
    }
  }

  /** Each record is answered as many times as it occurs in the data when its
      score is at most t, and not at all otherwise. */
  lemma {:induction false} AnsweredMultiplicity(data: seq<Record>, t: real, y: Record)
    ensures multiset(Answered(data, t))[y] == (if y.score <= t then multiset(data)[y] else 0)
  {
    if data != [] {
      var n := |data|;
      var p, x := data[..n - 1], data[n - 1];
      AnsweredMultiplicity(p, t, y);
      assert data == p + [x];
      assert multiset(data) == multiset(p) + multiset{x};
      assert Answered(data, t) == Answered(p, t) + (if x.score <= t then [x] else []);
    }
  }

  /** Raising the threshold can only add answered questions. */
  lemma {:induction false} AnsweredNested(data: seq<Record>, t1: real, t2: real)
    requires t1 <= t2
    ensures forall r :: r in Answered(data, t1) ==> r in Answered(data, t2)
    ensures |Answered(data, t1)| <= |Answered(data, t2)|
  {
    AnsweredMembers(data, t1);
    AnsweredMembers(data, t2);
    AnsweredCountMonotone(data, t1, t2);
  }

  lemma {:induction false} AnsweredCountMonotone(data: seq<Record>, t1: real, t2: real)
    requires t1 <= t2
    ensures |Answered(data, t1)| <= |Answered(data, t2)|
  {
    if data != [] {
      AnsweredCountMonotone(data[..|data| - 1], t1, t2);
    }
  }

  /** Coverage never decreases along the sweep. */
  lemma CoverageMonotone(data: seq<Record>, i: nat, j: nat)
    requires i <= j < GridSize
    ensures Coverage(data, Threshold(i)) <= Coverage(data, Threshold(j))
  {
    AnsweredNested(data, Threshold(i), Threshold(j));
    if |data| > 0 {
      DivMonotone(|Answered(data, Threshold(i))|, |Answered(data, Threshold(j))|, |data|);
    }
  }

  lemma DivMonotone(a: nat, b: nat, n: nat)
    requires a <= b && 0 < n
    ensures a as real / n as real <= b as real / n as real
  {
  }

  /** The sweep reads only scores and impossibility flags: records that agree
      on those give the same coverage and risk at every threshold, whatever
      their answers. */
  lemma SweepIgnoresAnswers(d1: seq<Record>, d2: seq<Record>, t: real)
    requires |d1| == |d2|
    requires forall i :: 0 <= i < |d1| ==> d1[i].score == d2[i].score && d1[i].isImpossible == d2[i].isImpossible
    ensures Coverage(d1, t) == Coverage(d2, t)
    ensures Risk(d1, t) == Risk(d2, t)
  {
    AnsweredAgree(d1, d2, t);
  }

  /** Records agreeing on score and flag yield answered sets of equal size and
      equal impossible count. */
  lemma {:induction false} AnsweredAgree(d1: seq<Record>, d2: seq<Record>, t: real)
    requires |d1| == |d2|
    requires forall i :: 0 <= i < |d1| ==> d1[i].score == d2[i].score && d1[i].isImpossible == d2[i].isImpossible
    ensures |Answered(d1, t)| == |Answered(d2, t)|
    ensures ImpossibleCount(Answered(d1, t)) == ImpossibleCount(Answered(d2, t))
  {
    if d1 != [] {
      var n := |d1|;
      var a1, a2 := Answered(d1[..n - 1], t), Answered(d2[..n - 1], t);
      var x1, x2 := d1[n - 1], d2[n - 1];
      AnsweredAgree(d1[..n - 1], d2[..n - 1], t);
      assert Answered(d1, t) == a1 + (if x1.score <= t then [x1] else []);
      assert Answered(d2, t) == a2 + (if x2.score <= t then [x2] else []);
      if x1.score <= t {
        assert (a1 + [x1])[..|a1|] == a1;
        assert (a2 + [x2])[..|a2|] == a2;
      } else {
        assert a1 + [] == a1 && a2 + [] == a2;
      }
    }
  }

  /** When no score exceeds t, every question is answered. */
  lemma {:induction false} AnsweredAll(data: seq<Record>, t: real)
    requires forall i :: 0 <= i < |data| ==> data[i].score <= t
    ensures Answered(data, t) == data
  {
    if data != [] {
      var n := |data|;
      AnsweredAll(data[..n - 1], t);
      assert data == data[..n - 1] + [data[n - 1]];
    }
  }

  /** If every score is at most 1, the last threshold answers everything:
      coverage 1 and risk the overall fraction of impossible questions. */
  lemma FinalThreshold(data: seq<Record>)
    requires |data| > 0
    requires forall i :: 0 <= i < |data| ==> data[i].score <= 1.0
    ensures Coverage(data, Threshold(GridSize - 1)) == 1.0
    ensures Risk(data, Threshold(GridSize - 1)) == ImpossibleCount(data) as real / |data| as real
  {
    AnsweredAll(data, 1.0);
    WholeFraction(|data|);
  }
}

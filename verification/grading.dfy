/**
 Per-question grading of src/analyze_results.py (the loop of `analyze`,
 lines 42-64): every record gets an error label (the `is_hallucination`
 list) and three counters are kept.
 */
module Grading {
  import opened Text

  /** One evaluated question, reduced to the fields the analysis reads:
      `consistency_score`, `is_impossible`, `greedy_answer`, `gold_answers`. */
  datatype Record = Record(score: real, isImpossible: bool, greedyAnswer: string, goldAnswers: seq<string>)

  /** The greedy answer of an answerable question matches a gold answer. */
  predicate Correct(r: Record) {
    !r.isImpossible && Match(r.greedyAnswer, r.goldAnswers)
  }

  /** The `is_hallucination` entry of a record: 1 for an error, 0 for a correct answer. */
  function ErrorLabel(r: Record): (l: nat)
    ensures l <= 1
    ensures l == 0 <==> Correct(r)
  {
    if r.isImpossible then 1
    else if Match(r.greedyAnswer, r.goldAnswers) then 0
    else 1
  }

  /** `sum(labels)`; the recursion peels the last element so that a prefix
      extended by one label adds exactly that label. */
  function Sum(labels: seq<nat>): nat
  {
    if labels == [] then 0 else Sum(labels[..|labels| - 1]) + labels[|labels| - 1]
  }

  /** Number of records whose question is impossible. */
  function ImpossibleCount(data: seq<Record>): (c: nat)
    ensures c <= |data|
  {
    if data == [] then 0
    else ImpossibleCount(data[..|data| - 1]) + (if data[|data| - 1].isImpossible then 1 else 0)
  }

  /** Number of answerable records graded correct. */
  function CorrectCount(data: seq<Record>): (c: nat)
    ensures c <= |data|
  {
    if data == [] then 0
    else CorrectCount(data[..|data| - 1]) + (if Correct(data[|data| - 1]) then 1 else 0)
  }

  /** The three counters of `analyze`. */
  datatype Counts = Counts(answerableTotal: nat, answerableCorrect: nat, impossibleTotal: nat)

  /** The `is_hallucination` list of a prefix of the data. */
  function Labels(data: seq<Record>): (labels: seq<nat>)
    ensures |labels| == |data|
  {
    if data == [] then [] else Labels(data[..|data| - 1]) + [ErrorLabel(data[|data| - 1])]
  }

  /** The grading loop: one label per record, in order, and the counters. */
  method Tally(data: seq<Record>) returns (labels: seq<nat>, counts: Counts)
    ensures |labels| == |data|
    ensures forall i :: 0 <= i < |data| ==> labels[i] == ErrorLabel(data[i])
    ensures counts.impossibleTotal == ImpossibleCount(data)
    ensures counts.answerableCorrect == CorrectCount(data)
    ensures counts.answerableTotal + counts.impossibleTotal == |data|
    ensures counts.answerableCorrect <= counts.answerableTotal
    ensures Sum(labels) + counts.answerableCorrect == |data|
  {
    labels := [];
    var answerableTotal, answerableCorrect, impossibleTotal := 0, 0, 0;
    var i := 0;
    while i < |data|
      invariant 0 <= i <= |data|
      invariant labels == Labels(data[..i])
      invariant impossibleTotal == ImpossibleCount(data[..i])
      invariant answerableCorrect == CorrectCount(data[..i])
      invariant answerableTotal + impossibleTotal == i
      invariant answerableCorrect <= answerableTotal
    {
      var item := data[i];
      var flag := ErrorLabel(item);
      CountsStep(data, i);
      labels := labels + [flag];
      if item.isImpossible {
        impossibleTotal := impossibleTotal + 1;
      } else {
        if flag == 0 {
          answerableCorrect := answerableCorrect + 1;
        }
        answerableTotal := answerableTotal + 1;
      }
      i := i + 1;
    }
    assert data[..i] == data;
    forall j | 0 <= j < |data|
      ensures labels[j] == ErrorLabel(data[j])
    {
      LabelsAt(data, j);
    }
    LabelsSum(data);
    counts := Counts(answerableTotal, answerableCorrect, impossibleTotal);
  }

  /** Extending a prefix by one record adds that record's contribution to each count
      and its label to the list. */
  lemma CountsStep(data: seq<Record>, i: nat)
    requires i < |data|
    ensures CorrectCount(data[..i + 1]) == CorrectCount(data[..i]) + (if Correct(data[i]) then 1 else 0)
    ensures ImpossibleCount(data[..i + 1]) == ImpossibleCount(data[..i]) + (if data[i].isImpossible then 1 else 0)
    ensures Labels(data[..i + 1]) == Labels(data[..i]) + [ErrorLabel(data[i])]
  {
    assert data[..i + 1][..i] == data[..i];
  }

  /** The labels of a prefix are the prefix of the labels. */
  lemma {:induction false} LabelsPrefix(data: seq<Record>, m: nat)
    requires m <= |data|
    ensures Labels(data)[..m] == Labels(data[..m])
  {
    var n := |data|;
    if m < n {
      var prefix := data[..n - 1];
      LabelsPrefix(prefix, m);
      assert prefix[..m] == data[..m];
      assert Labels(data)[..m] == Labels(prefix)[..m];
    } else {
      assert data[..m] == data;
    }
  }

  /** The i-th label is the label of the i-th record. */
  lemma LabelsAt(data: seq<Record>, i: nat)
    requires i < |data|
    ensures Labels(data)[i] == ErrorLabel(data[i])
  {
    var prefix := data[..i + 1];
    LabelsPrefix(data, i + 1);
    assert Labels(data)[i] == Labels(prefix)[i];
    assert prefix[i] == data[i];
  }

  /** Every record is either graded correct or counted as an error. */
  lemma {:induction false} LabelsSum(data: seq<Record>)
    ensures Sum(Labels(data)) + CorrectCount(data) == |data|
  {
    if data != [] {
      var n := |data|;
      LabelsSum(data[..n - 1]);
      SumSnoc(Labels(data[..n - 1]), ErrorLabel(data[n - 1]));
    }
  }

  /** A count out of a positive total is a fraction in [0,1]. */
  lemma FractionInUnit(a: nat, b: nat)
    requires 0 < b && a <= b
    ensures 0.0 <= a as real / b as real <= 1.0
  {
  }

  lemma WholeFraction(n: nat)
    requires 0 < n
    ensures n as real / n as real == 1.0
  {
  }

  /** Appending a label adds it to the sum. */
  lemma SumSnoc(labels: seq<nat>, x: nat)
    ensures Sum(labels + [x]) == Sum(labels) + x
  {
    assert (labels + [x])[..|labels|] == labels;
  }
}

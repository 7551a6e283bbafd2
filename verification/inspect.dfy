/**
 The confusion partition of `inspect_results` in inspect_results.py: each
 record is put in one of four categories by its stored abstain decision and
 its ground-truth impossibility, the four sizes are reported, and the
 categories chosen by the mode are sampled for display.
 */
module Inspect {
  import opened Results

  /** One stored result as the inspection tool reads it. */
  datatype Item = Item(
    question: string,
    generatedAnswer: string,
    sampledAnswers: seq<string>,
    score: real,
    abstain: bool,
    isImpossible: bool)

  /** The four cells of the abstention confusion matrix, in the order of the
      `categories` dictionary. */
  datatype Category =
    | TP  // abstained on an impossible question
    | TN  // answered an answerable question
    | FP  // abstained on an answerable question
    | FN  // answered an impossible question

  /** Dictionary order of the categories. */
  const AllCategories: seq<Category> := [TP, TN, FP, FN]

  /** The place of a category in dictionary order. */
  function Position(c: Category): (k: nat)
    ensures k < |AllCategories| && AllCategories[k] == c
  {
    match c
    case TP => 0
    case TN => 1
    case FP => 2
    case FN => 3
  }

  /** The dictionary holds every category. */
  lemma AllCategoriesComplete()
    ensures forall c :: c in AllCategories
  {
    forall c
      ensures c in AllCategories
    {
      assert AllCategories[Position(c)] == c;
    }
  }

  /** Strictly in dictionary order, hence without repeats. */
  predicate InKeyOrder(cats: seq<Category>) {
    forall i, j :: 0 <= i < j < |cats| ==> Position(cats[i]) < Position(cats[j])
  }

  /** The sections' categories are strictly in dictionary order. */
  predicate SectionsInKeyOrder(ss: seq<Section>) {
    forall i, j :: 0 <= i < j < |ss| ==> Position(ss[i].category) < Position(ss[j].category)
  }

  /** The key under which a category is stored and selected. */
  function Name(c: Category): string
  {
    match c
    case TP => "TP (Correct Abstain)"
    case TN => "TN (Correct Answer)"
    case FP => "FP (False Refusal)"
    case FN => "FN (Hallucination)"
  }

  /** The category whose key is s, if any (`cat in categories`). */
  function Lookup(s: string): (r: Option<Category>)
    ensures r.Some? ==> Name(r.value) == s
    ensures r.None? ==> forall c :: Name(c) != s
  {
    if s == Name(TP) then Some(TP)
    else if s == Name(TN) then Some(TN)
    else if s == Name(FP) then Some(FP)
    else if s == Name(FN) then Some(FN)
    else None
  }

  /** The flag pair a category stands for. */
  predicate InCategory(d: Item, c: Category)
  {
    match c
    case TP => d.abstain && d.isImpossible
    case TN => !d.abstain && !d.isImpossible
    case FP => d.abstain && !d.isImpossible
    case FN => !d.abstain && d.isImpossible
  }

  /** The single category of an item. */
  function Classify(d: Item): (c: Category)
    ensures InCategory(d, c)
    ensures forall c' :: InCategory(d, c') ==> c' == c
  {
    if d.abstain then (if d.isImpossible then TP else FP)
    else (if d.isImpossible then FN else TN)
  }

  /** The list comprehension of lines 22-25: the items of category c, in order. */
  function Select(data: seq<Item>, c: Category): (items: seq<Item>)
    ensures |items| <= |data|
    ensures forall i :: 0 <= i < |items| ==> InCategory(items[i], c)
  {
    if data == [] then []
    else
      var n := |data|;
      Select(data[..n - 1], c) + (if InCategory(data[n - 1], c) then [data[n - 1]] else [])
  }

  /** The counts printed under "Stats", one per category in dictionary order. */
  datatype Stats = Stats(tp: nat, tn: nat, fp: nat, fn: nat)

  /** One inspected category: its size and how many items are sampled from it. */
  datatype Section = Section(category: Category, population: nat, shown: nat)

  /** A negative sample size makes `random.sample` raise. */
  datatype InspectError = NegativeSampleSize

  /** What one run reports: the statistics and the sections inspected, in order. */
  datatype Report = Report(stats: Stats, sections: seq<Section>)

  function CountAll(data: seq<Item>): Stats
  {
    Stats(|Select(data, TP)|, |Select(data, TN)|, |Select(data, FP)|, |Select(data, FN)|)
  }

  /** The categories a mode other than "stats" asks for (line 41); a mode that
      names no category yields a key that the loop skips (line 44). */
  function Selected(mode: string): (cats: seq<Category>)
    ensures forall c :: c in cats <==> mode == "all" || Name(c) == mode
    ensures InKeyOrder(cats)
  {
    if mode == "all" then
      AllCategoriesComplete();
      AllCategories
    else match Lookup(mode)
      case Some(c) => [c]
      case None => []
  }

  /** The loop of lines 43-50 over the selected categories. */
  function Sections(data: seq<Item>, cats: seq<Category>, n: int): (r: Result<seq<Section>, InspectError>)
    ensures r.Failure? <==> n < 0 && exists c :: c in cats && Select(data, c) != []
    ensures r.Success? ==> forall s :: s in r.value ==>
              s.category in cats && s.population == |Select(data, s.category)| > 0
              && s.shown == Min(n, s.population) && s.shown <= s.population
    ensures r.Success? ==> forall c :: c in cats && Select(data, c) != [] ==>
              exists s :: s in r.value && s.category == c
    ensures r.Success? && InKeyOrder(cats) ==> SectionsInKeyOrder(r.value)
  {
    if cats == [] then Success([])
    else
      var items := Select(data, cats[0]);
      if items == [] then
        assert forall c :: c in cats <==> c == cats[0] || c in cats[1..];
        Sections(data, cats[1..], n)
      else if n < 0 then
        assert cats[0] in cats;
        Failure(NegativeSampleSize)
      else
        match Sections(data, cats[1..], n)
        case Failure(e) => Failure(e)
        case Success(rest) =>
          var sections := [Section(cats[0], |items|, Min(n, |items|))] + rest;
          if InKeyOrder(cats) then
            KeyOrderTail(cats);
            ConsInKeyOrder(sections[0], rest);
            Success(sections)
          else Success(sections)
  }

  /** The tail of an ordered list is ordered and follows its head. */
  lemma KeyOrderTail(cats: seq<Category>)
    requires |cats| > 0 && InKeyOrder(cats)
    ensures InKeyOrder(cats[1..])
    ensures forall c :: c in cats[1..] ==> Position(cats[0]) < Position(c)
  {
    forall i, j | 0 <= i < j < |cats[1..]|
      ensures Position(cats[1..][i]) < Position(cats[1..][j])
    {
      assert cats[1..][i] == cats[i + 1] && cats[1..][j] == cats[j + 1];
    }
  }

  /** A section ahead of every later one keeps the sections ordered. */
  lemma ConsInKeyOrder(first: Section, rest: seq<Section>)
    requires SectionsInKeyOrder(rest)
    requires forall s :: s in rest ==> Position(first.category) < Position(s.category)
    ensures SectionsInKeyOrder([first] + rest)
  {
    var ss := [first] + rest;
    forall i, j | 0 <= i < j < |ss|
      ensures Position(ss[i].category) < Position(ss[j].category)
    {
      assert ss[j] == rest[j - 1] && ss[j] in rest;
      if i > 0 {
        assert ss[i] == rest[i - 1];
      }
    }
  }

  function Min(a: int, b: int): int
  {
    if a <= b then a else b
  }

  /** `inspect_results` without file loading, printing and the random choice of items. */
  function Run(data: seq<Item>, mode: string, n: int): (r: Result<Report, InspectError>)
    ensures mode == "stats" ==> r == Success(Report(CountAll(data), []))
    ensures r.Success? ==> r.value.stats == CountAll(data)
    ensures mode != "stats" ==>
              (r.Failure? <==> n < 0 && exists c :: c in Selected(mode) && Select(data, c) != [])
    ensures r.Success? ==> SectionsInKeyOrder(r.value.sections)
  {
    if mode == "stats" then Success(Report(CountAll(data), []))
    else
      match Sections(data, Selected(mode), n)
      case Failure(e) => Failure(e)
      case Success(sections) => Success(Report(CountAll(data), sections))
  }

  /* ---------------------------------------------------------------------
     Properties of the partition
     --------------------------------------------------------------------- */

  /** Every key names exactly one category: looking a name up finds it. */
  lemma LookupName(c: Category)
    ensures Lookup(Name(c)) == Some(c)
  {
  }

  /** A category holds exactly the items of data with its flag pair. */
  lemma {:induction false} SelectMembers(data: seq<Item>, c: Category)
    ensures forall x :: x in Select(data, c) <==> x in data && InCategory(x, c)
  {
    if data != [] {
      var n := |data|;
      SelectMembers(data[..n - 1], c);
      assert data == data[..n - 1] + [data[n - 1]];
    }
  }

  /** Selection is order-preserving: it distributes over concatenation. */
  lemma {:induction false} SelectAppend(a: seq<Item>, b: seq<Item>, c: Category)
    ensures Select(a + b, c) == Select(a, c) + Select(b, c)
  {
    if b == [] {
      assert a + b == a;
    } else {
      var n := |b|;
      SelectAppend(a, b[..n - 1], c);
      assert (a + b)[..|a + b| - 1] == a + b[..n - 1];
    }
  }

  /** The four categories are pairwise disjoint. */
  lemma Disjoint(data: seq<Item>, c1: Category, c2: Category)
    requires c1 != c2
    ensures forall x :: !(x in Select(data, c1) && x in Select(data, c2))
  {
    SelectMembers(data, c1);
    SelectMembers(data, c2);
  }

  /** The four categories together hold every item exactly once. */
  lemma Partition(data: seq<Item>)
    ensures |Select(data, TP)| + |Select(data, TN)| + |Select(data, FP)| + |Select(data, FN)| == |data|
    ensures multiset(Select(data, TP)) + multiset(Select(data, TN))
            + multiset(Select(data, FP)) + multiset(Select(data, FN)) == multiset(data)
  {
    PartitionMultiset(data);
  }

  lemma PartitionMultiset(data: seq<Item>)
    ensures multiset(Select(data, TP)) + multiset(Select(data, TN))
            + multiset(Select(data, FP)) + multiset(Select(data, FN)) == multiset(data)
  {
    var m := multiset(Select(data, TP)) + multiset(Select(data, TN))
             + multiset(Select(data, FP)) + multiset(Select(data, FN));
    forall y
      ensures m[y] == multiset(data)[y]
    {
      SelectMultiplicity(data, TP, y);
      SelectMultiplicity(data, TN, y);
      SelectMultiplicity(data, FP, y);
      SelectMultiplicity(data, FN, y);
    }
  }

  /** A category keeps every copy of its own items and none of the others. */
  lemma {:induction false} SelectMultiplicity(data: seq<Item>, c: Category, y: Item)
    ensures multiset(Select(data, c))[y] == (if InCategory(y, c) then multiset(data)[y] else 0)
  {
    if data != [] {
      var n := |data|;
      var p, x := data[..n - 1], data[n - 1];
      SelectMultiplicity(p, c, y);
      assert data == p + [x];
      assert multiset(data) == multiset(p) + multiset{x};
      assert Select(data, c) == Select(p, c) + (if InCategory(x, c) then [x] else []);
    }
  }

  /** The printed statistics add up to the number of loaded results. */
  lemma StatsTotal(data: seq<Item>)
    ensures CountAll(data).tp + CountAll(data).tn + CountAll(data).fp + CountAll(data).fn == |data|
  {
    Partition(data);
  }

  /** A mode that is neither "stats", "all" nor a category key inspects nothing. */
  lemma UnknownModeSkipped(data: seq<Item>, mode: string, n: int)
    requires mode != "stats" && mode != "all" && Lookup(mode).None?
    ensures Run(data, mode, n) == Success(Report(CountAll(data), []))
  {
  }

  /** A draw of k items without replacement from items. */
  predicate IsSample(sample: seq<Item>, items: seq<Item>, k: nat)
  {
    |sample| == k && multiset(sample) <= multiset(items)
  }

  /** Whatever `random.sample` draws from a category, each drawn item comes from
      the data, and its printed decision is Abstain exactly for TP and FP. */
  lemma SampleDecision(data: seq<Item>, c: Category, sample: seq<Item>, k: nat)
    requires IsSample(sample, Select(data, c), k)
    ensures forall x :: x in sample ==> x in data && (x.abstain <==> c == TP || c == FP)
    ensures forall x :: x in sample ==> (x.isImpossible <==> c == TP || c == FN)
  {
    SelectMembers(data, c);
    forall x | x in sample
      ensures x in Select(data, c)
    {
      assert x in multiset(sample);
    }
  }
}

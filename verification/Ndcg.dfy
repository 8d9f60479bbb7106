/** NDCG at 10 with exponential gain, and the per-cutoff figures published with it. */
module Ndcg {
  import opened Reals
  import opened Sequences

  datatype Doc = Doc(id: string)

  // ------------------------------------------------------------------ ranking and relevance

  /** `dict.fromkeys`: duplicates are dropped keeping the first position. */
  function ParseRanking(raw: seq<Doc>): seq<Doc> {
    Dedupe(raw)
  }

  /** Positively graded judgements only. */
  function GradedRelevance(qrels: map<Doc, int>): map<Doc, nat> {
    map doc | doc in qrels && qrels[doc] > 0 :: qrels[doc]
  }

  function Pow2(n: nat): nat {
    if n == 0 then 1 else 2 * Pow2(n - 1)
  }

  lemma {:induction false} Pow2Grows(m: nat, n: nat)
    requires m <= n
    ensures 1 <= Pow2(m) <= Pow2(n)
    ensures m < n ==> Pow2(m) < Pow2(n)
  {
    if m < n { Pow2Grows(m, n - 1); } else if n > 0 { Pow2Grows(n - 1, n - 1); }
  }

  /** 2^grade - 1, with grade 0 for a document that is not relevant. */
  function Gain(relevant: map<Doc, nat>, doc: Doc): real {
    if doc in relevant then (Pow2(relevant[doc]) - 1) as real else 0.0
  }

  function Gains(relevant: map<Doc, nat>, docs: seq<Doc>): seq<real> {
    if docs == [] then [] else [Gain(relevant, docs[0])] + Gains(relevant, docs[1..])
  }

  // ------------------------------------------------------------------ discounted sums

  /** The discounts 1 / log2(index + 2): positive and decreasing. */
  ghost predicate ValidDiscount(d: nat -> real) {
    && (forall i: nat :: d(i) > 0.0)
    && (forall i: nat :: d(i + 1) <= d(i))
  }

  /** The first `k` terms of the discounted sum. */
  ghost function Discounted(d: nat -> real, gains: seq<real>, k: nat): real
    requires k <= |gains|
  {
    if k == 0 then 0.0 else Discounted(d, gains, k - 1) + Times(d(k - 1), gains[k - 1])
  }

  ghost function Prefix(gains: seq<real>, k: nat): real
    requires k <= |gains|
  {
    if k == 0 then 0.0 else Prefix(gains, k - 1) + gains[k - 1]
  }

  /** Abel summation: when every prefix of `x` sums to at most the same prefix of `y`, the
      discounted sums are ordered too, by at least the last discount times the prefix difference. */
  lemma {:induction false} PrefixDominanceDiscounts(d: nat -> real, x: seq<real>, y: seq<real>, k: nat)
    requires ValidDiscount(d) && 0 < k <= |x| && k <= |y|
    requires forall j :: 0 <= j <= k ==> Prefix(x, j) <= Prefix(y, j)
    ensures Discounted(d, y, k) - Discounted(d, x, k) >= Times(d(k - 1), Prefix(y, k) - Prefix(x, k))
  {
    if k == 1 {
      assert Prefix(x, 0) == 0.0 && Prefix(y, 0) == 0.0;
      assert Discounted(d, x, 0) == 0.0 && Discounted(d, y, 0) == 0.0;
      Distribute(d(0), y[0], x[0]);
    } else {
      PrefixDominanceDiscounts(d, x, y, k - 1);
      var before := Prefix(y, k - 1) - Prefix(x, k - 1);
      assert d((k - 2) + 1) <= d(k - 2);
      TimesMonotone(before, d(k - 1), d(k - 2));
      TimesNegated(before, d(k - 1));
      TimesNegated(before, d(k - 2));
      Distribute(d(k - 1), y[k - 1], x[k - 1]);
      Distribute(d(k - 1), before, y[k - 1] - x[k - 1]);
    }
  }

  // ------------------------------------------------------------------ the ideal order

  ghost predicate IsBest(relevant: map<Doc, nat>, doc: Doc) {
    doc in relevant && forall other :: other in relevant ==> relevant[other] <= relevant[doc]
  }

  lemma BestExists(relevant: map<Doc, nat>) returns (doc: Doc)
    requires relevant != map[]
    ensures IsBest(relevant, doc)
  {
    var rest := relevant.Keys;
    doc :| doc in rest;
    rest := rest - {doc};
    while rest != {}
      invariant doc in relevant
      invariant forall other :: other in relevant && other !in rest ==> relevant[other] <= relevant[doc]
      decreases rest
    {
      var next :| next in rest;
      if relevant[next] > relevant[doc] { doc := next; }
      rest := rest - {next};
    }
  }

  /** The relevant documents, best first: `sorted(relevant.values(), reverse=True)` with names. */
  ghost predicate IsIdealOrder(relevant: map<Doc, nat>, docs: seq<Doc>) {
    && Distinct(docs)
    && (forall doc :: doc in docs <==> doc in relevant)
    && (forall i, j :: 0 <= i < j < |docs| ==> relevant[docs[j]] <= relevant[docs[i]])
  }

  lemma {:induction false} IdealOrderExists(relevant: map<Doc, nat>) returns (docs: seq<Doc>)
    ensures IsIdealOrder(relevant, docs)
    decreases relevant.Keys
  {
    if relevant == map[] {
      docs := [];
    } else {
      var best := BestExists(relevant);
      var rest := relevant - {best};
      assert rest.Keys < relevant.Keys by { assert best in relevant.Keys && best !in rest.Keys; }
      var tail := IdealOrderExists(rest);
      docs := [best] + tail;
      forall i, j | 0 <= i < j < |docs| ensures docs[i] != docs[j] && relevant[docs[j]] <= relevant[docs[i]] {
        assert docs[j] in tail;
        if i > 0 { assert docs[i] == tail[i - 1] && docs[j] == tail[j - 1]; }
      }
    }
  }

  // ------------------------------------------------------------------ rearrangement

  lemma {:induction false} GainsAt(relevant: map<Doc, nat>, docs: seq<Doc>)
    ensures |Gains(relevant, docs)| == |docs|
    ensures forall i :: 0 <= i < |docs| ==> Gains(relevant, docs)[i] == Gain(relevant, docs[i])
  {
    if docs != [] { GainsAt(relevant, docs[1..]); }
  }

  lemma GainOrder(relevant: map<Doc, nat>, a: Doc, b: Doc)
    requires b in relevant && (a in relevant ==> relevant[a] <= relevant[b])
    ensures 0.0 <= Gain(relevant, a) <= Gain(relevant, b)
  {
    Pow2Grows(0, relevant[b]);
    if a in relevant {
      Pow2Grows(0, relevant[a]);
      Pow2Grows(relevant[a], relevant[b]);
    }
  }

  /** The gains of the documents, summed over a whole sequence. */
  ghost function Sum(relevant: map<Doc, nat>, docs: seq<Doc>): real {
    if docs == [] then 0.0 else Gain(relevant, docs[0]) + Sum(relevant, docs[1..])
  }

  function Without(docs: seq<Doc>, i: nat): seq<Doc>
    requires i < |docs|
  {
    docs[..i] + docs[i + 1..]
  }

  lemma {:induction false} SumWithout(relevant: map<Doc, nat>, docs: seq<Doc>, i: nat)
    requires i < |docs|
    ensures Sum(relevant, docs) == Gain(relevant, docs[i]) + Sum(relevant, Without(docs, i))
  {
    if i == 0 {
      assert Without(docs, 0) == docs[1..];
    } else {
      SumWithout(relevant, docs[1..], i - 1);
      assert Without(docs, i)[1..] == Without(docs[1..], i - 1);
    }
  }

  lemma {:induction false} SumOfIrrelevant(relevant: map<Doc, nat>, docs: seq<Doc>)
    requires forall doc :: doc in docs ==> doc !in relevant
    ensures Sum(relevant, docs) == 0.0
  {
    if docs != [] {
      assert docs[0] in docs;
      SumOfIrrelevant(relevant, docs[1..]);
    }
  }

  lemma PlaceOf(docs: seq<Doc>, best: Doc) returns (i: nat)
    requires docs != []
    ensures i < |docs| && docs[i] in docs && (best in docs ==> docs[i] == best)
  {
    i := 0;
    if best in docs { i :| i < |docs| && docs[i] == best; }
  }

  ghost predicate BestFirst(relevant: map<Doc, nat>, ideal: seq<Doc>) {
    && Distinct(ideal)
    && (forall doc :: doc in ideal ==> doc in relevant)
    && forall i, j :: 0 <= i < j < |ideal| ==> relevant[ideal[j]] <= relevant[ideal[i]]
  }

  lemma NoneGainsMoreThanFirst(relevant: map<Doc, nat>, ideal: seq<Doc>, doc: Doc)
    requires BestFirst(relevant, ideal) && ideal != [] && (doc in relevant ==> doc in ideal)
    ensures Gain(relevant, doc) <= Gain(relevant, ideal[0])
  {
    assert ideal[0] in ideal;
    if doc in relevant {
      var k :| 0 <= k < |ideal| && ideal[k] == doc;
    }
    GainOrder(relevant, doc, ideal[0]);
  }

  lemma BestFirstTail(relevant: map<Doc, nat>, ideal: seq<Doc>)
    requires BestFirst(relevant, ideal) && ideal != []
    ensures BestFirst(relevant, ideal[1..])
    ensures forall doc :: doc in ideal <==> doc == ideal[0] || doc in ideal[1..]
  {
    assert ideal == [ideal[0]] + ideal[1..];
  }

  lemma WithoutBest(docs: seq<Doc>, i: nat, ideal: seq<Doc>)
    requires Distinct(docs) && i < |docs| && ideal != [] && (ideal[0] in docs ==> docs[i] == ideal[0])
    ensures Distinct(Without(docs, i)) && |Without(docs, i)| == |docs| - 1
    ensures forall doc :: doc in Without(docs, i) ==> doc in docs && doc != ideal[0]
  {
    var rest := Without(docs, i);
    forall k | 0 <= k < |rest| ensures rest[k] in docs && rest[k] != docs[i] {
      assert rest[k] == docs[if k < i then k else k + 1];
    }
  }

  lemma SumOfTop(relevant: map<Doc, nat>, ideal: seq<Doc>, n: nat)
    requires ideal != [] && n > 0
    ensures Sum(relevant, Top(ideal, n)) == Gain(relevant, ideal[0]) + Sum(relevant, Top(ideal[1..], n - 1))
  {
    assert Top(ideal, n)[1..] == Top(ideal[1..], n - 1);
  }

  /** No j distinct documents gain more than the j best: drop the best one from the ideal order and
      from the sequence (or, if it is not there, any document of it), and recurse. */
  lemma {:induction false} NoDistinctDocsGainMore(relevant: map<Doc, nat>, ideal: seq<Doc>, docs: seq<Doc>)
    requires BestFirst(relevant, ideal) && Distinct(docs)
    requires forall doc :: doc in docs && doc in relevant ==> doc in ideal
    ensures Sum(relevant, docs) <= Sum(relevant, Top(ideal, |docs|))
    decreases |docs|
  {
    if ideal == [] {
      SumOfIrrelevant(relevant, docs);
    } else if docs != [] {
      var i := PlaceOf(docs, ideal[0]);
      SumWithout(relevant, docs, i);
      NoneGainsMoreThanFirst(relevant, ideal, docs[i]);
      BestFirstTail(relevant, ideal);
      WithoutBest(docs, i, ideal);
      NoDistinctDocsGainMore(relevant, ideal[1..], Without(docs, i));
      SumOfTop(relevant, ideal, |docs|);
    }
  }

  // ------------------------------------------------------------------ the metric

  const DEPTH: nat := 10

  function Top(docs: seq<Doc>, k: nat): seq<Doc> {
    if k <= |docs| then docs[..k] else docs
  }

  /** The discounted gain of the first ten documents. */
  ghost function Dcg(d: nat -> real, relevant: map<Doc, nat>, docs: seq<Doc>): real {
    var gains := Gains(relevant, Top(docs, DEPTH));
    Discounted(d, gains, |gains|)
  }

  /** The same sum over exactly ten terms, missing documents gaining nothing. */
  function Padded(relevant: map<Doc, nat>, docs: seq<Doc>): seq<real> {
    seq(DEPTH, i requires 0 <= i < DEPTH => if i < |docs| then Gain(relevant, docs[i]) else 0.0)
  }

  lemma {:induction false} DiscountedCongruent(d: nat -> real, x: seq<real>, y: seq<real>, k: nat)
    requires k <= |x| && k <= |y| && x[..k] == y[..k]
    ensures Discounted(d, x, k) == Discounted(d, y, k)
  {
    if k > 0 {
      assert x[k - 1] == x[..k][k - 1] && y[k - 1] == y[..k][k - 1];
      assert x[..k - 1] == x[..k][..k - 1] && y[..k - 1] == y[..k][..k - 1];
      DiscountedCongruent(d, x, y, k - 1);
    }
  }

  lemma {:induction false} DiscountedZeros(d: nat -> real, x: seq<real>, j: nat, k: nat)
    requires j <= k <= |x| && forall i :: j <= i < k ==> x[i] == 0.0
    ensures Discounted(d, x, k) == Discounted(d, x, j)
    decreases k
  {
    if j < k {
      DiscountedZeros(d, x, j, k - 1);
      assert Times(d(k - 1), 0.0) == 0.0;
    }
  }

  lemma DcgOverTenTerms(d: nat -> real, relevant: map<Doc, nat>, docs: seq<Doc>)
    ensures Dcg(d, relevant, docs) == Discounted(d, Padded(relevant, docs), DEPTH)
  {
    var top := Top(docs, DEPTH);
    GainsAt(relevant, top);
    assert Gains(relevant, top)[..|top|] == Padded(relevant, docs)[..|top|];
    DiscountedCongruent(d, Gains(relevant, top), Padded(relevant, docs), |top|);
    DiscountedZeros(d, Padded(relevant, docs), |top|, DEPTH);
  }

  lemma {:induction false} SumExtend(relevant: map<Doc, nat>, docs: seq<Doc>, doc: Doc)
    ensures Sum(relevant, docs + [doc]) == Sum(relevant, docs) + Gain(relevant, doc)
  {
    if docs == [] {
      assert docs + [doc] == [doc] && [doc][1..] == [];
    } else {
      assert (docs + [doc])[1..] == docs[1..] + [doc];
      SumExtend(relevant, docs[1..], doc);
    }
  }

  lemma {:induction false} PrefixOfPadded(relevant: map<Doc, nat>, docs: seq<Doc>, j: nat)
    requires j <= DEPTH
    ensures Prefix(Padded(relevant, docs), j) == Sum(relevant, Top(docs, j))
  {
    if j == 0 {
      assert Top(docs, 0) == [];
    } else {
      PrefixOfPadded(relevant, docs, j - 1);
      if j <= |docs| {
        assert Top(docs, j) == Top(docs, j - 1) + [docs[j - 1]];
        SumExtend(relevant, Top(docs, j - 1), docs[j - 1]);
      } else {
        assert Top(docs, j) == Top(docs, j - 1);
      }
    }
  }

  lemma GainNonNegative(relevant: map<Doc, nat>, doc: Doc)
    ensures Gain(relevant, doc) >= 0.0
    ensures doc in relevant && relevant[doc] > 0 ==> Gain(relevant, doc) > 0.0
  {
    if doc in relevant { Pow2Grows(0, relevant[doc]); }
  }

  lemma {:induction false} SumOfLongerTop(relevant: map<Doc, nat>, docs: seq<Doc>, j: nat, k: nat)
    requires j <= k
    ensures Sum(relevant, Top(docs, j)) <= Sum(relevant, Top(docs, k))
    decreases k
  {
    if j < k {
      SumOfLongerTop(relevant, docs, j, k - 1);
      if k <= |docs| {
        assert Top(docs, k) == Top(docs, k - 1) + [docs[k - 1]];
        SumExtend(relevant, Top(docs, k - 1), docs[k - 1]);
        GainNonNegative(relevant, docs[k - 1]);
      } else {
        assert Top(docs, k) == Top(docs, k - 1);
      }
    }
  }

  /** Every prefix of a ranking without duplicates gains at most the same prefix of the ideal order. */
  lemma IdealPrefixesDominate(relevant: map<Doc, nat>, ideal: seq<Doc>, ranking: seq<Doc>, j: nat)
    requires IsIdealOrder(relevant, ideal) && Distinct(ranking) && j <= DEPTH
    ensures Prefix(Padded(relevant, ranking), j) <= Prefix(Padded(relevant, ideal), j)
  {
    var docs := Top(ranking, j);
    PrefixOfPadded(relevant, ranking, j);
    PrefixOfPadded(relevant, ideal, j);
    NoDistinctDocsGainMore(relevant, ideal, docs);
    SumOfLongerTop(relevant, ideal, |docs|, j);
  }

  /** Rearrangement: no ranking without duplicates has a larger DCG than an ideal order. */
  lemma IdealDcgIsLargest(d: nat -> real, relevant: map<Doc, nat>, ideal: seq<Doc>, ranking: seq<Doc>)
    requires ValidDiscount(d) && IsIdealOrder(relevant, ideal) && Distinct(ranking)
    ensures Dcg(d, relevant, ranking) <= Dcg(d, relevant, ideal)
  {
    var x, y := Padded(relevant, ranking), Padded(relevant, ideal);
    DcgOverTenTerms(d, relevant, ranking);
    DcgOverTenTerms(d, relevant, ideal);
    forall j: nat | j <= DEPTH ensures Prefix(x, j) <= Prefix(y, j) {
      IdealPrefixesDominate(relevant, ideal, ranking, j);
    }
    PrefixDominanceDiscounts(d, x, y, DEPTH);
    TimesNonNegative(d(DEPTH - 1), Prefix(y, DEPTH) - Prefix(x, DEPTH));
  }

  lemma {:induction false} DiscountedNonNegative(d: nat -> real, gains: seq<real>, k: nat)
    requires ValidDiscount(d) && k <= |gains| && forall i :: 0 <= i < |gains| ==> gains[i] >= 0.0
    ensures Discounted(d, gains, k) >= 0.0
    ensures k > 0 && gains[0] > 0.0 ==> Discounted(d, gains, k) > 0.0
  {
    if k > 0 {
      DiscountedNonNegative(d, gains, k - 1);
      TimesNonNegative(d(k - 1), gains[k - 1]);
      if k == 1 && gains[0] > 0.0 { TimesPositive(d(0), gains[0]); }
    }
  }

  lemma DcgSign(d: nat -> real, relevant: map<Doc, nat>, docs: seq<Doc>)
    requires ValidDiscount(d)
    ensures Dcg(d, relevant, docs) >= 0.0
    ensures docs != [] && docs[0] in relevant && relevant[docs[0]] > 0 ==> Dcg(d, relevant, docs) > 0.0
  {
    var gains := Gains(relevant, Top(docs, DEPTH));
    GainsAt(relevant, Top(docs, DEPTH));
    forall i | 0 <= i < |gains| ensures gains[i] >= 0.0 { GainNonNegative(relevant, Top(docs, DEPTH)[i]); }
    if docs != [] { GainNonNegative(relevant, docs[0]); }
    DiscountedNonNegative(d, gains, |gains|);
  }

  ghost function IdealOrder(relevant: map<Doc, nat>): (docs: seq<Doc>)
    ensures IsIdealOrder(relevant, docs)
  {
    IdealOrderIsThere(relevant);
    var docs :| IsIdealOrder(relevant, docs);
    docs
  }

  lemma IdealOrderIsThere(relevant: map<Doc, nat>)
    ensures exists docs :: IsIdealOrder(relevant, docs)
  {
    var docs := IdealOrderExists(relevant);
  }

  // ------------------------------------------------------------------ hits

  function Hits(relevant: map<Doc, nat>, docs: seq<Doc>): nat {
    if docs == [] then 0 else (if docs[0] in relevant then 1 else 0) + Hits(relevant, docs[1..])
  }

  lemma OneMoreHit(relevant: map<Doc, nat>, doc: Doc, others: set<Doc>)
    requires doc !in others
    ensures |({doc} + others) * relevant.Keys| == (if doc in relevant then 1 else 0) + |others * relevant.Keys|
  {
    assert ({doc} + others) * relevant.Keys == (if doc in relevant then {doc} else {}) + others * relevant.Keys;
  }

  lemma {:induction false} HitsCountDocuments(relevant: map<Doc, nat>, docs: seq<Doc>)
    requires Distinct(docs)
    ensures Hits(relevant, docs) == |Elements(docs) * relevant.Keys|
  {
    if docs == [] {
      assert Elements(docs) == {};
    } else {
      ElementsOfFirst(docs);
      HitsCountDocuments(relevant, docs[1..]);
      OneMoreHit(relevant, docs[0], Elements(docs[1..]));
    }
  }

  lemma {:induction false} AllHitsIff(relevant: map<Doc, nat>, docs: seq<Doc>)
    ensures Hits(relevant, docs) <= |docs|
    ensures Hits(relevant, docs) == |docs| <==> forall i :: 0 <= i < |docs| ==> docs[i] in relevant
  {
    if docs != [] {
      AllHitsIff(relevant, docs[1..]);
      assert forall i :: 0 <= i < |docs[1..]| ==> docs[1..][i] == docs[i + 1];
      if forall i :: 0 <= i < |docs[1..]| ==> docs[1..][i] in relevant {
        assert forall i :: 0 < i < |docs| ==> docs[i] == docs[1..][i - 1];
      }
    }
  }

  /** A duplicate-free selection hits at most its own length and at most every relevant document. */
  lemma HitsBounds(relevant: map<Doc, nat>, docs: seq<Doc>)
    requires Distinct(docs)
    ensures Hits(relevant, docs) <= |docs| && Hits(relevant, docs) <= |relevant|
  {
    AllHitsIff(relevant, docs);
    HitsCountDocuments(relevant, docs);
    SubsetCardinality(Elements(docs) * relevant.Keys, relevant.Keys);
  }

  /** Precision at each relevant rank, summed over the first `k` ranks. */
  function PrecisionSum(relevant: map<Doc, nat>, ranking: seq<Doc>, k: nat): real
    requires k <= |ranking|
  {
    if k == 0 then 0.0
    else
      PrecisionSum(relevant, ranking, k - 1) +
      (if ranking[k - 1] in relevant then Hits(relevant, ranking[..k]) as real / k as real else 0.0)
  }

  lemma {:induction false} HitsExtend(relevant: map<Doc, nat>, docs: seq<Doc>, doc: Doc)
    ensures Hits(relevant, docs + [doc]) == Hits(relevant, docs) + (if doc in relevant then 1 else 0)
  {
    if docs == [] {
      assert docs + [doc] == [doc] && [doc][1..] == [];
    } else {
      assert (docs + [doc])[1..] == docs[1..] + [doc];
      HitsExtend(relevant, docs[1..], doc);
    }
  }

  lemma {:induction false} PrecisionSumBound(relevant: map<Doc, nat>, ranking: seq<Doc>, k: nat)
    requires Distinct(ranking) && k <= |ranking|
    ensures 0.0 <= PrecisionSum(relevant, ranking, k) <= Hits(relevant, ranking[..k]) as real
  {
    if k > 0 {
      PrecisionSumBound(relevant, ranking, k - 1);
      assert ranking[..k] == ranking[..k - 1] + [ranking[k - 1]];
      HitsExtend(relevant, ranking[..k - 1], ranking[k - 1]);
      HitsBounds(relevant, ranking[..k]);
      Share(Hits(relevant, ranking[..k]), k);
    }
  }

  lemma Share(part: nat, whole: nat)
    requires part <= whole && whole > 0
    ensures 0.0 <= part as real / whole as real <= 1.0
  {}

  // ------------------------------------------------------------------ the published value

  function PrecisionAt(relevant: map<Doc, nat>, ranking: seq<Doc>, cutoff: nat): real
    requires cutoff > 0
  {
    Hits(relevant, Top(ranking, cutoff)) as real / cutoff as real
  }

  function RecallAt(relevant: map<Doc, nat>, ranking: seq<Doc>, cutoff: nat): real
    requires relevant != map[]
  {
    Hits(relevant, Top(ranking, cutoff)) as real / |relevant| as real
  }

  function RecallCeiling(relevant: map<Doc, nat>, ranking: seq<Doc>): real
    requires relevant != map[]
  {
    Min(1.0, |ranking| as real / |relevant| as real)
  }

  function AveragePrecision(relevant: map<Doc, nat>, ranking: seq<Doc>): real
    requires relevant != map[]
  {
    PrecisionSum(relevant, ranking, |ranking|) / |relevant| as real
  }

  /** At every cutoff precision and recall lie in [0, 1], recall never exceeds the published ceiling,
      and average precision lies in [0, 1]; all because duplicates were dropped. */
  lemma CutoffFiguresBounded(relevant: map<Doc, nat>, raw: seq<Doc>, cutoff: nat)
    requires relevant != map[] && cutoff > 0
    ensures var ranking := ParseRanking(raw);
            && 0.0 <= PrecisionAt(relevant, ranking, cutoff) <= 1.0
            && 0.0 <= RecallAt(relevant, ranking, cutoff) <= RecallCeiling(relevant, ranking) <= 1.0
            && 0.0 <= AveragePrecision(relevant, ranking) <= 1.0
  {
    var ranking := ParseRanking(raw);
    var top := Top(ranking, cutoff);
    DedupeExact(raw);
    HitsBounds(relevant, top);
    HitsBounds(relevant, ranking);
    Share(Hits(relevant, top), cutoff);
    Share(Hits(relevant, top), |relevant|);
    DivideMonotone(Hits(relevant, top) as real, |ranking| as real, |relevant| as real);
    PrecisionSumBound(relevant, ranking, |ranking|);
    assert ranking[..|ranking|] == ranking;
    var c := |relevant| as real;
    DivideMonotone(0.0, PrecisionSum(relevant, ranking, |ranking|), c);
    DivideMonotone(PrecisionSum(relevant, ranking, |ranking|), c, c);
    DivideOut(c, 1.0, c);
    DivideOut(c, 0.0, 0.0);
  }

  lemma EveryHitIff(relevant: map<Doc, nat>, docs: seq<Doc>)
    requires Distinct(docs)
    ensures Hits(relevant, docs) == |relevant| <==> forall doc :: doc in relevant ==> doc in docs
  {
    var found := Elements(docs) * relevant.Keys;
    HitsCountDocuments(relevant, docs);
    SubsetCardinality(found, relevant.Keys);
    assert found == relevant.Keys <==> forall doc :: doc in relevant ==> doc in docs;
  }

  /** A full precision sum means every hit so far stands in an unbroken run from the top. */
  lemma {:induction false} FullSumMeansUnbroken(relevant: map<Doc, nat>, ranking: seq<Doc>, k: nat)
    requires Distinct(ranking) && k <= |ranking|
    ensures PrecisionSum(relevant, ranking, k) == Hits(relevant, ranking[..k]) as real ==>
              forall i :: 0 <= i < Hits(relevant, ranking[..k]) && i < k ==> ranking[i] in relevant
  {
    if k > 0 {
      var before, hits := Hits(relevant, ranking[..k - 1]), Hits(relevant, ranking[..k]);
      FullSumMeansUnbroken(relevant, ranking, k - 1);
      PrecisionSumBound(relevant, ranking, k - 1);
      assert ranking[..k] == ranking[..k - 1] + [ranking[k - 1]];
      HitsExtend(relevant, ranking[..k - 1], ranking[k - 1]);
      AllHitsIff(relevant, ranking[..k - 1]);
      AllHitsIff(relevant, ranking[..k]);
      if ranking[k - 1] in relevant && PrecisionSum(relevant, ranking, k) == hits as real {
        QuotientInUnitInterval(hits as real, k as real);
        assert hits == k;
        forall i | 0 <= i < k ensures ranking[i] in relevant { assert ranking[..k][i] == ranking[i]; }
      }
    }
  }

  lemma {:induction false} UnbrokenRunIsFull(relevant: map<Doc, nat>, ranking: seq<Doc>, k: nat)
    requires k <= |ranking| && forall i :: 0 <= i < k ==> ranking[i] in relevant
    ensures PrecisionSum(relevant, ranking, k) == k as real && Hits(relevant, ranking[..k]) == k
  {
    if k > 0 {
      UnbrokenRunIsFull(relevant, ranking, k - 1);
      assert ranking[..k] == ranking[..k - 1] + [ranking[k - 1]];
      HitsExtend(relevant, ranking[..k - 1], ranking[k - 1]);
      DivideOut(k as real, 1.0, k as real);
    }
  }

  lemma {:induction false} LaterRanksNeverLower(relevant: map<Doc, nat>, ranking: seq<Doc>, j: nat, k: nat)
    requires j <= k <= |ranking|
    ensures PrecisionSum(relevant, ranking, j) <= PrecisionSum(relevant, ranking, k)
  {
    if j < k {
      LaterRanksNeverLower(relevant, ranking, j, k - 1);
      AllHitsIff(relevant, ranking[..k]);
      Share(Hits(relevant, ranking[..k]), k);
    }
  }

  lemma FullSumIff(relevant: map<Doc, nat>, ranking: seq<Doc>)
    requires Distinct(ranking)
    ensures PrecisionSum(relevant, ranking, |ranking|) == |relevant| as real <==>
            |ranking| >= |relevant| && forall i :: 0 <= i < |relevant| ==> ranking[i] in relevant
  {
    var n, r := |ranking|, |relevant|;
    assert ranking[..n] == ranking;
    PrecisionSumBound(relevant, ranking, n);
    HitsBounds(relevant, ranking);
    FullSumMeansUnbroken(relevant, ranking, n);
    if n >= r && forall i :: 0 <= i < r ==> ranking[i] in relevant {
      UnbrokenRunIsFull(relevant, ranking, r);
      LaterRanksNeverLower(relevant, ranking, r, n);
    }
  }

  /** The three figures are perfect exactly when: the whole cutoff is filled with relevant documents;
      every relevant document is within it; the relevant documents are the top of the ranking. */
  lemma PerfectFiguresIff(relevant: map<Doc, nat>, raw: seq<Doc>, cutoff: nat)
    requires relevant != map[] && cutoff > 0
    ensures var ranking := ParseRanking(raw);
            && (PrecisionAt(relevant, ranking, cutoff) == 1.0 <==>
                  |ranking| >= cutoff && forall i :: 0 <= i < cutoff ==> ranking[i] in relevant)
            && (RecallAt(relevant, ranking, cutoff) == 1.0 <==>
                  forall doc :: doc in relevant ==> doc in Top(ranking, cutoff))
            && (AveragePrecision(relevant, ranking) == 1.0 <==>
                  |ranking| >= |relevant| && forall i :: 0 <= i < |relevant| ==> ranking[i] in relevant)
  {
    var ranking := ParseRanking(raw);
    var top := Top(ranking, cutoff);
    DedupeExact(raw);
    HitsBounds(relevant, top);
    HitsBounds(relevant, ranking);
    AllHitsIff(relevant, top);
    EveryHitIff(relevant, top);
    FullSumIff(relevant, ranking);
    PrecisionSumBound(relevant, ranking, |ranking|);
    assert ranking[..|ranking|] == ranking;
    QuotientInUnitInterval(Hits(relevant, top) as real, cutoff as real);
    QuotientInUnitInterval(Hits(relevant, top) as real, |relevant| as real);
    QuotientInUnitInterval(PrecisionSum(relevant, ranking, |ranking|), |relevant| as real);
  }

  /** `DividesByZero`: judgements exist but none is positive, and recall divides by their number. */
  datatype Outcome = Excluded | DividesByZero | Value(ndcg: real)

  ghost function Metric(d: nat -> real, qrels: map<Doc, int>, raw: seq<Doc>): Outcome {
    var relevant, ranking := GradedRelevance(qrels), ParseRanking(raw);
    if qrels == map[] then Excluded
    else if relevant == map[] then DividesByZero
    else
      var dcg, idcg := Dcg(d, relevant, ranking), Dcg(d, relevant, IdealOrder(relevant));
      Value(if idcg != 0.0 then dcg / idcg else 0.0)
  }

  lemma IdealDcgPositive(d: nat -> real, qrels: map<Doc, int>)
    requires ValidDiscount(d) && GradedRelevance(qrels) != map[]
    ensures Dcg(d, GradedRelevance(qrels), IdealOrder(GradedRelevance(qrels))) > 0.0
  {
    var relevant := GradedRelevance(qrels);
    var ideal := IdealOrder(relevant);
    var doc :| doc in relevant;
    assert doc in ideal;
    assert ideal[0] in ideal;
    DcgSign(d, relevant, ideal);
  }

  /** The metric has a value exactly when some grade is positive; then NDCG lies in [0, 1], the ideal
      sum it divides by is positive, and it is 1 exactly when no ranking can do better. */
  lemma NdcgInUnitInterval(d: nat -> real, qrels: map<Doc, int>, raw: seq<Doc>)
    requires ValidDiscount(d)
    ensures var outcome := Metric(d, qrels, raw); var relevant := GradedRelevance(qrels);
            && (outcome.Value? <==> exists doc :: doc in qrels && qrels[doc] > 0)
            && (outcome.DividesByZero? <==> qrels != map[] && forall doc :: doc in qrels ==> qrels[doc] <= 0)
            && (outcome.Value? ==>
                  && 0.0 <= outcome.ndcg <= 1.0
                  && (outcome.ndcg == 1.0 <==>
                        Dcg(d, relevant, ParseRanking(raw)) == Dcg(d, relevant, IdealOrder(relevant))))
  {
    var relevant, ranking := GradedRelevance(qrels), ParseRanking(raw);
    assert relevant != map[] <==> exists doc :: doc in qrels && qrels[doc] > 0 by {
      if doc :| doc in qrels && qrels[doc] > 0 { assert doc in relevant; }
      if doc :| doc in relevant { assert doc in qrels && qrels[doc] > 0; }
    }
    if relevant != map[] {
      DedupeExact(raw);
      IdealDcgPositive(d, qrels);
      IdealDcgIsLargest(d, relevant, IdealOrder(relevant), ranking);
      DcgSign(d, relevant, ranking);
      QuotientInUnitInterval(Dcg(d, relevant, ranking), Dcg(d, relevant, IdealOrder(relevant)));
    }
  }

  /** Any gain-descending ranking of the relevant documents scores 1, whatever follows it. */
  lemma {:induction false} DescendingRankingScoresOne(d: nat -> real, qrels: map<Doc, int>, raw: seq<Doc>)
    requires ValidDiscount(d) && GradedRelevance(qrels) != map[]
    requires var relevant := GradedRelevance(qrels);
             |ParseRanking(raw)| >= |relevant| && IsIdealOrder(relevant, ParseRanking(raw)[..|relevant|])
    ensures Metric(d, qrels, raw) == Value(1.0)
  {
    var relevant, ranking := GradedRelevance(qrels), ParseRanking(raw);
    var head := ranking[..|relevant|];
    DedupeExact(raw);
    IdealDcgIsLargest(d, relevant, head, IdealOrder(relevant));
    TailLosesNothing(d, relevant, ranking, |relevant|);
    IdealDcgIsLargest(d, relevant, IdealOrder(relevant), ranking);
    IdealDcgPositive(d, qrels);
    QuotientInUnitInterval(Dcg(d, relevant, ranking), Dcg(d, relevant, IdealOrder(relevant)));
    var doc :| doc in relevant;
    assert doc in qrels;
  }

  lemma TailLosesNothing(d: nat -> real, relevant: map<Doc, nat>, ranking: seq<Doc>, k: nat)
    requires ValidDiscount(d) && k <= |ranking|
    ensures Dcg(d, relevant, ranking[..k]) <= Dcg(d, relevant, ranking)
  {
    var x, y := Padded(relevant, ranking[..k]), Padded(relevant, ranking);
    DcgOverTenTerms(d, relevant, ranking);
    DcgOverTenTerms(d, relevant, ranking[..k]);
    forall j: nat | j <= DEPTH ensures Prefix(x, j) <= Prefix(y, j) {
      PrefixOfPadded(relevant, ranking[..k], j);
      PrefixOfPadded(relevant, ranking, j);
      var shorter := if j <= k then j else k;
      assert Top(ranking[..k], j) == Top(ranking, shorter);
      SumOfLongerTop(relevant, ranking, shorter, j);
    }
    PrefixDominanceDiscounts(d, x, y, DEPTH);
    TimesNonNegative(d(DEPTH - 1), Prefix(y, DEPTH) - Prefix(x, DEPTH));
  }

  // ------------------------------------------------------------------ when the score is exactly 1

  ghost predicate StrictDiscount(d: nat -> real) {
    ValidDiscount(d) && forall i: nat :: d(i + 1) < d(i)
  }

  /** With strictly decreasing discounts, dominated prefixes and equal discounted sums leave no
      prefix that differs. */
  lemma {:induction false} EqualSumsMeanEqualPrefixes(d: nat -> real, x: seq<real>, y: seq<real>, k: nat)
    requires StrictDiscount(d) && 0 < k <= |x| && k <= |y|
    requires forall j :: 0 <= j <= k ==> Prefix(x, j) <= Prefix(y, j)
    requires Discounted(d, x, k) == Discounted(d, y, k)
    ensures forall j :: 0 <= j <= k ==> Prefix(x, j) == Prefix(y, j)
  {
    PrefixDominanceDiscounts(d, x, y, k);
    var after := Prefix(y, k) - Prefix(x, k);
    if after > 0.0 { TimesPositive(d(k - 1), after); }
    if k > 1 {
      PrefixDominanceDiscounts(d, x, y, k - 1);
      var before := Prefix(y, k - 1) - Prefix(x, k - 1);
      Distribute(d(k - 1), y[k - 1], x[k - 1]);
      assert y[k - 1] - x[k - 1] == -before;
      TimesNegated(d(k - 1), before);
      TimesNegated(d(k - 2), before);
      if before > 0.0 {
        assert d((k - 2) + 1) < d(k - 2);
        TimesPositive(before, d(k - 2) - d(k - 1));
        Distribute(before, d(k - 2), d(k - 1));
      }
      assert before == 0.0;
      assert Times(d(k - 1), 0.0) == 0.0;
      EqualSumsMeanEqualPrefixes(d, x, y, k - 1);
    }
  }

  /** NDCG is 1 exactly when the ten top gains are, position for position, those of the ideal order. */
  lemma OneExactlyForIdealGains(d: nat -> real, qrels: map<Doc, int>, raw: seq<Doc>)
    requires StrictDiscount(d) && GradedRelevance(qrels) != map[]
    ensures var relevant := GradedRelevance(qrels);
            Metric(d, qrels, raw) == Value(1.0) <==>
            Padded(relevant, ParseRanking(raw)) == Padded(relevant, IdealOrder(relevant))
  {
    var relevant, ranking := GradedRelevance(qrels), ParseRanking(raw);
    var ideal := IdealOrder(relevant);
    var x, y := Padded(relevant, ranking), Padded(relevant, ideal);
    DedupeExact(raw);
    IdealDcgPositive(d, qrels);
    IdealDcgIsLargest(d, relevant, ideal, ranking);
    DcgSign(d, relevant, ranking);
    QuotientInUnitInterval(Dcg(d, relevant, ranking), Dcg(d, relevant, ideal));
    DcgOverTenTerms(d, relevant, ranking);
    DcgOverTenTerms(d, relevant, ideal);
    var doc :| doc in relevant;
    assert doc in qrels;
    if Dcg(d, relevant, ranking) == Dcg(d, relevant, ideal) {
      forall j: nat | j <= DEPTH ensures Prefix(x, j) <= Prefix(y, j) {
        IdealPrefixesDominate(relevant, ideal, ranking, j);
      }
      EqualSumsMeanEqualPrefixes(d, x, y, DEPTH);
      forall i: nat | i < DEPTH ensures x[i] == y[i] {
        assert Prefix(x, i + 1) == Prefix(y, i + 1) && Prefix(x, i) == Prefix(y, i);
      }
    }
  }

  // ------------------------------------------------------------------ the numbers

  /** The gain is exponential: one grade more gains twice as much and one, whatever the judgements, and a
      document without a positive grade gains nothing. */
  lemma GainDoubles(qrels: map<Doc, int>, doc: Doc, others: map<Doc, int>, better: Doc)
    requires doc in qrels && qrels[doc] >= 0 && better in others && others[better] == qrels[doc] + 1
    ensures Gain(GradedRelevance(others), better) == 2.0 * Gain(GradedRelevance(qrels), doc) + 1.0
    ensures forall other :: other !in qrels || qrels[other] <= 0 ==> Gain(GradedRelevance(qrels), other) == 0.0
  {
    var grade: nat, next: nat := qrels[doc], others[better];
    Pow2Grows(0, grade);
    assert Pow2(next) == 2 * Pow2(next - 1);
  }

  /** The ranking holds each named document once, at the place of its first mention. */
  lemma RankingKeepsFirstMention(raw: seq<Doc>, n: nat)
    requires n <= |raw|
    ensures Distinct(ParseRanking(raw)) && forall doc :: doc in ParseRanking(raw) <==> doc in raw
    ensures ParseRanking(raw[..n]) <= ParseRanking(raw)
  {
    DedupeExact(raw);
    DedupeInOrder(raw, n);
  }

  /** The discounted sum rank by rank: each of the first ten ranks adds its discount times the gain of its
      document, and no later rank adds anything. */
  lemma EachRankAdds(d: nat -> real, relevant: map<Doc, nat>, docs: seq<Doc>, k: nat)
    requires k < |docs|
    ensures Dcg(d, relevant, []) == 0.0
    ensures Dcg(d, relevant, docs[..k + 1]) ==
            Dcg(d, relevant, docs[..k]) + (if k < 10 then Times(d(k), Gain(relevant, docs[k])) else 0.0)
  {
    var fewer, more := Padded(relevant, docs[..k]), Padded(relevant, docs[..k + 1]);
    DcgOverTenTerms(d, relevant, docs[..k]);
    DcgOverTenTerms(d, relevant, docs[..k + 1]);
    if k < DEPTH {
      assert fewer[..k] == more[..k];
      DiscountedCongruent(d, fewer, more, k);
      DiscountedZeros(d, fewer, k, DEPTH);
      DiscountedZeros(d, more, k + 1, DEPTH);
    } else {
      assert fewer == more;
    }
  }

  lemma DcgOfTwo(d: nat -> real, relevant: map<Doc, nat>, x: Doc, y: Doc)
    ensures Dcg(d, relevant, [x, y]) == Times(d(0), Gain(relevant, x)) + Times(d(1), Gain(relevant, y))
  {
    EachRankAdds(d, relevant, [x, y], 0);
    EachRankAdds(d, relevant, [x, y], 1);
    assert [x, y][..0] == [] && [x, y][..2] == [x, y];
  }

  lemma RankingOfTwo(x: Doc, y: Doc)
    requires x != y
    ensures ParseRanking([x, y]) == [x, y]
  {
    assert [x, y][..1] == [x] && [x][..0] == [];
    assert Dedupe([x]) == [x];
  }

  lemma IdealOfTwo(relevant: map<Doc, nat>, a: Doc, b: Doc)
    requires a != b && relevant.Keys == {a, b} && relevant[b] < relevant[a]
    ensures IdealOrder(relevant) == [a, b]
  {
    var docs := IdealOrder(relevant);
    assert Elements(docs) == {a, b} by {
      forall doc ensures doc in Elements(docs) <==> doc in {a, b} { assert doc in docs <==> doc in relevant; }
    }
    DistinctCardinality(docs);
    assert |docs| == 2 && docs[0] in docs && docs[1] in docs;
  }

  lemma GainsOfThreeAndOne(relevant: map<Doc, nat>, a: Doc, b: Doc)
    requires a in relevant && relevant[a] == 3 && b in relevant && relevant[b] == 1
    ensures Gain(relevant, a) == 7.0 && Gain(relevant, b) == 1.0
  {
    assert Pow2(0) == 1 && Pow2(1) == 2 && Pow2(2) == 4 && Pow2(3) == 8;
  }

  /** Two documents of grades 3 and 1: in the right order they score 1, and exchanged they score
      (d0 + 7 d1) / (7 d0 + d1). */
  lemma ExchangedPairScore(d: nat -> real, a: Doc, b: Doc)
    requires ValidDiscount(d) && a != b
    ensures 7.0 * d(0) + d(1) > 0.0
    ensures Metric(d, map[a := 3, b := 1], [a, b]) == Value(1.0)
    ensures Metric(d, map[a := 3, b := 1], [b, a]) == Value((d(0) + 7.0 * d(1)) / (7.0 * d(0) + d(1)))
  {
    var qrels: map<Doc, int> := map[a := 3, b := 1];
    var relevant := GradedRelevance(qrels);
    assert d(0) > 0.0 && d(1) > 0.0;
    assert relevant.Keys == {a, b} && a in relevant;
    RankingOfTwo(a, b);
    RankingOfTwo(b, a);
    IdealOfTwo(relevant, a, b);
    GainsOfThreeAndOne(relevant, a, b);
    DcgOfTwo(d, relevant, a, b);
    DcgOfTwo(d, relevant, b, a);
    QuotientInUnitInterval(7.0 * d(0) + d(1), 7.0 * d(0) + d(1));
  }

  /** Precision and recall at a cutoff count the relevant documents among the first ones. */
  lemma CutoffFiguresCount(relevant: map<Doc, nat>, raw: seq<Doc>, cutoff: nat)
    requires relevant != map[] && cutoff > 0
    ensures var ranking := ParseRanking(raw);
            var selected := if cutoff <= |ranking| then ranking[..cutoff] else ranking;
            var found := |Elements(selected) * relevant.Keys| as real;
            && Times(cutoff as real, PrecisionAt(relevant, ranking, cutoff)) == found
            && Times(|relevant| as real, RecallAt(relevant, ranking, cutoff)) == found
  {
    var ranking := ParseRanking(raw);
    var selected := Top(ranking, cutoff);
    DedupeExact(raw);
    HitsCountDocuments(relevant, selected);
    DivideBack(cutoff as real, Hits(relevant, selected) as real);
    DivideBack(|relevant| as real, Hits(relevant, selected) as real);
  }

  lemma ShareReachesMin(hits: nat, n: nat, r: nat)
    requires hits <= n && hits <= r && r > 0
    ensures hits as real / r as real == Min(1.0, n as real / r as real) <==> hits == n || hits == r
  {
    var x, y, z := hits as real, n as real, r as real;
    DivideBack(z, x);
    DivideBack(z, y);
    TimesOrder(z, y / z, 1.0);
    assert Times(z, 1.0) == z;
  }

  /** Everything the run found is the most it could have: recall over the whole ranking reaches the published
      ceiling exactly when every ranked document is relevant or every relevant one is ranked. */
  lemma CeilingReachedIff(relevant: map<Doc, nat>, raw: seq<Doc>)
    requires relevant != map[]
    ensures var ranking := ParseRanking(raw);
            RecallAt(relevant, ranking, |ranking|) == RecallCeiling(relevant, ranking) <==>
            || (forall i :: 0 <= i < |ranking| ==> ranking[i] in relevant)
            || (forall doc :: doc in relevant ==> doc in ranking)
  {
    var ranking := ParseRanking(raw);
    DedupeExact(raw);
    assert Top(ranking, |ranking|) == ranking;
    HitsBounds(relevant, ranking);
    AllHitsIff(relevant, ranking);
    EveryHitIff(relevant, ranking);
    ShareReachesMin(Hits(relevant, ranking), |ranking|, |relevant|);
  }

  /** The sum of (j + 1) / ranks[j] over the first `k` ranks. */
  ghost function RankShares(ranks: seq<nat>, k: nat): real
    requires k <= |ranks| && forall j :: 0 <= j < |ranks| ==> ranks[j] > 0
  {
    if k == 0 then 0.0 else RankShares(ranks, k - 1) + k as real / ranks[k - 1] as real
  }

  /** `ranks` are the ranks, counted from 1 and ascending, of the relevant documents among the first `k`. */
  ghost predicate RelevantRanks(relevant: map<Doc, nat>, ranking: seq<Doc>, k: nat, ranks: seq<nat>)
    requires k <= |ranking|
  {
    && (forall i, j :: 0 <= i < j < |ranks| ==> ranks[i] < ranks[j])
    && (forall j :: 0 <= j < |ranks| ==> 1 <= ranks[j] <= k && ranking[ranks[j] - 1] in relevant)
    && (forall i :: 0 <= i < k && ranking[i] in relevant ==> i + 1 in ranks)
  }

  lemma {:induction false} SharesOfFirst(ranks: seq<nat>, more: seq<nat>, k: nat)
    requires k <= |ranks| && ranks <= more && forall j :: 0 <= j < |more| ==> more[j] > 0
    requires forall j :: 0 <= j < |ranks| ==> ranks[j] > 0
    ensures RankShares(ranks, k) == RankShares(more, k)
  {
    if k > 0 { SharesOfFirst(ranks, more, k - 1); }
  }

  lemma OneMoreRank(relevant: map<Doc, nat>, ranking: seq<Doc>, k: nat, before: seq<nat>, ranks: seq<nat>)
    requires 0 < k <= |ranking| && RelevantRanks(relevant, ranking, k - 1, before)
    requires ranks == if ranking[k - 1] in relevant then before + [k] else before
    ensures RelevantRanks(relevant, ranking, k, ranks)
  {
    if ranking[k - 1] in relevant { assert ranks[|before|] == k; }
    forall i | 0 <= i < k && ranking[i] in relevant ensures i + 1 in ranks {
      if i < k - 1 { assert i + 1 in before; }
    }
  }

  lemma SharesOfOneMore(before: seq<nat>, k: nat)
    requires k > 0 && forall j :: 0 <= j < |before| ==> before[j] > 0
    ensures RankShares(before + [k], |before| + 1) ==
            RankShares(before, |before|) + (|before| + 1) as real / k as real
  {
    var longer := before + [k];
    SharesOfFirst(before, longer, |before|);
    assert longer[|before|] == k;
  }

  lemma PrecisionSumStep(relevant: map<Doc, nat>, ranking: seq<Doc>, k: nat, before: nat)
    requires 0 < k <= |ranking| && before == Hits(relevant, ranking[..k - 1])
    ensures var hit := ranking[k - 1] in relevant;
            && Hits(relevant, ranking[..k]) == before + (if hit then 1 else 0)
            && PrecisionSum(relevant, ranking, k) ==
               PrecisionSum(relevant, ranking, k - 1) + (if hit then (before + 1) as real / k as real else 0.0)
  {
    assert ranking[..k] == ranking[..k - 1] + [ranking[k - 1]];
    HitsExtend(relevant, ranking[..k - 1], ranking[k - 1]);
  }

  lemma {:induction false} PrecisionSumByRanks(relevant: map<Doc, nat>, ranking: seq<Doc>, k: nat)
    returns (ranks: seq<nat>)
    requires k <= |ranking|
    ensures RelevantRanks(relevant, ranking, k, ranks) && |ranks| == Hits(relevant, ranking[..k])
    ensures PrecisionSum(relevant, ranking, k) == RankShares(ranks, |ranks|)
  {
    if k == 0 {
      ranks := [];
    } else {
      var before := PrecisionSumByRanks(relevant, ranking, k - 1);
      PrecisionSumStep(relevant, ranking, k, |before|);
      if ranking[k - 1] in relevant {
        ranks := before + [k];
        SharesOfOneMore(before, k);
      } else {
        ranks := before;
      }
      OneMoreRank(relevant, ranking, k, before, ranks);
    }
  }

  /** Average precision told from the ranks of the relevant documents: the j-th of them, at rank r, adds j / r,
      and the sum is divided by the number of all relevant documents. */
  lemma AveragePrecisionByRanks(relevant: map<Doc, nat>, ranking: seq<Doc>) returns (ranks: seq<nat>)
    requires relevant != map[]
    ensures RelevantRanks(relevant, ranking, |ranking|, ranks)
    ensures AveragePrecision(relevant, ranking) == RankShares(ranks, |ranks|) / |relevant| as real
  {
    ranks := PrecisionSumByRanks(relevant, ranking, |ranking|);
  }
}

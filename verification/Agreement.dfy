/** The ratings of two raters, as the agreement figures line them up. */
module Ratings {

  function Zip<T>(human: seq<T>, judge: seq<T>): seq<(T, T)>
    requires |human| == |judge|
  {
    if human == [] then [] else [(human[0], judge[0])] + Zip(human[1..], judge[1..])
  }

  lemma {:induction false} ZipAligned<T>(human: seq<T>, judge: seq<T>)
    requires |human| == |judge|
    ensures |Zip(human, judge)| == |human|
    ensures forall i :: 0 <= i < |human| ==> Zip(human, judge)[i] == (human[i], judge[i])
  {
    if human != [] { ZipAligned(human[1..], judge[1..]); }
  }

  /** Both ratings of every pair, in order. */
  function Flatten<T>(pairs: seq<(T, T)>): seq<T> {
    if pairs == [] then [] else [pairs[0].0, pairs[0].1] + Flatten(pairs[1..])
  }

  lemma FlattenRest<T>(pairs: seq<(T, T)>)
    requires pairs != []
    ensures var values := Flatten(pairs);
            values[0] == pairs[0].0 && values[1..][0] == pairs[0].1 && values[1..][1..] == Flatten(pairs[1..])
  {}
}

/** Krippendorff's alpha for two raters, nominal and interval-difference ("ordinal") variants. */
module OrdinalAgreement {
  import opened Ratings
  import opened Reals

  datatype Outcome = Misaligned | Undefined | Alpha(value: real)

  function PairGaps(pairs: seq<(real, real)>): real {
    if pairs == [] then 0.0 else Square(pairs[0].0 - pairs[0].1) + PairGaps(pairs[1..])
  }

  function GapsFrom(a: real, values: seq<real>): real {
    if values == [] then 0.0 else Square(a - values[0]) + GapsFrom(a, values[1..])
  }

  function AllGaps(xs: seq<real>, values: seq<real>): real {
    if xs == [] then 0.0 else GapsFrom(xs[0], values) + AllGaps(xs[1..], values)
  }

  function Observed(pairs: seq<(real, real)>): real
    requires pairs != []
  {
    PairGaps(pairs) / |pairs| as real
  }

  /** Mean squared difference over all ordered pairs of values, each value with itself included. */
  function Expected(values: seq<real>): real
    requires values != []
  {
    AllGaps(values, values) / (|values| * |values|) as real
  }

  ghost predicate TwoDistinct<T(!new)>(values: seq<T>) {
    exists i, j :: 0 <= i < j < |values| && values[i] != values[j]
  }

  ghost function Compute(human: seq<real>, judge: seq<real>): Outcome {
    if |human| != |judge| then Misaligned
    else
      var pairs := Zip(human, judge);
      var values := Flatten(pairs);
      if !TwoDistinct(values) then Undefined
      else if Expected(values) <= 0.0 then Undefined
      else Alpha(1.0 - Observed(pairs) / Expected(values))
  }

  // ------------------------------------------------------------------ sums

  function Total(values: seq<real>): real {
    if values == [] then 0.0 else values[0] + Total(values[1..])
  }

  function Squares(values: seq<real>): real {
    if values == [] then 0.0 else Square(values[0]) + Squares(values[1..])
  }

  /** One sum per pair. */
  function PairSums(pairs: seq<(real, real)>): seq<real> {
    if pairs == [] then [] else [pairs[0].0 + pairs[0].1] + PairSums(pairs[1..])
  }

  lemma {:induction false} SizesAndTotals(pairs: seq<(real, real)>)
    ensures |Flatten(pairs)| == 2 * |pairs| && |PairSums(pairs)| == |pairs|
    ensures Total(PairSums(pairs)) == Total(Flatten(pairs))
    ensures PairGaps(pairs) == 2.0 * Squares(Flatten(pairs)) - Squares(PairSums(pairs))
  {
    if pairs != [] {
      var (a, b) := pairs[0];
      SizesAndTotals(pairs[1..]);
      SquareOfDifference(a, b);
    }
  }

  lemma {:induction false} GapsFromClosed(a: real, values: seq<real>)
    ensures GapsFrom(a, values)
         == Times(|values| as real, Square(a)) - 2.0 * Times(a, Total(values)) + Squares(values)
  {
    if values != [] {
      GapsFromClosed(a, values[1..]);
      SquareOfDifference(a, values[0]);
      Distribute(a, values[0], Total(values[1..]));
      OneMore(|values[1..]|, Square(a));
    }
  }

  lemma OneMore(n: nat, x: real)
    ensures Times((n + 1) as real, x) == Times(n as real, x) + x
  {}

  lemma {:induction false} AllGapsClosed(xs: seq<real>, values: seq<real>)
    ensures AllGaps(xs, values)
         == Times(|values| as real, Squares(xs))
            - 2.0 * Times(Total(xs), Total(values)) + Times(|xs| as real, Squares(values))
  {
    if xs != [] {
      AllGapsClosed(xs[1..], values);
      GapsFromClosed(xs[0], values);
      Distribute(|values| as real, Square(xs[0]), Squares(xs[1..]));
      DistributeLeft(xs[0], Total(xs[1..]), Total(values));
      OneMore(|xs[1..]|, Squares(values));
    }
  }

  lemma DistributeLeft(a: real, b: real, d: real)
    ensures Times(a + b, d) == Times(a, d) + Times(b, d)
  {}

  /** Cauchy-Schwarz against the all-ones vector: the square of a sum is at most the number of terms
      times the sum of their squares. */
  lemma {:induction false} SquareOfSumBound(s: seq<real>)
    ensures Square(Total(s)) <= Times(|s| as real, Squares(s))
    ensures Squares(s) >= 0.0
  {
    if s != [] {
      SquareOfSumBound(s[1..]);
      SquarePositive(s[0]);
      AddOneTerm(|s[1..]|, s[0], Total(s[1..]), Squares(s[1..]));
    }
  }

  lemma AddOneTerm(k: nat, x: real, t: real, q: real)
    requires Square(t) <= Times(k as real, q) && q >= 0.0
    ensures Square(x + t) <= Times((k + 1) as real, Square(x) + q)
  {
    SquareOfDifference(x, t);
    OneMore(k, Square(x) + q);
    Distribute(k as real, Square(x), q);
    CrossTermBound(k, x, t, q);
  }

  /** 2xt <= q + kx^2 whenever t^2 <= kq. */
  lemma CrossTermBound(k: nat, x: real, t: real, q: real)
    requires Square(t) <= Times(k as real, q) && q >= 0.0
    ensures 2.0 * Times(x, t) <= q + Times(k as real, Square(x))
  {
    var c := k as real;
    if k == 0 {
      SquarePositive(t);
      assert t == 0.0;
      assert Times(x, 0.0) == 0.0;
    } else {
      SquareOfDifference(t, Times(c, x));
      SquarePositive(t - Times(c, x));
      assert Square(Times(c, x)) == Times(c, Times(c, Square(x)));
      assert Times(t, Times(c, x)) == Times(c, Times(x, t));
      Distribute(c, q, Times(c, Square(x)));
      Distribute(c, Times(x, t), Times(x, t));
      TimesOrder(c, 2.0 * Times(x, t), q + Times(c, Square(x)));
    }
  }

  // ------------------------------------------------------------------ the main results

  /** Observed disagreement is at most twice the expected one. */
  lemma {:induction false} ObservedAtMostTwiceExpected(pairs: seq<(real, real)>)
    requires pairs != []
    ensures |Flatten(pairs)| == 2 * |pairs|
    ensures Observed(pairs) <= 2.0 * Expected(Flatten(pairs))
  {
    var values, sums, c := Flatten(pairs), PairSums(pairs), |pairs| as real;
    var q, r, t := Squares(values), Squares(sums), Total(values);
    SizesAndTotals(pairs);
    AllGapsClosed(values, values);
    SquareOfSumBound(sums);
    CompareMeans(PairGaps(pairs), AllGaps(values, values), |pairs|);
  }

  lemma CompareMeans(gaps: real, all: real, count: nat)
    requires count > 0 && all >= 2.0 * Times(count as real, gaps)
    ensures gaps / count as real <= 2.0 * (all / (2 * count * (2 * count)) as real)
  {
    var c := count as real;
    var n := (2 * count * (2 * count)) as real;
    assert n == 4.0 * Square(c);
    SquarePositive(c);
    DivideBack(c, gaps);
    var x := gaps / c;
    assert Times(n, x) == 4.0 * Times(c, Times(c, x));
    DivideBack(n, all);
    assert Times(n, 2.0 * (all / n)) == 2.0 * all;
    TimesOrder(n, x, 2.0 * (all / n));
  }

  lemma {:induction false} GapsNonNegative(pairs: seq<(real, real)>)
    ensures PairGaps(pairs) >= 0.0
    ensures PairGaps(pairs) == 0.0 <==> forall i :: 0 <= i < |pairs| ==> pairs[i].0 == pairs[i].1
  {
    if pairs != [] {
      GapsNonNegative(pairs[1..]);
      SquarePositive(pairs[0].0 - pairs[0].1);
      if pairs[0].0 == pairs[0].1 && (forall i :: 0 <= i < |pairs[1..]| ==> pairs[1..][i].0 == pairs[1..][i].1) {
        forall i | 0 <= i < |pairs| ensures pairs[i].0 == pairs[i].1 {
          if i > 0 { assert pairs[i] == pairs[1..][i - 1]; }
        }
      }
      if forall i :: 0 <= i < |pairs| ==> pairs[i].0 == pairs[i].1 {
        assert forall i :: 0 <= i < |pairs[1..]| ==> pairs[1..][i] == pairs[i + 1];
      }
    }
  }

  lemma {:induction false} GapsFromPositive(a: real, values: seq<real>)
    ensures GapsFrom(a, values) >= 0.0
    ensures (exists j :: 0 <= j < |values| && values[j] != a) ==> GapsFrom(a, values) > 0.0
  {
    if values != [] {
      GapsFromPositive(a, values[1..]);
      SquarePositive(a - values[0]);
      if j :| 0 <= j < |values| && values[j] != a {
        if j > 0 { assert values[1..][j - 1] != a; }
      }
    }
  }

  lemma {:induction false} AllGapsPositive(xs: seq<real>, values: seq<real>)
    ensures AllGaps(xs, values) >= 0.0
    ensures (exists i, j :: 0 <= i < |xs| && 0 <= j < |values| && xs[i] != values[j]) ==> AllGaps(xs, values) > 0.0
  {
    if xs != [] {
      AllGapsPositive(xs[1..], values);
      GapsFromPositive(xs[0], values);
      if i, j :| 0 <= i < |xs| && 0 <= j < |values| && xs[i] != values[j] {
        if i > 0 { assert xs[1..][i - 1] != values[j]; }
      }
    }
  }

  /** Two distinct values make the expected disagreement strictly positive. */
  lemma ExpectedPositive(values: seq<real>)
    requires TwoDistinct(values)
    ensures Expected(values) > 0.0
  {
    AllGapsPositive(values, values);
    var n := (|values| * |values|) as real;
    assert |values| * |values| > 0;
    DivideMonotone(0.0, AllGaps(values, values), n);
    DivideBack(n, AllGaps(values, values));
    assert Times(n, 0.0) == 0.0;
  }

  lemma QuotientBounds(observed: real, expected: real)
    requires 0.0 <= observed <= 2.0 * expected && expected > 0.0
    ensures 0.0 <= observed / expected <= 2.0
    ensures observed / expected == 0.0 <==> observed == 0.0
  {
    DivideBack(expected, observed);
    TimesOrder(expected, observed / expected, 2.0);
    TimesOrder(expected, 0.0, observed / expected);
    assert Times(expected, 0.0) == 0.0 && Times(expected, 2.0) == 2.0 * expected;
  }

  lemma {:induction false} AlphaOfPairs(pairs: seq<(real, real)>)
    requires pairs != [] && TwoDistinct(Flatten(pairs))
    ensures Expected(Flatten(pairs)) > 0.0
    ensures var alpha := 1.0 - Observed(pairs) / Expected(Flatten(pairs));
            && -1.0 <= alpha <= 1.0
            && (alpha == 1.0 <==> forall i :: 0 <= i < |pairs| ==> pairs[i].0 == pairs[i].1)
  {
    ExpectedPositive(Flatten(pairs));
    ObservedAtMostTwiceExpected(pairs);
    GapsNonNegative(pairs);
    MeanSign(PairGaps(pairs), |pairs|);
    QuotientBounds(Observed(pairs), Expected(Flatten(pairs)));
  }

  lemma MeanSign(total: real, count: nat)
    requires total >= 0.0 && count > 0
    ensures total / count as real >= 0.0
    ensures total / count as real == 0.0 <==> total == 0.0
  {
    DivideMonotone(0.0, total, count as real);
    DivideBack(count as real, total);
    assert Times(count as real, 0.0) == 0.0;
  }

  /** On aligned ratings alpha is defined exactly when two values differ, so the guard on the
      expected disagreement never fires; it then lies in [-1, 1] and is 1 exactly when every pair agrees. */
  lemma {:induction false} AlphaInRange(human: seq<real>, judge: seq<real>)
    requires |human| == |judge|
    ensures var outcome := Compute(human, judge);
            && (outcome.Alpha? <==> TwoDistinct(Flatten(Zip(human, judge))))
            && (outcome.Alpha? ==> -1.0 <= outcome.value <= 1.0)
            && (outcome.Alpha? ==> (outcome.value == 1.0 <==> human == judge))
  {
    var pairs := Zip(human, judge);
    ZipAligned(human, judge);
    if TwoDistinct(Flatten(pairs)) {
      AlphaOfPairs(pairs);
      assert human == judge <==> forall i :: 0 <= i < |pairs| ==> pairs[i].0 == pairs[i].1;
    }
  }

  // ------------------------------------------------------------------ the value

  function Products(human: seq<real>, judge: seq<real>): real
    requires |human| == |judge|
  {
    if human == [] then 0.0 else Times(human[0], judge[0]) + Products(human[1..], judge[1..])
  }

  lemma {:induction false} SumsOfRatings(human: seq<real>, judge: seq<real>)
    requires |human| == |judge|
    ensures var pairs := Zip(human, judge);
            && |pairs| == |human|
            && Total(Flatten(pairs)) == Total(human) + Total(judge)
            && Squares(Flatten(pairs)) == Squares(human) + Squares(judge)
            && PairGaps(pairs) == Squares(human) + Squares(judge) - 2.0 * Products(human, judge)
  {
    if human != [] {
      SumsOfRatings(human[1..], judge[1..]);
      FlattenRest(Zip(human, judge));
      SquareOfDifference(human[0], judge[0]);
    }
  }

  /** From the two means to the sums they are means of. */
  lemma RatioOfMeans(observed: real, expected: real, ratio: real, c: real, gaps: real, all: real)
    requires Times(expected, ratio) == observed
    requires Times(c, observed) == gaps && Times(4.0 * Square(c), expected) == all
    ensures Times(ratio, all / 2.0) == Times(2.0 * c, gaps)
  {
    var n := 4.0 * Square(c);
    calc {
      Times(ratio, all / 2.0);
      Times(ratio, Times(n, expected) / 2.0);
      Times(n, Times(expected, ratio)) / 2.0;
      2.0 * Times(Square(c), observed);
      2.0 * Times(c, Times(c, observed));
      Times(2.0 * c, gaps);
    }
  }

  lemma SumPositive(c: real, expected: real, all: real)
    requires c > 0.0 && expected > 0.0 && Times(4.0 * Square(c), expected) == all
    ensures all > 0.0
  {
    TimesPositive(c, c);
    TimesPositive(4.0 * Square(c), expected);
  }

  lemma SquareOfDouble(n: nat, count: nat)
    requires n == 2 * count
    ensures (n * n) as real == 4.0 * Square(count as real) == Square(n as real)
  {
    assert n * n == 4 * (count * count);
    assert Square(count as real) == (count * count) as real;
  }

  lemma HalfOfAllGaps(values: seq<real>, n: real, s: real, t: real)
    requires n == |values| as real && s == Squares(values) && t == Total(values)
    ensures AllGaps(values, values) / 2.0 == Times(n, s) - Square(t)
  {
    AllGapsClosed(values, values);
  }

  lemma ExpectedTimes(values: seq<real>, count: nat)
    requires |values| == 2 * count && count > 0
    ensures Times(4.0 * Square(count as real), Expected(values)) == AllGaps(values, values)
  {
    SquareOfDouble(|values|, count);
    SquarePositive(count as real);
    DivideBack(4.0 * Square(count as real), AllGaps(values, values));
  }

  lemma ObservedTimes(pairs: seq<(real, real)>)
    requires pairs != []
    ensures Times(|pairs| as real, Observed(pairs)) == PairGaps(pairs)
  {
    DivideBack(|pairs| as real, PairGaps(pairs));
  }

  /** One minus the value is the quotient of the two means. */
  lemma MeansOf(human: seq<real>, judge: seq<real>) returns (observed: real, expected: real)
    requires Compute(human, judge).Alpha?
    ensures |human| == |judge| > 0 && |Flatten(Zip(human, judge))| == 2 * |human|
    ensures expected > 0.0 && Times(expected, 1.0 - Compute(human, judge).value) == observed
    ensures Times(|human| as real, observed) == PairGaps(Zip(human, judge))
    ensures var values := Flatten(Zip(human, judge));
            Times(4.0 * Square(|human| as real), expected) == AllGaps(values, values)
  {
    var pairs := Zip(human, judge);
    var values := Flatten(pairs);
    ZipAligned(human, judge);
    SizesAndTotals(pairs);
    observed, expected := Observed(pairs), Expected(values);
    DivideBack(expected, observed);
    ObservedTimes(pairs);
    ExpectedTimes(values, |pairs|);
  }

  /** The value in closed form: with N = 2n ratings of sum t and sum of squares s, one minus alpha, times
      N s - t^2, which is positive, is N times the sum of the squared differences of the pairs. */
  ghost predicate IsAlphaOf(alpha: real, human: seq<real>, judge: seq<real>)
    requires |human| == |judge|
  {
    var n, s, t := 2.0 * |human| as real, Squares(human) + Squares(judge), Total(human) + Total(judge);
    && Times(n, s) - Square(t) > 0.0
    && Times(1.0 - alpha, Times(n, s) - Square(t)) == Times(n, s - 2.0 * Products(human, judge))
  }

  lemma GapsOfRatings(human: seq<real>, judge: seq<real>, values: seq<real>, n: real, s: real, t: real)
    requires |human| == |judge| && values == Flatten(Zip(human, judge)) && |values| == 2 * |human|
    requires n == 2.0 * |human| as real
    requires s == Squares(human) + Squares(judge) && t == Total(human) + Total(judge)
    ensures PairGaps(Zip(human, judge)) == s - 2.0 * Products(human, judge)
    ensures AllGaps(values, values) / 2.0 == Times(n, s) - Square(t)
  {
    SumsOfRatings(human, judge);
    HalfOfAllGaps(values, n, s, t);
  }

  lemma ClosedForm(alpha: real, human: seq<real>, judge: seq<real>, observed: real, expected: real,
                   gaps: real, all: real)
    requires |human| == |judge|
    requires expected > 0.0 && Times(expected, 1.0 - alpha) == observed
    requires |human| > 0 && Times(|human| as real, observed) == gaps
    requires Times(4.0 * Square(|human| as real), expected) == all
    requires gaps == Squares(human) + Squares(judge) - 2.0 * Products(human, judge)
    requires var n, s, t := 2.0 * |human| as real, Squares(human) + Squares(judge), Total(human) + Total(judge);
             all / 2.0 == Times(n, s) - Square(t)
    ensures IsAlphaOf(alpha, human, judge)
  {
    RatioOfMeans(observed, expected, 1.0 - alpha, |human| as real, gaps, all);
    SumPositive(|human| as real, expected, all);
  }

  /** Whenever alpha is defined, that is its value. */
  lemma AlphaFormula(human: seq<real>, judge: seq<real>)
    requires Compute(human, judge).Alpha?
    ensures |human| == |judge| && IsAlphaOf(Compute(human, judge).value, human, judge)
  {
    var observed, expected := MeansOf(human, judge);
    var values := Flatten(Zip(human, judge));
    GapsOfRatings(human, judge, values, 2.0 * |human| as real, Squares(human) + Squares(judge),
                  Total(human) + Total(judge));
    ClosedForm(Compute(human, judge).value, human, judge, observed, expected, PairGaps(Zip(human, judge)),
               AllGaps(values, values));
  }

  /** The lower bound is reached: a single pair that disagrees. */
  lemma SingleDisagreement(x: real, y: real)
    requires x != y
    ensures Compute([x], [y]) == Alpha(-1.0)
  {
    var pairs, values, gap := [(x, y)], [x, y], Square(x - y);
    ZipAligned([x], [y]);
    assert Zip([x], [y]) == pairs && pairs[1..] == [];
    FlattenRest(pairs);
    assert Flatten(pairs) == values;
    assert values[0] != values[1];
    SquarePositive(x - y);
    GapsOfTwo(x, y);
    assert |values| * |values| == 4;
    DivideOut(4.0, gap / 2.0, 2.0 * gap);
    assert Expected(values) == gap / 2.0 && TwoDistinct(values);
    assert PairGaps(pairs) == gap && Observed(pairs) == gap;
    DivideOut(gap / 2.0, 2.0, gap);
  }

  lemma GapsOfTwo(x: real, y: real)
    ensures AllGaps([x, y], [x, y]) == 2.0 * Square(x - y)
  {
    var values := [x, y];
    assert x - x == 0.0 && y - y == 0.0 && Square(0.0) == 0.0;
    SquareNegated(x - y);
    assert -(x - y) == y - x;
    GapsFromTwo(x, x, y);
    GapsFromTwo(y, x, y);
    assert values[1..] == [y] && [y][1..] == [];
    assert AllGaps([y], values) == GapsFrom(y, values);
  }

  lemma GapsFromTwo(a: real, x: real, y: real)
    ensures GapsFrom(a, [x, y]) == Square(a - x) + Square(a - y)
  {
    assert [x, y][1..] == [y] && [y][1..] == [];
    assert GapsFrom(a, [y]) == Square(a - y);
  }
}

module NominalAgreement {
  import opened Ratings
  import opened Reals
  import opened Sequences
  import O = OrdinalAgreement

  datatype Label = Label(text: string)

  function Mismatches(pairs: seq<(Label, Label)>): nat {
    if pairs == [] then 0 else (if pairs[0].0 != pairs[0].1 then 1 else 0) + Mismatches(pairs[1..])
  }

  function Occurrences(values: seq<Label>, x: Label): nat {
    multiset(values)[x]
  }

  /** Sum over the categories of the squared marginal share. */
  function SquaredShares(categories: seq<Label>, values: seq<Label>): real
    requires values != []
  {
    if categories == [] then 0.0
    else Square(Occurrences(values, categories[0]) as real / |values| as real) + SquaredShares(categories[1..], values)
  }

  function Observed(pairs: seq<(Label, Label)>): real
    requires pairs != []
  {
    Mismatches(pairs) as real / |pairs| as real
  }

  function Expected(values: seq<Label>): real
    requires values != []
  {
    1.0 - SquaredShares(Dedupe(values), values)
  }

  function Compute(human: seq<Label>, judge: seq<Label>): O.Outcome {
    if |human| != |judge| then O.Misaligned
    else
      var pairs := Zip(human, judge);
      var values := Flatten(pairs);
      if |Dedupe(values)| < 2 then O.Undefined
      else if Expected(values) <= 0.0 then O.Undefined
      else O.Alpha(1.0 - Observed(pairs) / Expected(values))
  }

  // ------------------------------------------------------------------ counting unequal pairs of values

  /** How many ordered pairs (i, j) with x in `xs` and y in `values` carry different labels. */
  function Unequal(xs: seq<Label>, values: seq<Label>): nat {
    if xs == [] then 0 else (|values| - Occurrences(values, xs[0])) + Unequal(xs[1..], values)
  }

  function EqualCount(xs: seq<Label>, values: seq<Label>): nat {
    if xs == [] then 0 else Occurrences(values, xs[0]) + EqualCount(xs[1..], values)
  }

  /** Sum over the categories of occurrences in `xs` times occurrences in `values`. */
  function CategorySum(categories: seq<Label>, xs: seq<Label>, values: seq<Label>): nat {
    if categories == [] then 0
    else Occurrences(xs, categories[0]) * Occurrences(values, categories[0]) + CategorySum(categories[1..], xs, values)
  }

  lemma OccurrencesBound(values: seq<Label>, x: Label)
    ensures Occurrences(values, x) <= |values|
  {
    assert multiset(values) >= multiset{}[x := multiset(values)[x]];
    assert |multiset{}[x := multiset(values)[x]]| == multiset(values)[x];
    var m := multiset{}[x := multiset(values)[x]];
    assert multiset(values) == m + (multiset(values) - m);
  }

  lemma TwoLabelsBound(values: seq<Label>, a: Label, b: Label)
    requires a != b
    ensures Occurrences(values, a) + Occurrences(values, b) <= |values|
  {
    var m := multiset{}[a := multiset(values)[a]][b := multiset(values)[b]];
    assert multiset(values) == m + (multiset(values) - m);
  }

  lemma {:induction false} CategorySumAddsOne(categories: seq<Label>, x: Label, rest: seq<Label>, values: seq<Label>)
    requires Distinct(categories)
    ensures CategorySum(categories, [x] + rest, values)
         == CategorySum(categories, rest, values) + (if x in categories then Occurrences(values, x) else 0)
  {
    assert multiset([x] + rest) == multiset{x} + multiset(rest);
    if categories != [] {
      var c := categories[0];
      assert categories == [c] + categories[1..];
      CategorySumAddsOne(categories[1..], x, rest, values);
      if c == x {
        assert x !in categories[1..];
        OneMoreTimes(Occurrences(rest, x), Occurrences(values, x));
      }
    }
  }

  lemma {:induction false} CategorySumCountsEqualPairs(categories: seq<Label>, xs: seq<Label>, values: seq<Label>)
    requires Distinct(categories) && forall x :: x in xs ==> x in categories
    ensures CategorySum(categories, xs, values) == EqualCount(xs, values)
  {
    if xs == [] {
      EmptyCategorySum(categories, values);
    } else {
      assert xs == [xs[0]] + xs[1..];
      CategorySumCountsEqualPairs(categories, xs[1..], values);
      CategorySumAddsOne(categories, xs[0], xs[1..], values);
    }
  }

  lemma {:induction false} EmptyCategorySum(categories: seq<Label>, values: seq<Label>)
    ensures CategorySum(categories, [], values) == 0
  {
    if categories != [] { EmptyCategorySum(categories[1..], values); }
  }

  lemma {:induction false} UnequalIsTheRest(xs: seq<Label>, values: seq<Label>)
    ensures Unequal(xs, values) + EqualCount(xs, values) == |xs| * |values|
  {
    if xs != [] {
      UnequalIsTheRest(xs[1..], values);
      OccurrencesBound(values, xs[0]);
      OneMoreTimes(|xs[1..]|, |values|);
    }
  }

  lemma {:induction false} SquaredSharesAsCount(categories: seq<Label>, values: seq<Label>)
    requires values != []
    ensures SquaredShares(categories, values)
         == CategorySum(categories, values, values) as real / (|values| * |values|) as real
  {
    if categories != [] {
      SquaredSharesAsCount(categories[1..], values);
      var k := Occurrences(values, categories[0]);
      SquareOfQuotient(k, |values|);
      DivideSum((k * k) as real, CategorySum(categories[1..], values, values) as real, (|values| * |values|) as real);
    }
  }

  lemma SquareOfQuotient(k: nat, n: nat)
    requires n > 0
    ensures Square(k as real / n as real) == (k * k) as real / (n * n) as real
  {
    var c, x := n as real, k as real / n as real;
    DivideBack(c, k as real);
    assert Times((n * n) as real, Square(x)) == Times(Times(c, x), Times(c, x));
    DivideOut((n * n) as real, Square(x), (k * k) as real);
  }

  lemma ShareOfTheRest(part: nat, rest: nat, total: nat)
    requires rest + part == total && total > 0
    ensures 1.0 - part as real / total as real == rest as real / total as real
  {
    DivideSum(total as real, part as real, total as real);
    DivideOut(total as real, 1.0, total as real);
  }

  /** Expected disagreement is the share of ordered pairs of values that differ. */
  lemma {:induction false} ExpectedCountsUnequalPairs(values: seq<Label>)
    requires values != []
    ensures Expected(values) == Unequal(values, values) as real / (|values| * |values|) as real
  {
    var categories := Dedupe(values);
    DedupeExact(values);
    CategorySumCountsEqualPairs(categories, values, values);
    SquaredSharesAsCount(categories, values);
    UnequalIsTheRest(values, values);
    ShareOfTheRest(EqualCount(values, values), Unequal(values, values), |values| * |values|);
  }

  lemma UnequalOfPair(pairs: seq<(Label, Label)>, values: seq<Label>)
    requires pairs != []
    ensures Unequal(Flatten(pairs), values)
         == (|values| - Occurrences(values, pairs[0].0)) + (|values| - Occurrences(values, pairs[0].1))
            + Unequal(Flatten(pairs[1..]), values)
  {
    FlattenRest(pairs);
  }

  /** Every value differs from one side of a mismatched pair or from the other. */
  lemma {:induction false} MismatchesForceUnequalPairs(pairs: seq<(Label, Label)>, values: seq<Label>)
    ensures Unequal(Flatten(pairs), values) >= Mismatches(pairs) * |values|
  {
    if pairs != [] {
      var (a, b) := pairs[0];
      MismatchesForceUnequalPairs(pairs[1..], values);
      UnequalOfPair(pairs, values);
      OccurrencesBound(values, a);
      OccurrencesBound(values, b);
      if a != b {
        TwoLabelsBound(values, a, b);
        OneMoreTimes(Mismatches(pairs[1..]), |values|);
      }
    }
  }

  lemma {:induction false} FlattenShape(pairs: seq<(Label, Label)>)
    ensures |Flatten(pairs)| == 2 * |pairs|
    ensures Mismatches(pairs) == 0 <==> forall i :: 0 <= i < |pairs| ==> pairs[i].0 == pairs[i].1
  {
    if pairs != [] {
      FlattenShape(pairs[1..]);
      assert forall i :: 0 < i < |pairs| ==> pairs[i] == pairs[1..][i - 1];
      assert forall i :: 0 <= i < |pairs[1..]| ==> pairs[1..][i] == pairs[i + 1];
    }
  }

  lemma {:induction false} UnequalIncludes(xs: seq<Label>, values: seq<Label>, x: Label)
    requires x in xs
    ensures Unequal(xs, values) >= |values| - Occurrences(values, x)
  {
    assert xs == [xs[0]] + xs[1..];
    OccurrencesBound(values, xs[0]);
    if x != xs[0] { UnequalIncludes(xs[1..], values, x); }
  }

  /** Two categories make the expected disagreement strictly positive. */
  lemma UnequalPositive(values: seq<Label>)
    requires |Dedupe(values)| >= 2
    ensures Unequal(values, values) > 0
  {
    DedupeExact(values);
    var a, b := Dedupe(values)[0], Dedupe(values)[1];
    assert a in values && b in values;
    UnequalIncludes(values, values, a);
    TwoLabelsBound(values, a, b);
    assert b in multiset(values);
  }

  lemma CompareShares(mismatches: nat, unequal: nat, count: nat)
    requires count > 0 && unequal >= mismatches * (2 * count)
    ensures mismatches as real / count as real <= 2.0 * (unequal as real / (2 * count * (2 * count)) as real)
  {
    assert Times(count as real, mismatches as real) == (count * mismatches) as real;
    O.CompareMeans(mismatches as real, unequal as real, count);
  }

  lemma {:induction false} AlphaOfPairs(pairs: seq<(Label, Label)>)
    requires pairs != [] && |Dedupe(Flatten(pairs))| >= 2
    ensures Expected(Flatten(pairs)) > 0.0
    ensures var alpha := 1.0 - Observed(pairs) / Expected(Flatten(pairs));
            && -1.0 <= alpha <= 1.0
            && (alpha == 1.0 <==> forall i :: 0 <= i < |pairs| ==> pairs[i].0 == pairs[i].1)
  {
    ExpectedPositive(Flatten(pairs));
    ObservedAtMostTwiceExpected(pairs);
    FlattenShape(pairs);
    O.MeanSign(Mismatches(pairs) as real, |pairs|);
    O.QuotientBounds(Observed(pairs), Expected(Flatten(pairs)));
  }

  lemma ExpectedPositive(values: seq<Label>)
    requires |Dedupe(values)| >= 2
    ensures values != [] && Expected(values) > 0.0
  {
    ExpectedCountsUnequalPairs(values);
    UnequalPositive(values);
    assert |values| * |values| > 0;
    O.MeanSign(Unequal(values, values) as real, |values| * |values|);
  }

  lemma {:induction false} ObservedAtMostTwiceExpected(pairs: seq<(Label, Label)>)
    requires pairs != []
    ensures |Flatten(pairs)| == 2 * |pairs|
    ensures Observed(pairs) <= 2.0 * Expected(Flatten(pairs))
  {
    var values := Flatten(pairs);
    FlattenShape(pairs);
    ExpectedCountsUnequalPairs(values);
    MismatchesForceUnequalPairs(pairs, values);
    CompareShares(Mismatches(pairs), Unequal(values, values), |pairs|);
  }

  /** On aligned labels alpha is defined exactly when two labels occur, so the guard on the expected
      disagreement never fires; it then lies in [-1, 1] and is 1 exactly when every pair agrees. */
  lemma {:induction false} AlphaInRange(human: seq<Label>, judge: seq<Label>)
    requires |human| == |judge|
    ensures var outcome := Compute(human, judge);
            && (outcome.Alpha? <==> |Dedupe(Flatten(Zip(human, judge)))| >= 2)
            && (outcome.Alpha? ==> -1.0 <= outcome.value <= 1.0)
            && (outcome.Alpha? ==> (outcome.value == 1.0 <==> human == judge))
  {
    var pairs := Zip(human, judge);
    ZipAligned(human, judge);
    if |Dedupe(Flatten(pairs))| >= 2 {
      AlphaOfPairs(pairs);
      assert human == judge <==> forall i :: 0 <= i < |pairs| ==> pairs[i].0 == pairs[i].1;
    }
  }

  // ------------------------------------------------------------------ the value

  /** Sum over the categories of the squared number of ratings in them. */
  function SquaredCounts(categories: seq<Label>, ratings: multiset<Label>): nat {
    if categories == [] then 0
    else ratings[categories[0]] * ratings[categories[0]] + SquaredCounts(categories[1..], ratings)
  }

  /** The pairs that disagree. */
  ghost function Disagreements(human: seq<Label>, judge: seq<Label>): set<nat>
    requires |human| == |judge|
  {
    set i: nat | i < |human| && human[i] != judge[i]
  }

  lemma {:induction false} SquaredCountsAgree(categories: seq<Label>, values: seq<Label>)
    ensures CategorySum(categories, values, values) == SquaredCounts(categories, multiset(values))
  {
    if categories != [] { SquaredCountsAgree(categories[1..], values); }
  }

  lemma FirstRating(values: seq<Label>)
    requires values != []
    ensures multiset(values) == multiset{values[0]} + multiset(values[1..])
  {
    assert values == [values[0]] + values[1..];
  }

  lemma FirstPair(pairs: seq<(Label, Label)>)
    requires pairs != []
    ensures multiset(Flatten(pairs)) ==
            multiset{pairs[0].0} + multiset{pairs[0].1} + multiset(Flatten(pairs[1..]))
  {
    var values := Flatten(pairs);
    FlattenRest(pairs);
    FirstRating(values);
    FirstRating(values[1..]);
  }

  lemma {:induction false} RatingsOf(human: seq<Label>, judge: seq<Label>)
    requires |human| == |judge|
    ensures multiset(Flatten(Zip(human, judge))) == multiset(human) + multiset(judge)
  {
    if human != [] {
      RatingsOf(human[1..], judge[1..]);
      FirstRating(human);
      FirstRating(judge);
      FirstPair(Zip(human, judge));
      assert Zip(human, judge)[1..] == Zip(human[1..], judge[1..]);
    }
  }

  lemma {:induction false} MismatchesExtend(pairs: seq<(Label, Label)>, last: (Label, Label))
    ensures Mismatches(pairs + [last]) == Mismatches(pairs) + (if last.0 != last.1 then 1 else 0)
  {
    if pairs == [] {
      assert pairs + [last] == [last] && [last][1..] == [];
    } else {
      assert (pairs + [last])[1..] == pairs[1..] + [last];
      MismatchesExtend(pairs[1..], last);
    }
  }

  lemma {:induction false} MismatchesCount(human: seq<Label>, judge: seq<Label>)
    requires |human| == |judge|
    ensures Mismatches(Zip(human, judge)) == |Disagreements(human, judge)|
  {
    if human == [] {
      assert Disagreements(human, judge) == {};
    } else {
      var n := |human| - 1;
      var h, j := human[..n], judge[..n];
      MismatchesCount(h, j);
      ZipAligned(human, judge);
      ZipAligned(h, j);
      assert Zip(human, judge) == Zip(h, j) + [(human[n], judge[n])];
      MismatchesExtend(Zip(h, j), (human[n], judge[n]));
      OneMoreDisagreement(human, judge, n);
    }
  }

  lemma OneMoreDisagreement(human: seq<Label>, judge: seq<Label>, n: nat)
    requires |human| == |judge| == n + 1
    ensures |Disagreements(human, judge)| ==
            |Disagreements(human[..n], judge[..n])| + (if human[n] != judge[n] then 1 else 0)
  {
    assert Disagreements(human, judge) ==
           Disagreements(human[..n], judge[..n]) + (if human[n] != judge[n] then {n} else {});
  }

  lemma SameCategories(human: seq<Label>, judge: seq<Label>, categories: seq<Label>)
    requires |human| == |judge| && Distinct(categories)
    requires forall x :: x in categories <==> x in human || x in judge
    ensures var values := Flatten(Zip(human, judge));
            Unequal(values, values) + SquaredCounts(categories, multiset(human) + multiset(judge)) ==
            |values| * |values|
  {
    var values := Flatten(Zip(human, judge));
    RatingsOf(human, judge);
    forall x | x in values ensures x in categories {
      assert x in multiset(values);
      assert x in multiset(human) || x in multiset(judge);
    }
    CategorySumCountsEqualPairs(categories, values, values);
    SquaredCountsAgree(categories, values);
    UnequalIsTheRest(values, values);
  }

  lemma ExpectedTimes(values: seq<Label>, count: nat)
    requires |values| == 2 * count && count > 0
    ensures Times(4.0 * Square(count as real), Expected(values)) == Unequal(values, values) as real
  {
    ExpectedCountsUnequalPairs(values);
    O.SquareOfDouble(|values|, count);
    SquarePositive(count as real);
    DivideBack(4.0 * Square(count as real), Unequal(values, values) as real);
  }

  lemma ObservedTimes(pairs: seq<(Label, Label)>)
    requires pairs != []
    ensures Times(|pairs| as real, Observed(pairs)) == Mismatches(pairs) as real
  {
    DivideBack(|pairs| as real, Mismatches(pairs) as real);
  }

  lemma ValueTimes(human: seq<Label>, judge: seq<Label>, pairs: seq<(Label, Label)>, values: seq<Label>)
    requires Compute(human, judge).Alpha? && pairs == Zip(human, judge) && values == Flatten(pairs)
    ensures pairs != [] && values != [] && Expected(values) > 0.0
    ensures Times(Expected(values), 1.0 - Compute(human, judge).value) == Observed(pairs)
  {
    assert Dedupe<Label>([]) == [];
    DivideBack(Expected(values), Observed(pairs));
  }

  /** One minus the value is the quotient of the two means. */
  lemma MeansOf(human: seq<Label>, judge: seq<Label>) returns (observed: real, expected: real)
    requires Compute(human, judge).Alpha?
    ensures |human| == |judge| > 0 && |Flatten(Zip(human, judge))| == 2 * |human|
    ensures expected > 0.0 && Times(expected, 1.0 - Compute(human, judge).value) == observed
    ensures Times(|human| as real, observed) == |Disagreements(human, judge)| as real
    ensures var values := Flatten(Zip(human, judge));
            Times(4.0 * Square(|human| as real), expected) == Unequal(values, values) as real
  {
    var pairs := Zip(human, judge);
    var values := Flatten(pairs);
    ValueTimes(human, judge, pairs, values);
    observed, expected := Observed(pairs), Expected(values);
    ZipAligned(human, judge);
    FlattenShape(pairs);
    MismatchesCount(human, judge);
    ObservedTimes(pairs);
    ExpectedTimes(values, |pairs|);
  }

  /** The value in closed form: with N = 2n ratings, one minus alpha, times N^2 less the squared sizes of the
      categories, which is positive, is 2N times the number of pairs that disagree. */
  ghost predicate IsAlphaOf(alpha: real, human: seq<Label>, judge: seq<Label>, categories: seq<Label>)
    requires |human| == |judge|
  {
    var n, equal := 2.0 * |human| as real, SquaredCounts(categories, multiset(human) + multiset(judge)) as real;
    && Square(n) - equal > 0.0
    && Times(1.0 - alpha, Square(n) - equal) == 2.0 * Times(n, |Disagreements(human, judge)| as real)
  }

  lemma UnequalOfRatings(human: seq<Label>, judge: seq<Label>, categories: seq<Label>, values: seq<Label>)
    requires |human| == |judge| && Distinct(categories)
    requires forall x :: x in categories <==> x in human || x in judge
    requires values == Flatten(Zip(human, judge)) && |values| == 2 * |human|
    ensures var n, equal := 2.0 * |human| as real, SquaredCounts(categories, multiset(human) + multiset(judge)) as real;
            Unequal(values, values) as real == Square(n) - equal
  {
    SameCategories(human, judge, categories);
    O.SquareOfDouble(|values|, |human|);
    assert |values| as real == 2.0 * |human| as real;
  }

  lemma ClosedForm(alpha: real, human: seq<Label>, judge: seq<Label>, categories: seq<Label>,
                   observed: real, expected: real, unequal: real)
    requires |human| == |judge|
    requires expected > 0.0 && Times(expected, 1.0 - alpha) == observed
    requires |human| > 0 && Times(|human| as real, observed) == |Disagreements(human, judge)| as real
    requires Times(4.0 * Square(|human| as real), expected) == unequal
    requires unequal ==
             Square(2.0 * |human| as real) - SquaredCounts(categories, multiset(human) + multiset(judge)) as real
    ensures IsAlphaOf(alpha, human, judge, categories)
  {
    var c, mismatches := |human| as real, |Disagreements(human, judge)| as real;
    O.RatioOfMeans(observed, expected, 1.0 - alpha, c, mismatches, unequal);
    O.SumPositive(c, expected, unequal);
    Distribute(1.0 - alpha, unequal / 2.0, unequal / 2.0);
  }

  /** Whenever alpha is defined, that is its value. */
  lemma AlphaFormula(human: seq<Label>, judge: seq<Label>, categories: seq<Label>)
    requires Compute(human, judge).Alpha? && Distinct(categories)
    requires forall x :: x in categories <==> x in human || x in judge
    ensures |human| == |judge| && IsAlphaOf(Compute(human, judge).value, human, judge, categories)
  {
    var observed, expected := MeansOf(human, judge);
    var values := Flatten(Zip(human, judge));
    UnequalOfRatings(human, judge, categories, values);
    ClosedForm(Compute(human, judge).value, human, judge, categories, observed, expected,
               Unequal(values, values) as real);
  }

  lemma TwoLabels(x: Label, y: Label)
    requires x != y
    ensures |Dedupe([x, y])| == 2 && Unequal([x, y], [x, y]) == 2
  {
    var values := [x, y];
    assert values[..1] == [x] && [x][..0] == [];
    assert Dedupe([x]) == [x] && Dedupe(values) == values;
    assert values[1..] == [y] && [y][1..] == [];
    assert Occurrences(values, x) == 1 && Occurrences(values, y) == 1;
    assert Unequal([y], values) == 1;
  }

  /** The lower bound is reached: a single pair that disagrees. */
  lemma SingleDisagreement(x: Label, y: Label)
    requires x != y
    ensures Compute([x], [y]) == O.Alpha(-1.0)
  {
    var pairs, values := [(x, y)], [x, y];
    ZipAligned([x], [y]);
    assert Zip([x], [y]) == pairs;
    assert pairs[1..] == [] && Flatten(pairs) == values;
    TwoLabels(x, y);
    ExpectedCountsUnequalPairs(values);
    assert Expected(values) == 0.5;
    assert Mismatches(pairs) == 1;
  }
}

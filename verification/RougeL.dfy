/** ROUGE-L without the external scorer: the two-row longest-common-subsequence table and the
    precision, recall and F measure drawn from it. */
module RougeL {
  import opened Reals

  type Token = string

  // ------------------------------------------------------------------ common subsequences

  ghost predicate IsSubsequence(c: seq<Token>, s: seq<Token>) {
    if c == [] then true
    else if s == [] then false
    else
      || (c[|c| - 1] == s[|s| - 1] && IsSubsequence(c[..|c| - 1], s[..|s| - 1]))
      || IsSubsequence(c, s[..|s| - 1])
  }

  ghost predicate IsCommon(c: seq<Token>, left: seq<Token>, right: seq<Token>) {
    IsSubsequence(c, left) && IsSubsequence(c, right)
  }

  ghost predicate IsLcsLength(n: nat, left: seq<Token>, right: seq<Token>) {
    && (exists c :: IsCommon(c, left, right) && |c| == n)
    && (forall c :: IsCommon(c, left, right) ==> |c| <= n)
  }

  lemma {:induction false} DropLast(c: seq<Token>, s: seq<Token>)
    requires IsSubsequence(c, s) && c != []
    ensures IsSubsequence(c[..|c| - 1], s)
    ensures s != [] && IsSubsequence(c[..|c| - 1], s[..|s| - 1])
    ensures |c| <= |s|
  {
    var shorter := s[..|s| - 1];
    if IsSubsequence(c, shorter) {
      DropLast(c, shorter);
    } else if |c| > 1 {
      DropLast(c[..|c| - 1], shorter);
    }
  }

  /** What a common subsequence of two non-empty sequences comes from, case by case of the table. */
  lemma CommonCases(c: seq<Token>, left: seq<Token>, right: seq<Token>)
    requires IsCommon(c, left, right) && c != []
    ensures left != [] && right != []
    ensures var l, r := left[..|left| - 1], right[..|right| - 1];
            if left[|left| - 1] == right[|right| - 1] then IsCommon(c[..|c| - 1], l, r)
            else IsCommon(c, l, right) || IsCommon(c, left, r)
  {
    DropLast(c, left);
    DropLast(c, right);
  }

  // ------------------------------------------------------------------ the table

  /** The entry of the table for the two prefixes, by the recurrence the loops use. */
  function Lcs(left: seq<Token>, right: seq<Token>): nat
    decreases |left| + |right|
  {
    if left == [] || right == [] then 0
    else
      var l, r := left[..|left| - 1], right[..|right| - 1];
      if left[|left| - 1] == right[|right| - 1] then Lcs(l, r) + 1
      else if Lcs(l, right) >= Lcs(left, r) then Lcs(l, right) else Lcs(left, r)
  }

  lemma {:induction false} NoneIsLonger(c: seq<Token>, left: seq<Token>, right: seq<Token>)
    requires IsCommon(c, left, right)
    ensures |c| <= Lcs(left, right)
    decreases |left| + |right|
  {
    if c != [] {
      CommonCases(c, left, right);
      var l, r := left[..|left| - 1], right[..|right| - 1];
      if left[|left| - 1] == right[|right| - 1] {
        NoneIsLonger(c[..|c| - 1], l, r);
      } else if IsCommon(c, l, right) {
        NoneIsLonger(c, l, right);
      } else {
        NoneIsLonger(c, left, r);
      }
    }
  }

  lemma {:induction false} OneIsThatLong(left: seq<Token>, right: seq<Token>) returns (c: seq<Token>)
    ensures IsCommon(c, left, right) && |c| == Lcs(left, right)
    decreases |left| + |right|
  {
    if left == [] || right == [] {
      c := [];
    } else {
      var l, r, last := left[..|left| - 1], right[..|right| - 1], left[|left| - 1];
      if last == right[|right| - 1] {
        var d := OneIsThatLong(l, r);
        c := d + [last];
        assert c[..|c| - 1] == d;
      } else if Lcs(l, right) >= Lcs(left, r) {
        c := OneIsThatLong(l, right);
        assert IsSubsequence(c, left);
      } else {
        c := OneIsThatLong(left, r);
        assert IsSubsequence(c, right);
      }
    }
  }

  /** The table entry is the length of a longest common subsequence, and nothing else is. */
  lemma LcsIsLongest(left: seq<Token>, right: seq<Token>)
    ensures IsLcsLength(Lcs(left, right), left, right)
    ensures forall n: nat :: IsLcsLength(n, left, right) ==> n == Lcs(left, right)
  {
    var c := OneIsThatLong(left, right);
    forall d | IsCommon(d, left, right) ensures |d| <= Lcs(left, right) {
      NoneIsLonger(d, left, right);
    }
  }

  /** Exchanging prediction and reference does not change it. */
  lemma {:induction false} LcsIsSymmetric(left: seq<Token>, right: seq<Token>)
    ensures Lcs(left, right) == Lcs(right, left)
  {
    var c := OneIsThatLong(left, right);
    var d := OneIsThatLong(right, left);
    NoneIsLonger(c, right, left);
    NoneIsLonger(d, left, right);
  }

  // ------------------------------------------------------------------ the two-row loop

  /** Row `i` of the table: entries for the first `i` tokens of `left` and each prefix of `right`. */
  ghost predicate IsRow(row: seq<nat>, left: seq<Token>, i: nat, right: seq<Token>)
    requires i <= |left|
  {
    |row| == |right| + 1 && forall j :: 0 <= j <= |right| ==> row[j] == Lcs(left[..i], right[..j])
  }

  lemma TableStep(left: seq<Token>, right: seq<Token>, i: nat, j: nat)
    requires i < |left| && j < |right|
    ensures Lcs(left[..i + 1], right[..j + 1]) ==
            if left[i] == right[j] then Lcs(left[..i], right[..j]) + 1
            else if Lcs(left[..i], right[..j + 1]) >= Lcs(left[..i + 1], right[..j])
            then Lcs(left[..i], right[..j + 1]) else Lcs(left[..i + 1], right[..j])
  {
    assert left[..i + 1][..i] == left[..i];
    assert right[..j + 1][..j] == right[..j];
  }

  method LcsLength(left: seq<Token>, right: seq<Token>) returns (length: nat)
    ensures IsLcsLength(length, left, right)
    ensures length == Lcs(left, right)
  {
    var previous: seq<nat> := seq(|right| + 1, _ => 0);
    for i := 0 to |left|
      invariant IsRow(previous, left, i, right)
    {
      var current: seq<nat> := [0];
      for index := 1 to |right| + 1
        invariant |current| == index
        invariant forall j :: 0 <= j < index ==> current[j] == Lcs(left[..i + 1], right[..j])
      {
        TableStep(left, right, i, index - 1);
        var above, before := previous[index], current[index - 1];
        current := current + [
          if left[i] == right[index - 1] then previous[index - 1] + 1
          else if above >= before then above else before];
      }
      previous := current;
    }
    assert left[..|left|] == left && right[..|right|] == right;
    LcsIsLongest(left, right);
    length := previous[|right|];
  }

  // ------------------------------------------------------------------ precision, recall, F

  datatype Measures = Measures(precision: real, recall: real, fmeasure: real)

  function Prf(overlap: nat, predicted: nat, expected: nat): Measures {
    var precision := if predicted > 0 then overlap as real / predicted as real else 0.0;
    var recall := if expected > 0 then overlap as real / expected as real else 0.0;
    Measures(precision, recall,
             if precision + recall != 0.0 then 2.0 * precision * recall / (precision + recall) else 0.0)
  }

  lemma {:induction false} SubsequenceLength(c: seq<Token>, s: seq<Token>)
    requires IsSubsequence(c, s)
    ensures |c| <= |s|
    ensures |c| == |s| ==> c == s
    decreases |s|
  {
    if c != [] {
      DropLast(c, s);
      if |c| == |s| {
        var shorter := s[..|s| - 1];
        if IsSubsequence(c, shorter) { SubsequenceLength(c, shorter); }
        SubsequenceLength(c[..|c| - 1], shorter);
        assert c == c[..|c| - 1] + [c[|c| - 1]] && s == shorter + [s[|s| - 1]];
      }
    }
  }

  lemma {:induction false} SelfSubsequence(s: seq<Token>)
    ensures IsSubsequence(s, s)
  {
    if s != [] { SelfSubsequence(s[..|s| - 1]); }
  }

  /** The overlap is no longer than either text, and as long as both only for identical texts. */
  lemma {:induction false} LcsBounds(left: seq<Token>, right: seq<Token>)
    ensures Lcs(left, right) <= |left| && Lcs(left, right) <= |right|
    ensures Lcs(left, right) == |left| == |right| <==> left == right
  {
    var c := OneIsThatLong(left, right);
    SubsequenceLength(c, left);
    SubsequenceLength(c, right);
    if left == right {
      SelfSubsequence(left);
      NoneIsLonger(left, left, right);
    }
  }

  /** With p and r not both zero the F measure is twice the overlap over the total length. */
  lemma FMeasureAsDice(overlap: nat, predicted: nat, expected: nat)
    requires 0 < overlap <= predicted && overlap <= expected
    ensures Prf(overlap, predicted, expected).fmeasure == 2.0 * overlap as real / (predicted + expected) as real
  {
    var o, a, b := overlap as real, predicted as real, expected as real;
    var p, r := o / a, o / b;
    DivideBack(a, o);
    DivideBack(b, o);
    PositiveQuotient(o, a);
    PositiveQuotient(o, b);
    DiceIdentity(o, a, b, p, r);
  }

  lemma PositiveQuotient(x: real, y: real)
    requires x > 0.0 && y > 0.0
    ensures x / y > 0.0
  {
    DivideBack(y, x);
    TimesOrder(y, x / y, 0.0);
    assert Times(y, 0.0) == 0.0;
  }

  lemma DiceIdentity(o: real, a: real, b: real, p: real, r: real)
    requires o > 0.0 && a > 0.0 && b > 0.0 && p > 0.0 && r > 0.0
    requires Times(a, p) == o && Times(b, r) == o
    ensures 2.0 * p * r / (p + r) == 2.0 * o / (a + b)
  {
    var x := 2.0 * o / (a + b);
    DivideBack(a + b, 2.0 * o);
    assert Times(a + b, Times(p, r)) == Times(o, p + r);
    calc {
      Times(a + b, Times(p + r, x));
      Times(p + r, Times(a + b, x));
      Times(p + r, 2.0 * o);
      2.0 * Times(o, p + r);
      Times(a + b, 2.0 * Times(p, r));
    }
    DivideOut(a + b, Times(p + r, x), Times(a + b, 2.0 * Times(p, r)));
    DivideOut(a + b, 2.0 * Times(p, r), Times(a + b, 2.0 * Times(p, r)));
    DivideOut(p + r, x, 2.0 * p * r);
  }

  /** ROUGE-L of any two texts: all three figures lie in [0, 1], and F is 1 exactly for identical,
      non-empty token sequences. */
  lemma RougeLInUnitInterval(predicted: seq<Token>, expected: seq<Token>)
    ensures var m := Prf(Lcs(predicted, expected), |predicted|, |expected|);
            && 0.0 <= m.precision <= 1.0 && 0.0 <= m.recall <= 1.0 && 0.0 <= m.fmeasure <= 1.0
            && (m.fmeasure == 1.0 <==> predicted == expected && predicted != [])
  {
    var o, a, b := Lcs(predicted, expected), |predicted|, |expected|;
    LcsBounds(predicted, expected);
    if a > 0 { QuotientInUnitInterval(o as real, a as real); }
    if b > 0 { QuotientInUnitInterval(o as real, b as real); }
    if o > 0 {
      FMeasureAsDice(o, a, b);
      QuotientInUnitInterval(2.0 * o as real, (a + b) as real);
    } else {
      assert a > 0 ==> 0.0 / a as real == 0.0;
      assert b > 0 ==> 0.0 / b as real == 0.0;
    }
  }

  /** Precision is 1 exactly when the prediction is all kept in the reference, in order, and recall is 1
      exactly when the reference is all kept in the prediction. */
  lemma PerfectFiguresIff(predicted: seq<Token>, expected: seq<Token>)
    ensures var m := Prf(Lcs(predicted, expected), |predicted|, |expected|);
            && (m.precision == 1.0 <==> predicted != [] && IsSubsequence(predicted, expected))
            && (m.recall == 1.0 <==> expected != [] && IsSubsequence(expected, predicted))
  {
    FullOverlapIff(predicted, expected);
    FullOverlapIff(expected, predicted);
    LcsIsSymmetric(predicted, expected);
    LcsBounds(predicted, expected);
    if predicted != [] { QuotientInUnitInterval(Lcs(predicted, expected) as real, |predicted| as real); }
    if expected != [] { QuotientInUnitInterval(Lcs(predicted, expected) as real, |expected| as real); }
  }

  lemma {:induction false} SharedTokenCounts(t: Token, s: seq<Token>)
    ensures IsSubsequence([t], s) <==> t in s
  {
    if s != [] {
      SharedTokenCounts(t, s[..|s| - 1]);
      assert s == s[..|s| - 1] + [s[|s| - 1]];
      assert [t][..0] == [];
    }
  }

  lemma NoOverlapIff(left: seq<Token>, right: seq<Token>)
    ensures Lcs(left, right) == 0 <==> forall t :: t in left ==> t !in right
  {
    var c := OneIsThatLong(left, right);
    if c != [] {
      FirstTokenIsShared(c, left);
      FirstTokenIsShared(c, right);
    }
    if t :| t in left && t in right {
      SharedTokenCounts(t, left);
      SharedTokenCounts(t, right);
      NoneIsLonger([t], left, right);
    }
  }

  lemma {:induction false} FirstTokenIsShared(c: seq<Token>, s: seq<Token>)
    requires IsSubsequence(c, s) && c != []
    ensures c[0] in s
  {
    var shorter := s[..|s| - 1];
    assert s == shorter + [s[|s| - 1]];
    if IsSubsequence(c, shorter) {
      FirstTokenIsShared(c, shorter);
    } else if |c| > 1 {
      FirstTokenIsShared(c[..|c| - 1], shorter);
    }
  }

  /** All three figures are 0 exactly when the texts have no token in common; empty texts are such. */
  lemma ZeroFiguresIff(predicted: seq<Token>, expected: seq<Token>)
    ensures var m := Prf(Lcs(predicted, expected), |predicted|, |expected|);
            var apart := forall t :: t in predicted ==> t !in expected;
            && (m.precision == 0.0 <==> apart) && (m.recall == 0.0 <==> apart) && (m.fmeasure == 0.0 <==> apart)
  {
    var o, a, b := Lcs(predicted, expected), |predicted|, |expected|;
    NoOverlapIff(predicted, expected);
    LcsBounds(predicted, expected);
    if o > 0 {
      PositiveQuotient(o as real, a as real);
      PositiveQuotient(o as real, b as real);
      FMeasureAsDice(o, a, b);
      PositiveQuotient(2.0 * o as real, (a + b) as real);
    } else {
      assert a > 0 ==> 0.0 / a as real == 0.0;
      assert b > 0 ==> 0.0 / b as real == 0.0;
    }
  }

  lemma FullOverlapIff(left: seq<Token>, right: seq<Token>)
    ensures Lcs(left, right) == |left| <==> IsSubsequence(left, right)
  {
    var c := OneIsThatLong(left, right);
    SubsequenceLength(c, left);
    if IsSubsequence(left, right) {
      SelfSubsequence(left);
      NoneIsLonger(left, left, right);
    }
  }
}

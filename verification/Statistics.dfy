/** Benjamini-Hochberg step-up and the Wilson score interval, over the reals. */
module BenjaminiHochberg {
  import opened Reals
  import opened Sequences

  function PAt(p: seq<real>, i: nat): real {
    if i < |p| then p[i] else 0.0
  }

  function ByP(p: seq<real>): (nat, nat) -> bool {
    (i: nat, j: nat) => PAt(p, i) <= PAt(p, j)
  }

  function Indices(count: nat): seq<nat> {
    seq(count, i => i)
  }

  function Threshold(q: real, k: int, count: nat): real
    requires count > 0
  {
    q * (k as real) / (count as real)
  }

  /** The p-values at most `t`. */
  ghost function AtMost(p: seq<real>, t: real): set<nat> {
    set i: nat | i < |p| && p[i] <= t
  }

  /** The rule without any ordering: some threshold k admits `i`, and at least k p-values. */
  ghost predicate ShouldReject(p: seq<real>, q: real, i: nat)
    requires i < |p|
  {
    exists k :: 1 <= k <= |p| && AdmittedAt(p, q, k, i)
  }

  ghost predicate AdmittedAt(p: seq<real>, q: real, k: nat, i: nat)
    requires i < |p|
  {
    p[i] <= Threshold(q, k, |p|) && |AtMost(p, Threshold(q, k, |p|))| >= k
  }

  ghost predicate Ranks(p: seq<real>, order: seq<nat>) {
    && |order| == |p|
    && Distinct(order)
    && (forall i: nat :: i < |p| <==> i in order)
    && SortedBy(ByP(p), order)
  }

  lemma OrderRanks(p: seq<real>)
    ensures Ranks(p, Sort(ByP(p), Indices(|p|)))
  {
    var indices := Indices(|p|);
    assert TotalPreorder(ByP(p));
    SortSorts(ByP(p), indices);
    DistinctPermutation(indices, Sort(ByP(p), indices));
    forall i: nat ensures i < |p| <==> i in Sort(ByP(p), indices) {
      assert i < |p| ==> indices[i] == i;
      assert i in Elements(indices) <==> i in Elements(Sort(ByP(p), indices));
    }
  }

  /** At least r p-values are at most t exactly when the r-th smallest is. */
  lemma CountsByRank(p: seq<real>, order: seq<nat>, r: nat, t: real)
    requires Ranks(p, order) && 1 <= r <= |p|
    ensures |AtMost(p, t)| >= r <==> PAt(p, order[r - 1]) <= t
  {
    assert order[r - 1] in order;
    if PAt(p, order[r - 1]) <= t {
      forall i | i in order[..r] ensures i in AtMost(p, t) {
        var j :| 0 <= j < r && order[j] == i;
        assert i in order;
        assert j < r - 1 ==> ByP(p)(order[j], order[r - 1]);
      }
      DistinctCardinality(order[..r]);
      SubsetCardinality(Elements(order[..r]), AtMost(p, t));
    } else {
      assert forall j :: r - 1 < j < |order| ==> ByP(p)(order[r - 1], order[j]);
      forall i | i in AtMost(p, t) ensures i in order[..r - 1] {
        assert i in order;
        var j :| 0 <= j < |order| && order[j] == i;
        assert order[..r - 1][j] == i;
      }
      DistinctCardinality(order[..r - 1]);
      SubsetCardinality(AtMost(p, t), Elements(order[..r - 1]));
    }
  }

  lemma ThresholdGrows(q: real, j: nat, k: nat, count: nat)
    requires q >= 0.0 && j <= k && count > 0
    ensures Threshold(q, j, count) <= Threshold(q, k, count)
  {
    assert q * (j as real) <= q * (k as real);
    DivideMonotone(q * (j as real), q * (k as real), count as real);
  }

  /** The p-values at or under the first threshold, q / m. */
  ghost function UnderFirst(p: seq<real>, q: real): set<nat>
    requires p != []
  {
    AtMost(p, Threshold(q, 1, |p|))
  }

  /** When the procedure computes the order-free rule.  A negative level makes the thresholds fall with the
      rank; then every p-value under the first threshold must be under the one its number selects. */
  ghost predicate Sensible(p: seq<real>, q: real) {
    q >= 0.0 || p == [] ||
    forall i :: i in UnderFirst(p, q) ==> p[i] <= Threshold(q, |UnderFirst(p, q)|, |p|)
  }

  /** The r-th smallest p-value is under its own threshold. */
  predicate Passes(p: seq<real>, q: real, order: seq<nat>, r: nat)
    requires |order| == |p| && 1 <= r <= |p|
  {
    PAt(p, order[r - 1]) <= Threshold(q, r, |p|)
  }

  /** The last rank that passes, or -1. */
  ghost predicate IsCutoff(p: seq<real>, q: real, order: seq<nat>, cutoff: int)
    requires |order| == |p|
  {
    && (cutoff == -1 || (1 <= cutoff <= |p| && Passes(p, q, order, cutoff)))
    && forall s: nat :: 1 <= s <= |p| && Passes(p, q, order, s) ==> s <= cutoff
  }

  /** Rejected are the indices of the ranks up to the cutoff. */
  ghost predicate RejectedByRank(p: seq<real>, order: seq<nat>, cutoff: int, rejected: seq<bool>)
    requires |order| == |p| == |rejected|
  {
    forall j :: 0 <= j < |p| ==> order[j] < |p| && (rejected[order[j]] <==> j < cutoff)
  }

  /** The outcome of the procedure for some order of the ties. */
  ghost predicate IsStepUp(p: seq<real>, q: real, rejected: seq<bool>) {
    && |rejected| == |p|
    && exists order, cutoff ::
         Ranks(p, order) && IsCutoff(p, q, order, cutoff) && RejectedByRank(p, order, cutoff, rejected)
  }

  /** The rule rejects the index of rank r. */
  ghost predicate RuleRejectsRank(p: seq<real>, q: real, order: seq<nat>, r: nat)
    requires Ranks(p, order) && 1 <= r <= |p|
  {
    assert order[r - 1] in order;
    ShouldReject(p, q, order[r - 1])
  }

  lemma UnderCutoffIsRejected(p: seq<real>, q: real, order: seq<nat>, cutoff: nat, r: nat)
    requires Ranks(p, order) && 1 <= r <= cutoff <= |p| && Passes(p, q, order, cutoff)
    ensures RuleRejectsRank(p, q, order, r)
  {
    assert order[r - 1] in order;
    if r < cutoff { assert ByP(p)(order[r - 1], order[cutoff - 1]); }
    CountsByRank(p, order, cutoff, Threshold(q, cutoff, |p|));
    assert AdmittedAt(p, q, cutoff, order[r - 1]);
  }

  /** For a level that is not negative, rank r falls at or under the cutoff exactly when the rule rejects
      its index. */
  lemma RankDecides(p: seq<real>, q: real, order: seq<nat>, cutoff: int, r: nat)
    requires Ranks(p, order) && q >= 0.0 && 1 <= r <= |p| && IsCutoff(p, q, order, cutoff)
    ensures r <= cutoff <==> RuleRejectsRank(p, q, order, r)
  {
    var i := order[r - 1];
    assert i in order;
    if r <= cutoff { UnderCutoffIsRejected(p, q, order, cutoff, r); }
    if ShouldReject(p, q, i) {
      var k: nat :| 1 <= k <= |p| && AdmittedAt(p, q, k, i);
      CountsByRank(p, order, k, Threshold(q, k, |p|));
      assert Passes(p, q, order, k);
      if r > k {
        ThresholdGrows(q, k, r, |p|);
        assert Passes(p, q, order, r);
      }
    }
  }

  lemma ThresholdFalls(q: real, j: nat, k: nat, count: nat)
    requires q <= 0.0 && j <= k && count > 0
    ensures Threshold(q, k, count) <= Threshold(q, j, count)
  {
    assert q * (k as real) <= q * (j as real);
    DivideMonotone(q * (k as real), q * (j as real), count as real);
  }

  /** For a negative level the rule rejects exactly what is at or under the first threshold. */
  lemma RuleAtNegativeLevel(p: seq<real>, q: real, i: nat)
    requires q < 0.0 && i < |p|
    ensures ShouldReject(p, q, i) <==> i in UnderFirst(p, q)
  {
    if ShouldReject(p, q, i) {
      var k: nat :| 1 <= k <= |p| && AdmittedAt(p, q, k, i);
      ThresholdFalls(q, 1, k, |p|);
    }
    if i in UnderFirst(p, q) {
      SubsetCardinality({i}, UnderFirst(p, q));
      assert AdmittedAt(p, q, 1, i);
    }
  }

  /** The ranks of the p-values at or under a bound are the first ones. */
  lemma FirstRanks(p: seq<real>, order: seq<nat>, r: nat, t: real)
    requires Ranks(p, order) && 1 <= r <= |p|
    ensures order[r - 1] in AtMost(p, t) <==> r <= |AtMost(p, t)|
  {
    assert order[r - 1] in order;
    CountsByRank(p, order, r, t);
  }

  /** For a negative level the cutoff never passes the number of p-values under the first threshold, and it
      reaches it exactly in the sensible case. */
  lemma CutoffAtNegativeLevel(p: seq<real>, q: real, order: seq<nat>, cutoff: int)
    requires Ranks(p, order) && q < 0.0 && p != [] && IsCutoff(p, q, order, cutoff)
    ensures cutoff <= |UnderFirst(p, q)|
    ensures (cutoff == |UnderFirst(p, q)| || UnderFirst(p, q) == {}) <==> Sensible(p, q)
  {
    var n := |UnderFirst(p, q)|;
    if cutoff >= 1 {
      ThresholdFalls(q, 1, cutoff, |p|);
      FirstRanks(p, order, cutoff, Threshold(q, 1, |p|));
      assert order[cutoff - 1] in order;
    }
    if n > 0 {
      CountBound(p, Threshold(q, 1, |p|));
      SensibleIffRankPasses(p, q, order, n);
    }
  }

  lemma CountBound(p: seq<real>, t: real)
    ensures |AtMost(p, t)| <= |p|
  {
    var indices := Indices(|p|);
    DistinctCardinality(indices);
    forall i | i in AtMost(p, t) ensures i in Elements(indices) { assert indices[i] == i; }
    SubsetCardinality(AtMost(p, t), Elements(indices));
  }

  lemma SensibleIffRankPasses(p: seq<real>, q: real, order: seq<nat>, n: nat)
    requires Ranks(p, order) && q < 0.0 && p != [] && n == |UnderFirst(p, q)| && 1 <= n <= |p|
    ensures Passes(p, q, order, n) <==> Sensible(p, q)
  {
    var last := order[n - 1];
    assert last in order;
    FirstRanks(p, order, n, Threshold(q, 1, |p|));
    if Passes(p, q, order, n) {
      forall i | i in UnderFirst(p, q) ensures p[i] <= Threshold(q, n, |p|) {
        assert i in order;
        var j :| 0 <= j < |p| && order[j] == i;
        FirstRanks(p, order, j + 1, Threshold(q, 1, |p|));
        if j < n - 1 { assert ByP(p)(order[j], order[n - 1]); }
      }
    }
  }

  /** Exactly when the procedure computes the order-free rule, whatever order ties come in: the level is not
      negative, or every p-value under the first threshold is under the one their number selects. */
  lemma FollowsRuleIff(p: seq<real>, q: real, order: seq<nat>, cutoff: int)
    requires Ranks(p, order) && IsCutoff(p, q, order, cutoff)
    ensures (forall r: nat :: 1 <= r <= |p| ==> (r <= cutoff <==> RuleRejectsRank(p, q, order, r))) <==> Sensible(p, q)
  {
    if q >= 0.0 {
      forall r: nat | 1 <= r <= |p| ensures r <= cutoff <==> RuleRejectsRank(p, q, order, r) {
        RankDecides(p, q, order, cutoff, r);
      }
    } else if p != [] {
      var n := |UnderFirst(p, q)|;
      CutoffAtNegativeLevel(p, q, order, cutoff);
      forall r: nat | 1 <= r <= |p| ensures RuleRejectsRank(p, q, order, r) <==> r <= n {
        assert order[r - 1] in order;
        RuleAtNegativeLevel(p, q, order[r - 1]);
        FirstRanks(p, order, r, Threshold(q, 1, |p|));
      }
      CountBound(p, Threshold(q, 1, |p|));
      if n > 0 && cutoff < n { assert RuleRejectsRank(p, q, order, n) && !(n <= cutoff); }
    }
  }

  method FindCutoff(p: seq<real>, q: real, order: seq<nat>) returns (cutoff: int)
    requires Ranks(p, order)
    ensures IsCutoff(p, q, order, cutoff)
  {
    cutoff := -1;
    for rank := 1 to |p| + 1
      invariant cutoff == -1 || (1 <= cutoff < rank && Passes(p, q, order, cutoff))
      invariant forall s: nat :: 1 <= s < rank && Passes(p, q, order, s) ==> s <= cutoff
    {
      if Passes(p, q, order, rank) {
        cutoff := rank;
      }
    }
  }

  /** The step-up procedure, loop for loop: rejected are the ranks up to the last one that passes, which in
      the sensible case is what the order-free rule rejects. */
  method Run(p: seq<real>, q: real) returns (rejected: seq<bool>)
    ensures IsStepUp(p, q, rejected)
    ensures Sensible(p, q) ==> forall i: nat :: i < |p| ==> (rejected[i] <==> ShouldReject(p, q, i))
  {
    var order := Sort(ByP(p), Indices(|p|));
    OrderRanks(p);
    var cutoff := FindCutoff(p, q, order);
    rejected := seq(|p|, _ => false);
    for rank := 1 to |p| + 1
      invariant |rejected| == |p|
      invariant forall j :: 0 <= j < rank - 1 ==> order[j] < |p| && (rejected[order[j]] <==> j < cutoff)
    {
      var index := order[rank - 1];
      assert index in order;
      rejected := rejected[index := rank <= cutoff];
    }
    assert RejectedByRank(p, order, cutoff, rejected);
    if Sensible(p, q) { StepUpFollowsRule(p, q, order, cutoff, rejected); }
  }

  lemma StepUpFollowsRule(p: seq<real>, q: real, order: seq<nat>, cutoff: int, rejected: seq<bool>)
    requires Ranks(p, order) && IsCutoff(p, q, order, cutoff) && Sensible(p, q)
    requires |rejected| == |p| && RejectedByRank(p, order, cutoff, rejected)
    ensures forall i: nat :: i < |p| ==> (rejected[i] <==> ShouldReject(p, q, i))
  {
    FollowsRuleIff(p, q, order, cutoff);
    forall i: nat | i < |p| ensures rejected[i] <==> ShouldReject(p, q, i) {
      assert i in order;
      var j: nat :| j < |p| && order[j] == i;
      var r: nat := j + 1;
      assert r <= cutoff <==> RuleRejectsRank(p, q, order, r);
    }
  }

  /** The same rule without a division: with m hypotheses, i is rejected exactly when for some k no more than
      m both its p-value and at least k of all satisfy m p <= k q. */
  ghost predicate EnoughAt(p: seq<real>, q: real, k: nat, i: nat)
    requires i < |p|
  {
    && Times(|p| as real, p[i]) <= Times(k as real, q)
    && |set j: nat | j < |p| && Times(|p| as real, p[j]) <= Times(k as real, q)| >= k
  }

  lemma UnderThreshold(x: real, q: real, k: nat, count: nat)
    requires count > 0
    ensures x <= Threshold(q, k, count) <==> Times(count as real, x) <= Times(k as real, q)
  {
    DivideBack(count as real, q * (k as real));
    TimesOrder(count as real, x, Threshold(q, k, count));
  }

  lemma RejectedIff(p: seq<real>, q: real, i: nat)
    requires i < |p|
    ensures ShouldReject(p, q, i) <==> exists k: nat :: 1 <= k <= |p| && EnoughAt(p, q, k, i)
  {
    forall k: nat ensures AdmittedAt(p, q, k, i) <==> EnoughAt(p, q, k, i) {
      forall j: nat | j < |p|
        ensures p[j] <= Threshold(q, k, |p|) <==> Times(|p| as real, p[j]) <= Times(k as real, q)
      {
        UnderThreshold(p[j], q, k, |p|);
      }
      assert AtMost(p, Threshold(q, k, |p|)) ==
             set j: nat | j < |p| && Times(|p| as real, p[j]) <= Times(k as real, q);
    }
    if ShouldReject(p, q, i) {
      var k: nat :| 1 <= k <= |p| && AdmittedAt(p, q, k, i);
      assert EnoughAt(p, q, k, i);
    }
  }

  /** The two ends of the rule at a level that is not negative: what passes the Bonferroni bound q / m is
      rejected, what exceeds q is not, and all are rejected when none exceeds q. */
  lemma LevelEnds(p: seq<real>, q: real, i: nat)
    requires i < |p| && q >= 0.0
    ensures Times(|p| as real, p[i]) <= q ==> ShouldReject(p, q, i)
    ensures p[i] > q ==> !ShouldReject(p, q, i)
    ensures (forall j :: 0 <= j < |p| ==> p[j] <= q) ==> ShouldReject(p, q, i)
  {
    UnderThreshold(p[i], q, 1, |p|);
    assert Threshold(q, |p|, |p|) == q by { DivideOut(|p| as real, q, q * (|p| as real)); }
    if p[i] <= Threshold(q, 1, |p|) {
      SubsetCardinality({i}, AtMost(p, Threshold(q, 1, |p|)));
      assert AdmittedAt(p, q, 1, i);
    }
    if ShouldReject(p, q, i) {
      var k: nat :| 1 <= k <= |p| && AdmittedAt(p, q, k, i);
      ThresholdGrows(q, k, |p|, |p|);
    }
    if forall j :: 0 <= j < |p| ==> p[j] <= q {
      var indices := Indices(|p|);
      DistinctCardinality(indices);
      SubsetCardinality(Elements(indices), AtMost(p, q));
      assert AdmittedAt(p, q, |p|, i);
    }
  }

  lemma ThresholdGrowsWithLevel(q: real, q': real, k: nat, count: nat)
    requires q <= q' && count > 0
    ensures Threshold(q, k, count) <= Threshold(q', k, count)
  {
    assert q * (k as real) <= q' * (k as real);
    DivideMonotone(q * (k as real), q' * (k as real), count as real);
  }

  /** Raising the level or lowering p-values never loses a rejection. */
  lemma RejectionsGrow(p: seq<real>, q: real, p': seq<real>, q': real, i: nat)
    requires |p| == |p'| && i < |p| && q <= q'
    requires forall j :: 0 <= j < |p| ==> p'[j] <= p[j]
    requires ShouldReject(p, q, i)
    ensures ShouldReject(p', q', i)
  {
    var k: nat :| 1 <= k <= |p| && AdmittedAt(p, q, k, i);
    var t, t' := Threshold(q, k, |p|), Threshold(q', k, |p|);
    ThresholdGrowsWithLevel(q, q', k, |p|);
    SubsetCardinality(AtMost(p, t), AtMost(p', t'));
    assert AdmittedAt(p', q', k, i);
  }

  ghost predicate IsPermutation(to: seq<nat>, count: nat) {
    |to| == count && Distinct(to) && forall i :: 0 <= i < count ==> to[i] < count
  }

  /** Reordering the hypotheses reorders the verdicts: position never matters, ties included. */
  lemma CommutesWithPermutation(p: seq<real>, q: real, to: seq<nat>, i: nat)
    requires IsPermutation(to, |p|) && i < |p|
    ensures var moved := seq(|p|, j requires 0 <= j < |p| => PAt(p, to[j]));
            ShouldReject(moved, q, i) <==> ShouldReject(p, q, to[i])
  {
    var moved := seq(|p|, j requires 0 <= j < |p| => PAt(p, to[j]));
    forall k: nat | 1 <= k <= |p|
      ensures AdmittedAt(moved, q, k, i) <==> AdmittedAt(p, q, k, to[i])
    {
      CountUnderPermutation(p, to, moved, Threshold(q, k, |p|));
    }
  }

  lemma CountUnderPermutation(p: seq<real>, to: seq<nat>, moved: seq<real>, t: real)
    requires IsPermutation(to, |p|) && |moved| == |p|
    requires forall j :: 0 <= j < |p| ==> moved[j] == p[to[j]]
    ensures |AtMost(moved, t)| == |AtMost(p, t)|
  {
    PermutationIsOnto(to, |p|);
    forall x | x in AtMost(p, t) ensures exists i :: i in AtMost(moved, t) && i < |to| && to[i] == x {
      assert x in to;
      var i: nat :| i < |to| && to[i] == x;
      assert i in AtMost(moved, t);
    }
    ImageCardinality(AtMost(moved, t), to, AtMost(p, t));
  }

  lemma PermutationIsOnto(to: seq<nat>, count: nat)
    requires IsPermutation(to, count)
    ensures forall x: nat :: x < count ==> x in to
  {
    DistinctCardinality(to);
    DistinctCardinality(Indices(count));
    forall x: nat ensures x in Elements(Indices(count)) <==> x < count {
      if x < count { assert Indices(count)[x] == x; }
    }
    SubsetCardinality(Elements(to), Elements(Indices(count)));
    forall x: nat | x < count ensures x in to {
      assert x in Elements(Indices(count));
    }
  }

  lemma {:induction false} ImageCardinality(domain: set<nat>, to: seq<nat>, image: set<nat>)
    requires Distinct(to)
    requires forall i :: i in domain ==> i < |to| && to[i] in image
    requires forall x :: x in image ==> exists i :: i in domain && i < |to| && to[i] == x
    ensures |domain| == |image|
    decreases domain
  {
    if domain == {} {
      assert image == {};
    } else {
      var i :| i in domain;
      forall x | x in image - {to[i]} ensures exists j :: j in domain - {i} && j < |to| && to[j] == x {
        var j :| j in domain && j < |to| && to[j] == x;
        assert j in domain - {i};
      }
      ImageCardinality(domain - {i}, to, image - {to[i]});
    }
  }

  /** Outside the sensible inputs the order of ties decides: of two equal p-values at a negative level the
      procedure rejects the one ranked first, whichever that is, where the rule rejects both. */
  lemma NegativeLevelDependsOnTieOrder()
    ensures var p := [-0.6, -0.6];
            && IsStepUp(p, -1.0, [true, false]) && IsStepUp(p, -1.0, [false, true])
            && ShouldReject(p, -1.0, 0) && ShouldReject(p, -1.0, 1)
            && !Sensible(p, -1.0)
  {
    var p := [-0.6, -0.6];
    assert Threshold(-1.0, 1, 2) == -0.5 && Threshold(-1.0, 2, 2) == -1.0;
    assert UnderFirst(p, -1.0) == {0, 1} by { assert p[0] <= -0.5 && p[1] <= -0.5; }
    RuleAtNegativeLevel(p, -1.0, 0);
    RuleAtNegativeLevel(p, -1.0, 1);
    assert Ranks(p, [0, 1]) && IsCutoff(p, -1.0, [0, 1], 1) && RejectedByRank(p, [0, 1], 1, [true, false]);
    assert Ranks(p, [1, 0]) && IsCutoff(p, -1.0, [1, 0], 1) && RejectedByRank(p, [1, 0], 1, [false, true]);
  }
}

/** The Wilson interval.  `z` is the normal quantile and `r` the square root the code takes, given as
    a non-negative witness of its radicand. */
module Wilson {
  import opened Reals

  function Radicand(p: real, z: real, n: int): real
    requires n > 0
  {
    (p * (1.0 - p) + z * z / (4.0 * n as real)) / n as real
  }

  ghost predicate IsRoot(r: real, p: real, z: real, n: int)
    requires n > 0
  {
    r >= 0.0 && Square(r) == Radicand(p, z, n)
  }

  function Denominator(z: real, n: int): real
    requires n > 0
  {
    1.0 + z * z / n as real
  }

  /** The interval before clamping. */
  function Endpoints(p: real, z: real, r: real, n: int): (real, real)
    requires n > 0 && Denominator(z, n) != 0.0
  {
    var center := (p + z * z / (2.0 * n as real)) / Denominator(z, n);
    var margin := z * r / Denominator(z, n);
    (center - margin, center + margin)
  }

  function Interval(successes: int, n: int, z: real, r: real): (real, real) {
    if n <= 0 then (0.0, 0.0)
    else
      DenominatorPositive(z, n);
      var (low, high) := Endpoints(successes as real / n as real, z, r, n);
      (Max(0.0, low), Min(1.0, high))
  }

  // ------------------------------------------------------------------ in terms of k = z^2 / n

  function Weight(z: real, n: int): real
    requires n > 0
  {
    z * z / n as real
  }

  /** The variance of one Bernoulli trial with success probability x. */
  function Spread(x: real): real {
    Times(x, 1.0 - x)
  }

  /** The half-width `m` before dividing by 1 + k. */
  ghost predicate IsHalfWidth(m: real, p: real, k: real) {
    m >= 0.0 && Square(m) == Times(k, Spread(p)) + Square(k) / 4.0
  }

  /** The score test accepts a true proportion x for an observed proportion p: the squared distance is
      at most z^2 x (1 - x) / n. */
  ghost predicate ScoreAccepts(x: real, p: real, k: real) {
    Square(p - x) <= Times(k, Spread(x))
  }

  lemma WeightNonNegative(z: real, n: int)
    requires n > 0
    ensures Weight(z, n) >= 0.0
  {
    SquarePositive(z);
    DivideMonotone(0.0, Square(z), n as real);
  }

  lemma DenominatorPositive(z: real, n: int)
    requires n > 0
    ensures Denominator(z, n) == 1.0 + Weight(z, n) >= 1.0
  {
    WeightNonNegative(z, n);
  }

  lemma QuarterWeight(z: real, n: int)
    requires n > 0
    ensures z * z / (4.0 * n as real) == Weight(z, n) / 4.0
    ensures z * z / (2.0 * n as real) == Weight(z, n) / 2.0
  {}

  lemma ScaledRoot(p: real, z: real, r: real, n: int)
    requires n > 0 && z >= 0.0 && IsRoot(r, p, z, n)
    ensures IsHalfWidth(Times(z, r), p, Weight(z, n))
  {
    var k, c := Weight(z, n), n as real;
    var y := Spread(p) + k / 4.0;
    QuarterWeight(z, n);
    assert Square(r) == y / c;
    DivideBack(c, Square(z));
    DivideBack(c, y);
    TimesNonNegative(z, r);
    Regroup(z, r, k, c, Spread(p));
  }

  lemma Regroup(z: real, r: real, k: real, c: real, s: real)
    requires Times(c, k) == Square(z) && Times(c, Square(r)) == s + k / 4.0
    ensures Square(Times(z, r)) == Times(k, s) + Square(k) / 4.0
  {
    calc {
      Square(Times(z, r));
      (z * z) * (r * r);
      (c * k) * (r * r);
      k * (c * (r * r));
      k * (s + k / 4.0);
      Times(k, s) + Square(k) / 4.0;
    }
  }

  lemma HalfWidthSquared(p: real, k: real, m: real)
    requires IsHalfWidth(m, p, k)
    ensures Square(m) == Square(p + k / 2.0) - Times(1.0 + k, Square(p))
  {}

  lemma GapAsQuadratic(x: real, p: real, k: real)
    ensures Square(p - x) - Times(k, Spread(x))
         == Times(1.0 + k, Square(x)) - 2.0 * Times(p + k / 2.0, x) + Square(p)
  {}

  lemma QuadraticTimesLeading(d: real, c: real, x: real, s: real)
    ensures Square(Times(d, x) - c) - Square(c) + Times(d, s)
         == Times(d, Times(d, Square(x)) - 2.0 * Times(c, x) + s)
  {
    SquareOfDifference(Times(d, x), c);
    Distribute(d, Times(d, Square(x)) - 2.0 * Times(c, x), s);
    Distribute(d, Times(d, Square(x)), 2.0 * Times(c, x));
    assert Square(Times(d, x)) == Times(d, Times(d, Square(x)));
    assert Times(Times(d, x), c) == Times(d, Times(c, x));
  }

  lemma CompleteTheSquare(x: real, p: real, k: real, m: real)
    requires IsHalfWidth(m, p, k)
    ensures Square(Times(1.0 + k, x) - (p + k / 2.0)) - Square(m)
         == Times(1.0 + k, Square(p - x) - Times(k, Spread(x)))
  {
    HalfWidthSquared(p, k, m);
    GapAsQuadratic(x, p, k);
    QuadraticTimesLeading(1.0 + k, p + k / 2.0, x, Square(p));
  }

  lemma AcceptedIffWithin(x: real, p: real, k: real, m: real)
    requires k >= 0.0 && IsHalfWidth(m, p, k)
    ensures ScoreAccepts(x, p, k) <==> p + k / 2.0 - m <= Times(1.0 + k, x) <= p + k / 2.0 + m
  {
    var e, gap := Times(1.0 + k, x) - (p + k / 2.0), Square(p - x) - Times(k, Spread(x));
    CompleteTheSquare(x, p, k, m);
    TimesOrder(1.0 + k, gap, 0.0);
    assert Times(1.0 + k, 0.0) == 0.0;
    SquareOrder(e, m);
  }

  lemma EndpointsScaled(p: real, z: real, r: real, n: int)
    requires n > 0 && Denominator(z, n) > 0.0
    ensures var (low, high) := Endpoints(p, z, r, n); var d := Denominator(z, n);
            && Times(d, low) == p + Weight(z, n) / 2.0 - Times(z, r)
            && Times(d, high) == p + Weight(z, n) / 2.0 + Times(z, r)
  {
    var d, a, b := Denominator(z, n), p + z * z / (2.0 * n as real), z * r;
    QuarterWeight(z, n);
    DivideBack(d, a);
    DivideBack(d, b);
    Distribute(d, a / d, b / d);
  }

  /** The unclamped interval is exactly the set of proportions the score test accepts. */
  lemma {:induction false} InvertsTheScoreTest(x: real, p: real, z: real, r: real, n: int)
    requires n > 0 && z >= 0.0 && IsRoot(r, p, z, n)
    ensures Denominator(z, n) > 0.0
    ensures var (low, high) := Endpoints(p, z, r, n);
            low <= x <= high <==> ScoreAccepts(x, p, Weight(z, n))
  {
    DenominatorPositive(z, n);
    ScaledRoot(p, z, r, n);
    EndpointsScaled(p, z, r, n);
    var (low, high) := Endpoints(p, z, r, n);
    AcceptedIffWithin(x, p, Weight(z, n), Times(z, r));
    TimesOrder(Denominator(z, n), low, x);
    TimesOrder(Denominator(z, n), x, high);
  }

  lemma AcceptsItself(p: real, k: real)
    requires 0.0 <= p <= 1.0 && k >= 0.0
    ensures ScoreAccepts(p, p, k)
  {
    TimesNonNegative(p, 1.0 - p);
    TimesNonNegative(k, Spread(p));
    assert Square(p - p) == 0.0;
  }

  lemma AcceptedInUnitInterval(x: real, p: real, k: real)
    requires 0.0 <= p <= 1.0 && k >= 0.0 && ScoreAccepts(x, p, k)
    ensures 0.0 <= x <= 1.0
  {
    if x < 0.0 || x > 1.0 {
      NegativeSpread(x);
      SquarePositive(p - x);
      TimesNonNegative(k, -Spread(x));
      TimesNegated(k, Spread(x));
    }
  }

  lemma NegativeSpread(x: real)
    requires x < 0.0 || x > 1.0
    ensures Spread(x) < 0.0
  {
    if x < 0.0 {
      TimesPositive(-x, 1.0 - x);
      TimesNegated(x, 1.0 - x);
    } else {
      TimesPositive(x, x - 1.0);
      TimesNegated(x, x - 1.0);
      assert -(x - 1.0) == 1.0 - x;
    }
  }

  lemma ProportionRange(successes: int, n: int)
    requires 0 <= successes <= n && n > 0
    ensures 0.0 <= successes as real / n as real <= 1.0
  {}

  /** For a true sample the endpoints enclose the observed proportion and both clamps do nothing. */
  lemma ClampsAreNoOps(successes: int, n: int, z: real, r: real)
    requires 0 <= successes <= n && n > 0 && z >= 0.0
    requires IsRoot(r, successes as real / n as real, z, n)
    ensures var p := successes as real / n as real; var (low, high) := Interval(successes, n, z, r);
            && Denominator(z, n) > 0.0
            && (low, high) == Endpoints(p, z, r, n)
            && 0.0 <= low <= p <= high <= 1.0
  {
    var p, k := successes as real / n as real, Weight(z, n);
    ProportionRange(successes, n);
    EnclosedInUnitInterval(p, z, r, n);
  }

  /** Whatever the counts, no endpoint leaves the unit interval on its own side, and no sample has the empty
      interval at 0. */
  lemma AlwaysClamped(successes: int, n: int, z: real, r: real)
    ensures var (low, high) := Interval(successes, n, z, r);
            low >= 0.0 && high <= 1.0 && (n <= 0 ==> low == high == 0.0)
  {}

  lemma EnclosedInUnitInterval(p: real, z: real, r: real, n: int)
    requires n > 0 && z >= 0.0 && 0.0 <= p <= 1.0 && IsRoot(r, p, z, n)
    ensures Denominator(z, n) > 0.0
    ensures var (low, high) := Endpoints(p, z, r, n); 0.0 <= low <= p <= high <= 1.0
  {
    var k := Weight(z, n);
    WeightNonNegative(z, n);
    AcceptsItself(p, k);
    InvertsTheScoreTest(p, p, z, r, n);
    var (low, high) := Endpoints(p, z, r, n);
    InvertsTheScoreTest(low, p, z, r, n);
    InvertsTheScoreTest(high, p, z, r, n);
    AcceptedInUnitInterval(low, p, k);
    AcceptedInUnitInterval(high, p, k);
  }

  /** Swapping successes and failures mirrors the interval about one half. */
  lemma Mirrors(p: real, z: real, r: real, n: int)
    requires n > 0 && IsRoot(r, p, z, n)
    ensures IsRoot(r, 1.0 - p, z, n)
    ensures Denominator(z, n) > 0.0
    ensures var (low, high) := Endpoints(p, z, r, n); Endpoints(1.0 - p, z, r, n) == (1.0 - high, 1.0 - low)
  {
    DenominatorPositive(z, n);
    QuarterWeight(z, n);
    var d, h := Denominator(z, n), z * z / (2.0 * n as real);
    assert (1.0 - p) * (1.0 - (1.0 - p)) == p * (1.0 - p);
    assert 1.0 - p + h == d - (p + h);
    DivideSum(d, p + h, d);
    DivideOut(d, 1.0, d);
  }

  lemma FartherIsLarger(x: real, near: real, far: real)
    requires x <= near <= far || far <= near <= x
    ensures Square(near - x) <= Square(far - x)
  {
    var m := if far >= x then far - x else x - far;
    SquareNegated(far - x);
    SquareOrder(near - x, m);
  }

  /** More successes never lower either endpoint. */
  lemma EndpointsAreMonotone(p: real, q: real, z: real, r: real, t: real, n: int)
    requires n > 0 && z >= 0.0 && 0.0 <= p <= q <= 1.0
    requires IsRoot(r, p, z, n) && IsRoot(t, q, z, n)
    ensures Denominator(z, n) > 0.0
    ensures Endpoints(p, z, r, n).0 <= Endpoints(q, z, t, n).0
    ensures Endpoints(p, z, r, n).1 <= Endpoints(q, z, t, n).1
  {
    DenominatorPositive(z, n);
    EnclosedInUnitInterval(p, z, r, n);
    EnclosedInUnitInterval(q, z, t, n);
    var lowQ, highP := Endpoints(q, z, t, n).0, Endpoints(p, z, r, n).1;
    InvertsTheScoreTest(lowQ, q, z, t, n);
    InvertsTheScoreTest(lowQ, p, z, r, n);
    InvertsTheScoreTest(highP, p, z, r, n);
    InvertsTheScoreTest(highP, q, z, t, n);
    if lowQ <= p { FartherIsLarger(lowQ, p, q); }
    if highP >= q { FartherIsLarger(highP, q, p); }
  }
}

/** Slice keys and the choice of slice dimensions. */
module Slicing {
  datatype SliceKey = SliceKey(text: string)

  const OVERALL := SliceKey("__overall__")

  function KeyOf(dimension: string, value: string): SliceKey {
    SliceKey(dimension + "=" + value)
  }

  /** The key of the whole population is no slice's key, whatever dimensions and values are called. */
  lemma OverallIsNoSlice(dimension: string, value: string)
    ensures KeyOf(dimension, value) != OVERALL
  {
    assert KeyOf(dimension, value).text[|dimension|] == '=';
    assert forall i :: 0 <= i < |OVERALL.text| ==> OVERALL.text[i] != '=';
  }

  /** `longer` is `dimension` continued past an `=` into the first value. */
  ghost predicate Overlaps(dimension: string, value: string, longer: string, tail: string) {
    exists x :: longer == dimension + "=" + x && value == x + "=" + tail
  }

  lemma OverlapCollides(dimension: string, value: string, longer: string, tail: string)
    requires Overlaps(dimension, value, longer, tail)
    ensures KeyOf(dimension, value) == KeyOf(longer, tail)
  {}

  lemma CollisionOverlaps(dimension: string, value: string, longer: string, tail: string)
    requires KeyOf(dimension, value) == KeyOf(longer, tail) && |dimension| < |longer|
    ensures Overlaps(dimension, value, longer, tail)
  {
    var text, n, m := dimension + "=" + value, |dimension|, |longer|;
    assert text == longer + "=" + tail;
    assert text[..n] == dimension && text[n] == '=' && text[n + 1..] == value;
    assert text[..m] == longer && text[m] == '=' && text[m + 1..] == tail;
    var x := text[n + 1..m];
    assert longer == dimension + "=" + x by { assert text[..m] == text[..n] + [text[n]] + text[n + 1..m]; }
    assert value == x + "=" + tail by { assert text[n + 1..] == text[n + 1..m] + [text[m]] + text[m + 1..]; }
  }

  /** Two different slices share a key exactly when one dimension runs on past an `=` into the other's
      value. */
  lemma KeysCollideIff(d0: string, v0: string, d1: string, v1: string)
    requires |d0| <= |d1|
    ensures KeyOf(d0, v0) == KeyOf(d1, v1) <==> (d0 == d1 && v0 == v1) || Overlaps(d0, v0, d1, v1)
  {
    if KeyOf(d0, v0) == KeyOf(d1, v1) {
      var t0, t1 := d0 + "=" + v0, d1 + "=" + v1;
      if |d0| == |d1| {
        assert t0[..|d0|] == d0 && t1[..|d1|] == d1 && t0[|d0| + 1..] == v0 && t1[|d1| + 1..] == v1;
      } else {
        CollisionOverlaps(d0, v0, d1, v1);
      }
    }
    if Overlaps(d0, v0, d1, v1) { OverlapCollides(d0, v0, d1, v1); }
  }

  predicate Plain(dimension: string) {
    '=' !in dimension
  }

  lemma OverlapIsNotPlain(dimension: string, value: string, longer: string, tail: string)
    ensures Overlaps(dimension, value, longer, tail) ==> !Plain(longer)
  {}

  /** Dimensions without `=` keep slices apart. */
  lemma PlainKeysDiffer(d0: string, v0: string, d1: string, v1: string)
    requires Plain(d0) && Plain(d1) && KeyOf(d0, v0) == KeyOf(d1, v1)
    ensures d0 == d1 && v0 == v1
  {
    OverlapIsNotPlain(d0, v0, d1, v1);
    OverlapIsNotPlain(d1, v1, d0, v0);
    if |d0| <= |d1| { KeysCollideIff(d0, v0, d1, v1); } else { KeysCollideIff(d1, v1, d0, v0); }
  }

  /** A dimension that contains `=` can merge two slices. */
  lemma SlicesCanCollide()
    ensures KeyOf("a", "b=c") == KeyOf("a=b", "c") == SliceKey("a=b=c")
  {}

  // ------------------------------------------------------------------ dimensions worth rolling up

  /** The items of a case's slice mapping. */
  type Slices = seq<(string, string)>

  ghost predicate OneValueEach(slices: Slices) {
    forall i, j :: 0 <= i < j < |slices| ==> slices[i].0 != slices[j].0
  }

  ghost predicate Carries(cases: seq<Slices>, d: string, v: string) {
    exists i :: 0 <= i < |cases| && (d, v) in cases[i]
  }

  /** The distinct values seen for each dimension. */
  ghost predicate Tabulates(values: map<string, set<string>>, cases: seq<Slices>) {
    && (forall d :: d in values ==> values[d] != {})
    && (forall d, v :: Carries(cases, d, v) <==> d in values && v in values[d])
  }

  function AddValue(values: map<string, set<string>>, d: string, v: string): map<string, set<string>> {
    values[d := (if d in values then values[d] else {}) + {v}]
  }

  lemma AddTabulates(values: map<string, set<string>>, cases: seq<Slices>, row: Slices, p: (string, string))
    requires Tabulates(values, cases + [row])
    ensures Tabulates(AddValue(values, p.0, p.1), cases + [row + [p]])
  {
    var before, after := cases + [row], cases + [row + [p]];
    forall d, v ensures Carries(after, d, v) <==> Carries(before, d, v) || (d, v) == p {
      if i :| 0 <= i < |before| && (d, v) in before[i] { assert (d, v) in after[i]; }
      if i :| 0 <= i < |after| && (d, v) in after[i] {
        assert (d, v) in before[i] || (d, v) == p;
      }
      if (d, v) == p { assert (d, v) in after[|cases|]; }
    }
  }

  lemma EmptyRowTabulates(values: map<string, set<string>>, cases: seq<Slices>)
    requires Tabulates(values, cases)
    ensures Tabulates(values, cases + [[]])
  {
    var after := cases + [[]];
    forall d, v ensures Carries(after, d, v) <==> Carries(cases, d, v) {
      if i :| 0 <= i < |cases| && (d, v) in cases[i] { assert (d, v) in after[i]; }
      if i :| 0 <= i < |after| && (d, v) in after[i] { assert (d, v) in cases[i]; }
    }
  }

  /** A dimension is kept exactly when some case carries it and its distinct values, over all cases of
      the dataset, are no more than the cardinality limit. */
  ghost predicate KeptExactly(kept: set<string>, cases: seq<Slices>, limit: int) {
    forall d :: d in kept <==> exists values: set<string> ::
      values != {} && |values| <= limit && forall v :: v in values <==> Carries(cases, d, v)
  }

  lemma KeptFromTable(kept: set<string>, values: map<string, set<string>>, cases: seq<Slices>, limit: int)
    requires Tabulates(values, cases)
    requires kept == set d | d in values && |values[d]| <= limit
    ensures KeptExactly(kept, cases, limit)
  {
    forall d ensures d in kept <==> exists vs: set<string> ::
        vs != {} && |vs| <= limit && forall v :: v in vs <==> Carries(cases, d, v)
    {
      if d in kept { assert forall v :: v in values[d] <==> Carries(cases, d, v); }
      if vs: set<string> :| vs != {} && |vs| <= limit && forall v :: v in vs <==> Carries(cases, d, v) {
        var v :| v in vs;
        assert Carries(cases, d, v);
        assert vs == values[d];
      }
    }
  }

  method RollupDimensions(cases: seq<Slices>, limit: int) returns (kept: set<string>)
    ensures KeptExactly(kept, cases, limit)
  {
    var values: map<string, set<string>> := map[];
    for i := 0 to |cases|
      invariant Tabulates(values, cases[..i])
    {
      EmptyRowTabulates(values, cases[..i]);
      for j := 0 to |cases[i]|
        invariant Tabulates(values, cases[..i] + [cases[i][..j]])
      {
        var (dimension, value) := cases[i][j];
        AddTabulates(values, cases[..i], cases[i][..j], cases[i][j]);
        assert cases[i][..j + 1] == cases[i][..j] + [cases[i][j]];
        values := AddValue(values, dimension, value);
      }
      assert cases[i][..|cases[i]|] == cases[i];
      assert cases[..i + 1] == cases[..i] + [cases[i]];
    }
    assert cases[..|cases|] == cases;
    kept := set d | d in values && |values[d]| <= limit;
    KeptFromTable(kept, values, cases, limit);
  }

  // ------------------------------------------------------------------ the keys of one case

  function SliceKeys(slices: Slices, kept: set<string>): seq<SliceKey> {
    if slices == [] then []
    else
      var last := slices[|slices| - 1];
      SliceKeys(slices[..|slices| - 1], kept) + (if last.0 in kept then [KeyOf(last.0, last.1)] else [])
  }

  function KeysOf(slices: Slices, kept: set<string>): seq<SliceKey> {
    [OVERALL] + SliceKeys(slices, kept)
  }

  ghost predicate PlainSlices(slices: Slices) {
    OneValueEach(slices) && forall p :: p in slices ==> Plain(p.0)
  }

  lemma {:induction false} SliceKeyCount(slices: Slices, kept: set<string>, d: string, v: string)
    requires PlainSlices(slices) && Plain(d)
    ensures multiset(SliceKeys(slices, kept))[KeyOf(d, v)] == if d in kept && (d, v) in slices then 1 else 0
  {
    if slices != [] {
      var front, last := slices[..|slices| - 1], slices[|slices| - 1];
      assert slices == front + [last];
      assert last in slices;
      SliceKeyCount(front, kept, d, v);
      if KeyOf(last.0, last.1) == KeyOf(d, v) { PlainKeysDiffer(last.0, last.1, d, v); }
    }
  }

  lemma {:induction false} OverallCount(slices: Slices, kept: set<string>)
    ensures multiset(SliceKeys(slices, kept))[OVERALL] == 0
  {
    if slices != [] {
      var last := slices[|slices| - 1];
      OverallCount(slices[..|slices| - 1], kept);
      OverallIsNoSlice(last.0, last.1);
    }
  }

  /** Every case files its scores once under the population and once under each kept slice it carries,
      and under nothing else that is a slice key. */
  lemma KeyMultiplicity(slices: Slices, kept: set<string>, d: string, v: string)
    requires PlainSlices(slices) && Plain(d)
    ensures multiset(KeysOf(slices, kept))[OVERALL] == 1
    ensures multiset(KeysOf(slices, kept))[KeyOf(d, v)] == if d in kept && (d, v) in slices then 1 else 0
  {
    OverallCount(slices, kept);
    SliceKeyCount(slices, kept, d, v);
    OverallIsNoSlice(d, v);
  }
}

/** Rescoring a run: every stored generation is scored again, scores are filed under the slices of their
    case, and each group is aggregated. */
module Rescoring {
  import opened Sequences
  import opened Slicing
  import opened Wrappers

  datatype Name = Name(text: string)

  datatype Score = Score(metric: Name, version: string, config: string, value: Option<real>, passed: Option<bool>)

  datatype Aggregate = Aggregate(metric: Name, version: string, n: int, value: real,
                                 low: Option<real>, high: Option<real>, stddev: Option<real>, how: string)

  /** A stored generation with the case it answers. */
  datatype Row = Row(id: int, caseId: int, output: string)

  /** `accepts` is the engine's validation of task type, reference and relevance judgements. */
  datatype Metric = Metric(accepts: int -> bool, score: Row -> seq<Score>, aggregate: seq<Score> -> Aggregate)

  datatype Setup = Setup(registry: map<Name, Metric>, names: seq<Name>, slices: map<int, Slices>, kept: set<string>)

  /** Metrics file their scores and aggregates under the name they are registered by. */
  ghost predicate OwnNames(registry: map<Name, Metric>) {
    forall m :: m in registry ==>
      && (forall row, s :: s in registry[m].score(row) ==> s.metric == m)
      && (forall values :: registry[m].aggregate(values).metric == m)
  }

  ghost predicate CasesKnown(setup: Setup, rows: seq<Row>) {
    forall row :: row in rows ==> row.caseId in setup.slices
  }

  /** The scores of one generation, unless a metric is unknown or refuses the case. */
  function ScoreOne(setup: Setup, row: Row, names: seq<Name>): Option<seq<Score>> {
    if names == [] then Some([])
    else
      var last := names[|names| - 1];
      match ScoreOne(setup, row, names[..|names| - 1])
      case None => None
      case Some(front) =>
        if last in setup.registry && setup.registry[last].accepts(row.caseId)
        then Some(front + setup.registry[last].score(row)) else None
  }

  function Scores(setup: Setup, row: Row): seq<Score> {
    match ScoreOne(setup, row, setup.names)
    case None => []
    case Some(scores) => scores
  }

  ghost predicate AllScored(setup: Setup, rows: seq<Row>) {
    forall row :: row in rows ==> ScoreOne(setup, row, setup.names).Some?
  }

  lemma {:induction false} RefusalIsFinal(setup: Setup, row: Row, names: seq<Name>, k: nat)
    requires k <= |names| && ScoreOne(setup, row, names[..k]).None?
    ensures ScoreOne(setup, row, names).None?
  {
    if k == |names| {
      assert names[..k] == names;
    } else {
      assert names[..|names| - 1][..k] == names[..k];
      RefusalIsFinal(setup, row, names[..|names| - 1], k);
    }
  }

  function ScoreWith(setup: Setup, row: Row, name: Name): seq<Score> {
    if name in setup.registry then setup.registry[name].score(row) else []
  }

  function Joined(parts: seq<seq<Score>>): seq<Score> {
    if parts == [] then [] else parts[0] + Joined(parts[1..])
  }

  lemma {:induction false} JoinedExtends(parts: seq<seq<Score>>, more: seq<Score>)
    ensures Joined(parts + [more]) == Joined(parts) + more
  {
    if parts == [] {
      assert parts + [more] == [more] && [more][1..] == [];
    } else {
      assert (parts + [more])[1..] == parts[1..] + [more];
      JoinedExtends(parts[1..], more);
    }
  }

  function Parts(setup: Setup, row: Row, names: seq<Name>): (parts: seq<seq<Score>>)
    ensures |parts| == |names| && forall i :: 0 <= i < |names| ==> parts[i] == ScoreWith(setup, row, names[i])
  {
    seq(|names|, i requires 0 <= i < |names| => ScoreWith(setup, row, names[i]))
  }

  /** A generation is scored exactly when every listed metric is registered and accepts its case; its scores
      are then those of the metrics, one metric after another as listed. */
  lemma {:induction false} ScoredIff(setup: Setup, row: Row, names: seq<Name>)
    ensures ScoreOne(setup, row, names).Some? <==>
            forall i :: 0 <= i < |names| ==>
              names[i] in setup.registry && setup.registry[names[i]].accepts(row.caseId)
    ensures ScoreOne(setup, row, names).Some? ==>
              ScoreOne(setup, row, names).value == Joined(Parts(setup, row, names))
  {
    if names != [] {
      var front := names[..|names| - 1];
      ScoredIff(setup, row, front);
      JoinedParts(setup, row, names);
      assert forall i :: 0 <= i < |front| ==> front[i] == names[i];
    }
  }

  lemma JoinedParts(setup: Setup, row: Row, names: seq<Name>)
    requires names != []
    ensures Joined(Parts(setup, row, names)) ==
            Joined(Parts(setup, row, names[..|names| - 1])) + ScoreWith(setup, row, names[|names| - 1])
  {
    var front, last := names[..|names| - 1], names[|names| - 1];
    JoinedExtends(Parts(setup, row, front), ScoreWith(setup, row, last));
    assert Parts(setup, row, names) == Parts(setup, row, front) + [ScoreWith(setup, row, last)];
  }

  /** The loop over the metric names; the first refusal ends it. */
  method ScoreGeneration(setup: Setup, row: Row) returns (scores: Option<seq<Score>>)
    ensures scores == ScoreOne(setup, row, setup.names)
  {
    var list: seq<Score> := [];
    for i := 0 to |setup.names|
      invariant ScoreOne(setup, row, setup.names[..i]) == Some(list)
    {
      var name := setup.names[i];
      assert setup.names[..i + 1][..i] == setup.names[..i];
      if name !in setup.registry || !setup.registry[name].accepts(row.caseId) {
        RefusalIsFinal(setup, row, setup.names, i + 1);
        return None;
      }
      list := list + setup.registry[name].score(row);
    }
    assert setup.names[..|setup.names|] == setup.names;
    scores := Some(list);
  }

  lemma {:induction false} ScoresAreRegistered(setup: Setup, row: Row, names: seq<Name>)
    requires OwnNames(setup.registry) && ScoreOne(setup, row, names).Some?
    ensures forall s :: s in ScoreOne(setup, row, names).value ==> s.metric in setup.registry && s.metric in names
  {
    if names != [] {
      ScoresAreRegistered(setup, row, names[..|names| - 1]);
    }
  }

  // ------------------------------------------------------------------ groups

  datatype GroupKey = GroupKey(metric: Name, slice: SliceKey)

  type Groups = map<GroupKey, seq<Score>>

  function Group(groups: Groups, g: GroupKey): seq<Score> {
    if g in groups then groups[g] else []
  }

  function Repeated(score: Score, n: nat): seq<Score> {
    if n == 0 then [] else Repeated(score, n - 1) + [score]
  }

  /** One score enters a group once for every time its case lists the group's slice key. */
  function Share(score: Score, keys: seq<SliceKey>, g: GroupKey): seq<Score> {
    if score.metric == g.metric then Repeated(score, multiset(keys)[g.slice]) else []
  }

  function Added(scores: seq<Score>, keys: seq<SliceKey>, g: GroupKey): seq<Score> {
    if scores == [] then []
    else Added(scores[..|scores| - 1], keys, g) + Share(scores[|scores| - 1], keys, g)
  }

  function RowKeys(setup: Setup, row: Row): seq<SliceKey> {
    if row.caseId in setup.slices then KeysOf(setup.slices[row.caseId], setup.kept) else []
  }

  /** The group of a metric and slice after the first generations, in generation order. */
  function GroupOf(setup: Setup, rows: seq<Row>, g: GroupKey): seq<Score> {
    if rows == [] then []
    else
      var last := rows[|rows| - 1];
      GroupOf(setup, rows[..|rows| - 1], g) + Added(Scores(setup, last), RowKeys(setup, last), g)
  }

  ghost predicate NoEmptyGroup(groups: Groups) {
    forall g :: g in groups ==> groups[g] != []
  }

  function FileUnder(groups: Groups, score: Score, key: SliceKey): Groups {
    var g := GroupKey(score.metric, key);
    groups[g := Group(groups, g) + [score]]
  }

  lemma ShareGrows(score: Score, keys: seq<SliceKey>, key: SliceKey, g: GroupKey)
    ensures Share(score, keys + [key], g) ==
            Share(score, keys, g) + (if g == GroupKey(score.metric, key) then [score] else [])
  {}

  ghost predicate FiledAt(before: Groups, after: Groups, score: Score, keys: seq<SliceKey>, g: GroupKey) {
    Group(after, g) == Group(before, g) + Share(score, keys, g)
  }

  ghost predicate Filed(before: Groups, after: Groups, score: Score, keys: seq<SliceKey>) {
    NoEmptyGroup(after) && forall g :: FiledAt(before, after, score, keys, g)
  }

  lemma GroupAfterFiling(groups: Groups, score: Score, key: SliceKey, g: GroupKey)
    ensures Group(FileUnder(groups, score, key), g) ==
            Group(groups, g) + (if g == GroupKey(score.metric, key) then [score] else [])
  {}

  lemma FiledAtOneMore(
      before: Groups, groups: Groups, score: Score, keys: seq<SliceKey>, key: SliceKey, g: GroupKey)
    requires FiledAt(before, groups, score, keys, g)
    ensures FiledAt(before, FileUnder(groups, score, key), score, keys + [key], g)
  {
    ShareGrows(score, keys, key, g);
    GroupAfterFiling(groups, score, key, g);
  }

  lemma FiledUnderOneMore(before: Groups, groups: Groups, score: Score, keys: seq<SliceKey>, key: SliceKey)
    requires Filed(before, groups, score, keys)
    ensures Filed(before, FileUnder(groups, score, key), score, keys + [key])
  {
    forall g ensures FiledAt(before, FileUnder(groups, score, key), score, keys + [key], g) {
      FiledAtOneMore(before, groups, score, keys, key, g);
    }
  }

  /** Files one score under every key of its case. */
  method FileScore(groups: Groups, score: Score, keys: seq<SliceKey>) returns (after: Groups)
    requires NoEmptyGroup(groups)
    ensures Filed(groups, after, score, keys)
  {
    after := groups;
    for k := 0 to |keys|
      invariant Filed(groups, after, score, keys[..k])
    {
      FiledUnderOneMore(groups, after, score, keys[..k], keys[k]);
      assert keys[..k + 1] == keys[..k] + [keys[k]];
      after := FileUnder(after, score, keys[k]);
    }
    assert keys[..|keys|] == keys;
  }

  ghost predicate GrowsAt(before: Groups, after: Groups, scores: seq<Score>, keys: seq<SliceKey>, g: GroupKey) {
    Group(after, g) == Group(before, g) + Added(scores, keys, g)
  }

  ghost predicate Grows(before: Groups, after: Groups, scores: seq<Score>, keys: seq<SliceKey>) {
    NoEmptyGroup(after) && forall g :: GrowsAt(before, after, scores, keys, g)
  }

  lemma GrowsAtOneMore(before: Groups, groups: Groups, after: Groups, scores: seq<Score>, score: Score,
                       keys: seq<SliceKey>, g: GroupKey)
    requires GrowsAt(before, groups, scores, keys, g) && FiledAt(groups, after, score, keys, g)
    ensures GrowsAt(before, after, scores + [score], keys, g)
  {
    assert (scores + [score])[..|scores|] == scores;
  }

  lemma GrowsByOne(
      before: Groups, groups: Groups, after: Groups, scores: seq<Score>, score: Score, keys: seq<SliceKey>)
    requires Grows(before, groups, scores, keys) && Filed(groups, after, score, keys)
    ensures Grows(before, after, scores + [score], keys)
  {
    forall g ensures GrowsAt(before, after, scores + [score], keys, g) {
      GrowsAtOneMore(before, groups, after, scores, score, keys, g);
    }
  }

  // ------------------------------------------------------------------ the tables

  datatype ScoreId = ScoreId(generation: int, metric: Name, version: string, config: string)

  datatype AggregateId = AggregateId(run: int, metric: Name, version: string, config: string, slice: SliceKey)

  type ScoreTable = map<ScoreId, Score>

  type AggregateTable = map<AggregateId, Aggregate>

  function IdOf(generation: int, s: Score): ScoreId {
    ScoreId(generation, s.metric, s.version, s.config)
  }

  /** Insert or ignore: a stored score stays. */
  function SaveScore(table: ScoreTable, generation: int, s: Score): ScoreTable {
    if IdOf(generation, s) in table then table else table[IdOf(generation, s) := s]
  }

  function SaveScores(table: ScoreTable, generation: int, scores: seq<Score>): ScoreTable {
    if scores == [] then table
    else SaveScore(SaveScores(table, generation, scores[..|scores| - 1]), generation, scores[|scores| - 1])
  }

  function SaveAll(table: ScoreTable, setup: Setup, rows: seq<Row>): ScoreTable {
    if rows == [] then table
    else
      var last := rows[|rows| - 1];
      SaveScores(SaveAll(table, setup, rows[..|rows| - 1]), last.id, Scores(setup, last))
  }

  lemma {:induction false} SaveScoresStores(table: ScoreTable, generation: int, scores: seq<Score>)
    ensures var after := SaveScores(table, generation, scores);
            && (forall id :: id in table ==> id in after && after[id] == table[id])
            && (forall s :: s in scores ==> IdOf(generation, s) in after)
  {
    if scores != [] { SaveScoresStores(table, generation, scores[..|scores| - 1]); }
  }

  /** Stored scores are never rewritten, and every score of every generation has a row. */
  lemma {:induction false} SaveAllStores(table: ScoreTable, setup: Setup, rows: seq<Row>)
    ensures var after := SaveAll(table, setup, rows);
            && (forall id :: id in table ==> id in after && after[id] == table[id])
            && (forall row, s :: row in rows && s in Scores(setup, row) ==> IdOf(row.id, s) in after)
  {
    if rows != [] {
      var front, last := rows[..|rows| - 1], rows[|rows| - 1];
      SaveAllStores(table, setup, front);
      SaveScoresStores(SaveAll(table, setup, front), last.id, Scores(setup, last));
    }
  }

  /** Score `k` of generation `r` has this identity. */
  ghost predicate ListedAt(setup: Setup, rows: seq<Row>, id: ScoreId, r: nat, k: nat) {
    && r < |rows| && k < |Scores(setup, rows[r])|
    && var s := Scores(setup, rows[r])[k];
       id == ScoreId(rows[r].id, s.metric, s.version, s.config)
  }

  /** No earlier generation has a score of this identity, and no earlier score of this generation. */
  ghost predicate FirstListedAt(setup: Setup, rows: seq<Row>, id: ScoreId, r: nat, k: nat) {
    && ListedAt(setup, rows, id, r, k)
    && forall q: nat, j: nat :: ListedAt(setup, rows, id, q, j) ==> r < q || (r == q && k <= j)
  }

  /** A stored row is as before; a new row holds the first score of its identity, every field of it; and an
      identity without a row is not that of any score. */
  ghost predicate FirstScoreWins(setup: Setup, rows: seq<Row>, before: ScoreTable, after: ScoreTable, id: ScoreId) {
    if id in before then id in after && after[id] == before[id]
    else if id in after then
      exists r: nat, k: nat :: FirstListedAt(setup, rows, id, r, k) && after[id] == Scores(setup, rows[r])[k]
    else
      forall r: nat, k: nat :: !ListedAt(setup, rows, id, r, k)
  }

  /** The same among the scores of one generation. */
  lemma {:induction false} SaveScoresKeepsFirst(table: ScoreTable, generation: int, scores: seq<Score>, id: ScoreId)
    returns (k: nat)
    requires id !in table
    ensures var after := SaveScores(table, generation, scores);
            if id in after then
              && k < |scores| && IdOf(generation, scores[k]) == id && after[id] == scores[k]
              && forall j :: 0 <= j < k ==> IdOf(generation, scores[j]) != id
            else forall j :: 0 <= j < |scores| ==> IdOf(generation, scores[j]) != id
  {
    if scores == [] {
      k := 0;
    } else {
      var last := |scores| - 1;
      k := SaveScoresKeepsFirst(table, generation, scores[..last], id);
      if id !in SaveScores(table, generation, scores[..last]) { k := last; }
    }
  }

  lemma ListedAmongFirst(setup: Setup, rows: seq<Row>, id: ScoreId, r: nat, k: nat, n: nat)
    requires n <= |rows|
    ensures ListedAt(setup, rows[..n], id, r, k) <==> r < n && ListedAt(setup, rows, id, r, k)
  {}

  lemma FirstScoreStays(setup: Setup, rows: seq<Row>, before: ScoreTable, middle: ScoreTable, after: ScoreTable,
                        id: ScoreId)
    requires rows != [] && FirstScoreWins(setup, rows[..|rows| - 1], before, middle, id)
    requires id in middle && id in after && after[id] == middle[id]
    ensures FirstScoreWins(setup, rows, before, after, id)
  {
    var n := |rows| - 1;
    if id !in before {
      var r: nat, k: nat :|
        FirstListedAt(setup, rows[..n], id, r, k) && middle[id] == Scores(setup, rows[..n][r])[k];
      forall q: nat, j: nat ensures ListedAt(setup, rows[..n], id, q, j) <==> q < n && ListedAt(setup, rows, id, q, j) {
        ListedAmongFirst(setup, rows, id, q, j, n);
      }
      assert FirstListedAt(setup, rows, id, r, k);
    }
  }

  lemma LastRowDecides(setup: Setup, rows: seq<Row>, before: ScoreTable, middle: ScoreTable, id: ScoreId)
    requires rows != [] && FirstScoreWins(setup, rows[..|rows| - 1], before, middle, id) && id !in middle
    ensures var last := rows[|rows| - 1];
            FirstScoreWins(setup, rows, before, SaveScores(middle, last.id, Scores(setup, last)), id)
  {
    var n := |rows| - 1;
    var scores := Scores(setup, rows[n]);
    var k := SaveScoresKeepsFirst(middle, rows[n].id, scores, id);
    forall q: nat, j: nat ensures ListedAt(setup, rows, id, q, j) ==> q == n {
      ListedAmongFirst(setup, rows, id, q, j, n);
    }
    if id in SaveScores(middle, rows[n].id, scores) {
      assert ListedAt(setup, rows, id, n, k);
      assert FirstListedAt(setup, rows, id, n, k);
    }
  }

  /** After saving, a new row holds the first score of its identity in generation order and, within a
      generation, in the order its metrics are listed; stored rows stay and no other row enters. */
  lemma {:induction false} SaveAllKeepsFirst(table: ScoreTable, setup: Setup, rows: seq<Row>, id: ScoreId)
    ensures FirstScoreWins(setup, rows, table, SaveAll(table, setup, rows), id)
  {
    if rows != [] {
      var front, last := rows[..|rows| - 1], rows[|rows| - 1];
      var middle := SaveAll(table, setup, front);
      SaveAllKeepsFirst(table, setup, front, id);
      if id in middle {
        SaveScoresStores(middle, last.id, Scores(setup, last));
        FirstScoreStays(setup, rows, table, middle, SaveAll(table, setup, rows), id);
      } else {
        LastRowDecides(setup, rows, table, middle, id);
      }
    }
  }

  lemma {:induction false} SavingAgainAddsNothing(table: ScoreTable, generation: int, scores: seq<Score>)
    requires forall s :: s in scores ==> IdOf(generation, s) in table
    ensures SaveScores(table, generation, scores) == table
  {
    if scores != [] { SavingAgainAddsNothing(table, generation, scores[..|scores| - 1]); }
  }

  lemma {:induction false} SavingAllAgainAddsNothing(table: ScoreTable, setup: Setup, rows: seq<Row>)
    requires forall row, s :: row in rows && s in Scores(setup, row) ==> IdOf(row.id, s) in table
    ensures SaveAll(table, setup, rows) == table
  {
    if rows != [] {
      SavingAllAgainAddsNothing(table, setup, rows[..|rows| - 1]);
      SavingAgainAddsNothing(table, rows[|rows| - 1].id, Scores(setup, rows[|rows| - 1]));
    }
  }

  function AggregateOf(setup: Setup, g: GroupKey, values: seq<Score>): Aggregate
    requires g.metric in setup.registry
  {
    setup.registry[g.metric].aggregate(values)
  }

  function TargetId(setup: Setup, run: int, g: GroupKey, values: seq<Score>): AggregateId
    requires g.metric in setup.registry && values != []
  {
    var aggregate := AggregateOf(setup, g, values);
    AggregateId(run, aggregate.metric, aggregate.version, values[0].config, g.slice)
  }

  /** Every non-empty group, and no other. */
  ghost predicate IsGrouping(setup: Setup, rows: seq<Row>, groups: Groups) {
    NoEmptyGroup(groups) && forall g :: GroupIs(setup, rows, groups, g)
  }

  ghost predicate GroupIs(setup: Setup, rows: seq<Row>, groups: Groups, g: GroupKey) {
    Group(groups, g) == GroupOf(setup, rows, g)
  }

  ghost predicate RegisteredGroups(setup: Setup, groups: Groups) {
    forall g :: g in groups ==> g.metric in setup.registry && groups[g] != []
  }

  ghost predicate IsTarget(setup: Setup, run: int, groups: Groups, done: set<GroupKey>, id: AggregateId)
    requires RegisteredGroups(setup, groups)
  {
    var g := GroupKey(id.metric, id.slice);
    && g in done && g in groups && id.run == run
    && id.version == setup.registry[g.metric].aggregate(groups[g]).version && id.config == groups[g][0].config
  }

  /** The row of a finished group holds its aggregate; every other row is as before. */
  ghost predicate RowWritten(setup: Setup, run: int, groups: Groups, done: set<GroupKey>,
                             before: AggregateTable, after: AggregateTable, id: AggregateId)
    requires RegisteredGroups(setup, groups)
  {
    if IsTarget(setup, run, groups, done, id) then
      var g := GroupKey(id.metric, id.slice);
      id in after && after[id] == setup.registry[g.metric].aggregate(groups[g])
    else
      (id in after <==> id in before) && (id in after ==> after[id] == before[id])
  }

  ghost predicate Written(setup: Setup, run: int, groups: Groups, done: set<GroupKey>,
                          before: AggregateTable, after: AggregateTable)
    requires RegisteredGroups(setup, groups)
  {
    forall id :: RowWritten(setup, run, groups, done, before, after, id)
  }

  lemma WriteOne(setup: Setup, run: int, groups: Groups, done: set<GroupKey>,
                 before: AggregateTable, after: AggregateTable, g: GroupKey)
    requires OwnNames(setup.registry) && RegisteredGroups(setup, groups) && g in groups && g !in done
    requires Written(setup, run, groups, done, before, after)
    ensures Written(setup, run, groups, done + {g}, before,
                    after[TargetId(setup, run, g, groups[g]) := AggregateOf(setup, g, groups[g])])
  {
    var target := TargetId(setup, run, g, groups[g]);
    assert GroupKey(target.metric, target.slice) == g;
    var next := after[target := AggregateOf(setup, g, groups[g])];
    forall id ensures RowWritten(setup, run, groups, done + {g}, before, next, id) {
      assert RowWritten(setup, run, groups, done, before, after, id);
    }
  }

  // ------------------------------------------------------------------ the run

  datatype Tables = Tables(scores: ScoreTable, aggregates: AggregateTable)

  /** Scores are inserted unless there already; the aggregate of every group overwrites its row. */
  ghost predicate Rescored(setup: Setup, run: int, rows: seq<Row>, before: Tables, after: Tables) {
    && after.scores == SaveAll(before.scores, setup, rows)
    && exists groups ::
         && IsGrouping(setup, rows, groups)
         && RegisteredGroups(setup, groups)
         && Written(setup, run, groups, groups.Keys, before.aggregates, after.aggregates)
  }

  function ScoreCount(setup: Setup, rows: seq<Row>): nat {
    if rows == [] then 0 else ScoreCount(setup, rows[..|rows| - 1]) + |Scores(setup, rows[|rows| - 1])|
  }

  /** The working state of a pass over the generations. */
  ghost predicate Progress(
      setup: Setup, rows: seq<Row>, before: ScoreTable, groups: Groups, table: ScoreTable, saved: nat) {
    && IsGrouping(setup, rows, groups)
    && RegisteredGroups(setup, groups)
    && AllScored(setup, rows)
    && table == SaveAll(before, setup, rows)
    && saved == ScoreCount(setup, rows)
  }

  lemma ProgressByRow(
      setup: Setup, rows: seq<Row>, row: Row, before: ScoreTable, groups: Groups, after: Groups, table: ScoreTable,
      saved: nat)
    requires OwnNames(setup.registry) && Progress(setup, rows, before, groups, table, saved)
    requires ScoreOne(setup, row, setup.names).Some? && RegisteredGroups(setup, after)
    requires Grows(groups, after, Scores(setup, row), RowKeys(setup, row))
    ensures Progress(setup, rows + [row], before, after, SaveScores(table, row.id, Scores(setup, row)),
                     saved + |Scores(setup, row)|)
  {
    assert (rows + [row])[..|rows|] == rows;
    forall g ensures GroupIs(setup, rows + [row], after, g) {
      assert GroupIs(setup, rows, groups, g) && GrowsAt(groups, after, Scores(setup, row), RowKeys(setup, row), g);
    }
  }

  /** Saves and files the scores of one generation. */
  method FileScores(setup: Setup, row: Row, scores: seq<Score>, keys: seq<SliceKey>, groups: Groups, table: ScoreTable)
    returns (after: Groups, stored: ScoreTable)
    requires RegisteredGroups(setup, groups) && forall s :: s in scores ==> s.metric in setup.registry
    ensures Grows(groups, after, scores, keys) && RegisteredGroups(setup, after)
    ensures stored == SaveScores(table, row.id, scores)
  {
    after, stored := groups, table;
    for j := 0 to |scores|
      invariant Grows(groups, after, scores[..j], keys) && RegisteredGroups(setup, after)
      invariant stored == SaveScores(table, row.id, scores[..j])
    {
      assert scores[..j + 1] == scores[..j] + [scores[j]] && scores[..j + 1][..j] == scores[..j];
      stored := SaveScore(stored, row.id, scores[j]);
      var filed := FileScore(after, scores[j], keys);
      GrowsByOne(groups, after, filed, scores[..j], scores[j], keys);
      FiledStaysRegistered(setup, after, filed, scores[j], keys);
      after := filed;
    }
    assert scores[..|scores|] == scores;
  }

  lemma FiledStaysRegistered(setup: Setup, before: Groups, after: Groups, score: Score, keys: seq<SliceKey>)
    requires RegisteredGroups(setup, before) && Filed(before, after, score, keys) && score.metric in setup.registry
    ensures RegisteredGroups(setup, after)
  {
    forall g | g in after ensures g.metric in setup.registry {
      assert FiledAt(before, after, score, keys, g);
    }
  }

  /** Generation i, the earlier ones being done. */
  method ScoreRow(setup: Setup, rows: seq<Row>, i: nat, ghost before: ScoreTable,
                  groups: Groups, table: ScoreTable, saved: nat)
    returns (ok: bool, after: Groups, stored: ScoreTable, count: nat)
    requires OwnNames(setup.registry) && i < |rows| && Progress(setup, rows[..i], before, groups, table, saved)
    ensures ok ==> Progress(setup, rows[..i + 1], before, after, stored, count)
    ensures !ok ==> !AllScored(setup, rows)
  {
    var row := rows[i];
    var scores := ScoreGeneration(setup, row);
    if scores.None? {
      assert row in rows;
      return false, groups, table, saved;
    }
    ScoresAreRegistered(setup, row, setup.names);
    after, stored := FileScores(setup, row, scores.value, RowKeys(setup, row), groups, table);
    ProgressByRow(setup, rows[..i], row, before, groups, after, table, saved);
    assert rows[..i + 1] == rows[..i] + [row];
    ok, count := true, saved + |scores.value|;
  }

  /** One batch of generations, from `start` up to `stop`. */
  method ScoreBatch(setup: Setup, rows: seq<Row>, start: nat, stop: nat, ghost before: ScoreTable,
                    groups: Groups, table: ScoreTable, saved: nat)
    returns (ok: bool, after: Groups, stored: ScoreTable, count: nat)
    requires OwnNames(setup.registry) && start <= stop <= |rows|
    requires Progress(setup, rows[..start], before, groups, table, saved)
    ensures ok ==> Progress(setup, rows[..stop], before, after, stored, count)
    ensures !ok ==> !AllScored(setup, rows)
  {
    ok, after, stored, count := true, groups, table, saved;
    for i := start to stop
      invariant ok && Progress(setup, rows[..i], before, after, stored, count)
    {
      ok, after, stored, count := ScoreRow(setup, rows, i, before, after, stored, count);
      if !ok {
        return;
      }
    }
  }

  function Stop(rows: seq<Row>, n: nat): nat {
    if n < |rows| then n else |rows|
  }

  method ScoreBatches(setup: Setup, rows: seq<Row>, batchSize: int, before: ScoreTable)
    returns (ok: bool, groups: Groups, table: ScoreTable, count: nat)
    requires OwnNames(setup.registry) && batchSize >= 1
    ensures ok ==> Progress(setup, rows, before, groups, table, count)
    ensures !ok ==> !AllScored(setup, rows)
  {
    ok, groups, table, count := true, map[], before, 0;
    var start := 0;
    assert rows[..0] == [];
    while start < |rows|
      invariant 0 <= start && Progress(setup, rows[..Stop(rows, start)], before, groups, table, count)
    {
      ok, groups, table, count :=
        ScoreBatch(setup, rows, start, Stop(rows, start + batchSize), before, groups, table, count);
      if !ok {
        return;
      }
      start := start + batchSize;
    }
    assert rows[..|rows|] == rows;
  }

  /** Writes one aggregate a group; the groups can come in any order. */
  method WriteAggregates(setup: Setup, run: int, groups: Groups, table: AggregateTable) returns (after: AggregateTable)
    requires OwnNames(setup.registry) && RegisteredGroups(setup, groups)
    ensures Written(setup, run, groups, groups.Keys, table, after)
  {
    after := table;
    var rest := groups.Keys;
    while rest != {}
      invariant rest <= groups.Keys
      invariant Written(setup, run, groups, groups.Keys - rest, table, after)
      decreases rest
    {
      var g :| g in rest;
      WriteOne(setup, run, groups, groups.Keys - rest, table, after, g);
      assert groups.Keys - (rest - {g}) == groups.Keys - rest + {g};
      after := after[TargetId(setup, run, g, groups[g]) := AggregateOf(setup, g, groups[g])];
      rest := rest - {g};
    }
    assert groups.Keys - rest == groups.Keys;
  }

  class ScoringStore {
    var scores: ScoreTable
    var aggregates: AggregateTable

    constructor ()
      ensures Snapshot() == Tables(map[], map[])
    {
      scores, aggregates := map[], map[];
    }

    function Snapshot(): Tables
      reads this
    {
      Tables(scores, aggregates)
    }

    method Rescore(setup: Setup, run: int, rows: seq<Row>, batchSize: int) returns (saved: Option<nat>)
      requires OwnNames(setup.registry) && CasesKnown(setup, rows) && batchSize >= 1
      modifies this
      ensures saved.Some? <==> AllScored(setup, rows)
      ensures saved.Some? ==> saved.value == ScoreCount(setup, rows)
      ensures saved.Some? ==> Rescored(setup, run, rows, old(Snapshot()), Snapshot())
      ensures saved.Some? ==> forall id :: FirstScoreWins(setup, rows, old(scores), scores, id)
      ensures saved.None? ==> Snapshot() == old(Snapshot())
    {
      var ok, groups, table, count := ScoreBatches(setup, rows, batchSize, scores);
      if !ok {
        return None;
      }
      var written := WriteAggregates(setup, run, groups, aggregates);
      forall id ensures FirstScoreWins(setup, rows, scores, table, id) {
        SaveAllKeepsFirst(scores, setup, rows, id);
      }
      scores, aggregates := table, written;
      saved := Some(count);
    }

    /** The result does not depend on the batch size; when some generation cannot be scored the whole
        transaction is rolled back. */
    method RescoreRun(registry: map<Name, Metric>, names: seq<Name>, cases: seq<(int, Slices)>, limit: int,
                      run: int, rows: seq<Row>, batchSize: int)
      returns (saved: Option<nat>, kept: set<string>)
      requires OwnNames(registry) && CasesKnown(Setup(registry, names, Dictionary(cases), {}), rows) && batchSize >= 1
      modifies this
      ensures KeptExactly(kept, SlicesOf(cases), limit)
      ensures var setup := Setup(registry, names, Dictionary(cases), kept);
              && (saved.Some? <==> AllScored(setup, rows))
              && (saved.Some? ==> saved.value == ScoreCount(setup, rows))
              && (saved.Some? ==> Rescored(setup, run, rows, old(Snapshot()), Snapshot()))
              && (saved.Some? ==> forall id :: FirstScoreWins(setup, rows, old(scores), scores, id))
              && (saved.None? ==> Snapshot() == old(Snapshot()))
    {
      kept := RollupDimensions(SlicesOf(cases), limit);
      saved := Rescore(Setup(registry, names, Dictionary(cases), kept), run, rows, batchSize);
    }
  }

  /** The cases of a dataset by id; ids are a primary key. */
  function Dictionary(cases: seq<(int, Slices)>): map<int, Slices> {
    if cases == [] then map[]
    else Dictionary(cases[..|cases| - 1])[cases[|cases| - 1].0 := cases[|cases| - 1].1]
  }

  /** The dictionary knows exactly the ids of the cases, each with the slices of the last case of that id. */
  lemma {:induction false} DictionaryExact(cases: seq<(int, Slices)>, id: int)
    ensures id in Dictionary(cases) <==> exists i :: 0 <= i < |cases| && cases[i].0 == id
    ensures forall i :: 0 <= i < |cases| && cases[i].0 == id && (forall j :: i < j < |cases| ==> cases[j].0 != id) ==>
              Dictionary(cases)[id] == cases[i].1
  {
    if cases != [] {
      var n := |cases| - 1;
      DictionaryExact(cases[..n], id);
      if i :| 0 <= i < n && cases[i].0 == id { assert cases[..n][i].0 == id; }
      forall i | 0 <= i < n && cases[i].0 == id && (forall j :: i < j < |cases| ==> cases[j].0 != id)
        ensures Dictionary(cases)[id] == cases[i].1
      {
        assert cases[..n][i] == cases[i] && cases[n].0 != id;
      }
      assert cases[n].0 == id ==> Dictionary(cases)[id] == cases[n].1;
    }
  }

  function SlicesOf(cases: seq<(int, Slices)>): seq<Slices> {
    seq(|cases|, i requires 0 <= i < |cases| => cases[i].1)
  }

  // ------------------------------------------------------------------ what a group holds

  /** The scores of one metric among those of one generation. */
  function Named(scores: seq<Score>, m: Name): seq<Score> {
    if scores == [] then []
    else
      var last := scores[|scores| - 1];
      Named(scores[..|scores| - 1], m) + (if last.metric == m then [last] else [])
  }

  /** The scores of one metric for some generations, in generation order. */
  function ScoresIn(setup: Setup, rows: seq<Row>, m: Name): seq<Score> {
    if rows == [] then []
    else ScoresIn(setup, rows[..|rows| - 1], m) + Named(Scores(setup, rows[|rows| - 1]), m)
  }

  predicate Carrying(setup: Setup, row: Row, d: string, v: string) {
    row.caseId in setup.slices && (d, v) in setup.slices[row.caseId]
  }

  /** The generations whose case carries a slice, in order. */
  function CarriersOf(setup: Setup, rows: seq<Row>, d: string, v: string): seq<Row> {
    if rows == [] then []
    else
      var last := rows[|rows| - 1];
      CarriersOf(setup, rows[..|rows| - 1], d, v) + (if Carrying(setup, last, d, v) then [last] else [])
  }

  /** Every case gives each dimension one value, and no dimension is named with an `=`. */
  ghost predicate PlainCases(setup: Setup, rows: seq<Row>) {
    forall row :: row in rows ==> row.caseId in setup.slices && PlainSlices(setup.slices[row.caseId])
  }

  lemma {:induction false} AddedOnce(scores: seq<Score>, keys: seq<SliceKey>, g: GroupKey)
    ensures multiset(keys)[g.slice] == 1 ==> Added(scores, keys, g) == Named(scores, g.metric)
    ensures multiset(keys)[g.slice] == 0 ==> Added(scores, keys, g) == []
  {
    if scores != [] {
      var last := scores[|scores| - 1];
      AddedOnce(scores[..|scores| - 1], keys, g);
      assert Repeated(last, 1) == Repeated(last, 0) + [last];
    }
  }

  lemma RowAdds(setup: Setup, row: Row, m: Name, d: string, v: string)
    requires row.caseId in setup.slices && PlainSlices(setup.slices[row.caseId]) && Plain(d)
    ensures Added(Scores(setup, row), RowKeys(setup, row), GroupKey(m, OVERALL)) == Named(Scores(setup, row), m)
    ensures Added(Scores(setup, row), RowKeys(setup, row), GroupKey(m, KeyOf(d, v))) ==
            if d in setup.kept && Carrying(setup, row, d, v) then Named(Scores(setup, row), m) else []
  {
    KeyMultiplicity(setup.slices[row.caseId], setup.kept, d, v);
    AddedOnce(Scores(setup, row), RowKeys(setup, row), GroupKey(m, OVERALL));
    AddedOnce(Scores(setup, row), RowKeys(setup, row), GroupKey(m, KeyOf(d, v)));
  }

  lemma OneMoreRow(setup: Setup, front: seq<Row>, last: Row, g: GroupKey, d: string, v: string)
    ensures GroupOf(setup, front + [last], g) ==
            GroupOf(setup, front, g) + Added(Scores(setup, last), RowKeys(setup, last), g)
    ensures ScoresIn(setup, front + [last], g.metric) ==
            ScoresIn(setup, front, g.metric) + Named(Scores(setup, last), g.metric)
    ensures CarriersOf(setup, front + [last], d, v) ==
            CarriersOf(setup, front, d, v) + (if Carrying(setup, last, d, v) then [last] else [])
  {}

  lemma SliceOfOneMoreRow(setup: Setup, front: seq<Row>, last: Row, m: Name, d: string, v: string)
    requires Added(Scores(setup, last), RowKeys(setup, last), GroupKey(m, KeyOf(d, v))) ==
             if Carrying(setup, last, d, v) then Named(Scores(setup, last), m) else []
    requires GroupOf(setup, front, GroupKey(m, KeyOf(d, v))) == ScoresIn(setup, CarriersOf(setup, front, d, v), m)
    ensures GroupOf(setup, front + [last], GroupKey(m, KeyOf(d, v))) ==
            ScoresIn(setup, CarriersOf(setup, front + [last], d, v), m)
  {
    var g := GroupKey(m, KeyOf(d, v));
    OneMoreRow(setup, front, last, g, d, v);
    if Carrying(setup, last, d, v) {
      OneMoreRow(setup, CarriersOf(setup, front, d, v), last, g, d, v);
    } else {
      assert CarriersOf(setup, front + [last], d, v) == CarriersOf(setup, front, d, v);
      assert GroupOf(setup, front + [last], g) == GroupOf(setup, front, g);
    }
  }

  /** The overall group of a metric is its scores for all generations; the group of a kept slice is its
      scores for the generations whose case carries the slice; both in generation order.  A dropped
      dimension has no groups. */
  lemma {:induction false} GroupsAreSlices(setup: Setup, rows: seq<Row>, m: Name, d: string, v: string)
    requires PlainCases(setup, rows) && Plain(d)
    ensures GroupOf(setup, rows, GroupKey(m, OVERALL)) == ScoresIn(setup, rows, m)
    ensures d in setup.kept ==>
              GroupOf(setup, rows, GroupKey(m, KeyOf(d, v))) == ScoresIn(setup, CarriersOf(setup, rows, d, v), m)
    ensures d !in setup.kept ==> GroupOf(setup, rows, GroupKey(m, KeyOf(d, v))) == []
  {
    if rows != [] {
      var front, last := rows[..|rows| - 1], rows[|rows| - 1];
      assert rows == front + [last];
      GroupsAreSlices(setup, front, m, d, v);
      RowAdds(setup, last, m, d, v);
      OneMoreRow(setup, front, last, GroupKey(m, OVERALL), d, v);
      OneMoreRow(setup, front, last, GroupKey(m, KeyOf(d, v)), d, v);
      if d in setup.kept { SliceOfOneMoreRow(setup, front, last, m, d, v); }
    }
  }

  /** The groups of one dimension's values, merged. */
  ghost function Merged(setup: Setup, rows: seq<Row>, m: Name, d: string, values: seq<string>): multiset<Score> {
    if values == [] then multiset{}
    else multiset(GroupOf(setup, rows, GroupKey(m, KeyOf(d, values[0])))) + Merged(setup, rows, m, d, values[1..])
  }

  lemma {:induction false} MergedOfNone(setup: Setup, m: Name, d: string, values: seq<string>)
    ensures Merged(setup, [], m, d, values) == multiset{}
  {
    if values != [] { MergedOfNone(setup, m, d, values[1..]); }
  }

  ghost predicate CarriesOnly(setup: Setup, row: Row, d: string, v: string) {
    Carrying(setup, row, d, v) && forall w :: Carrying(setup, row, d, w) ==> w == v
  }

  ghost predicate CarriesOneOf(setup: Setup, row: Row, d: string, values: seq<string>) {
    exists v :: v in values && Carrying(setup, row, d, v)
  }

  lemma {:induction false} MergedGrows(
      setup: Setup, front: seq<Row>, last: Row, m: Name, d: string, v: string, values: seq<string>)
    requires PlainCases(setup, front + [last]) && Plain(d) && d in setup.kept && Distinct(values)
    requires CarriesOnly(setup, last, d, v)
    ensures Merged(setup, front + [last], m, d, values) ==
            Merged(setup, front, m, d, values) +
              (if v in values then multiset(Named(Scores(setup, last), m)) else multiset{})
  {
    if values != [] {
      assert last in front + [last];
      assert values == [values[0]] + values[1..];
      MergedGrows(setup, front, last, m, d, v, values[1..]);
      RowAdds(setup, last, m, d, values[0]);
      OneMoreRow(setup, front, last, GroupKey(m, KeyOf(d, values[0])), d, v);
    }
  }

  lemma OnlyOneValue(slices: Slices, d: string, v: string, w: string)
    requires OneValueEach(slices) && (d, v) in slices && (d, w) in slices
    ensures v == w
  {}

  /** When every case carries a kept dimension, its groups partition the overall group. */
  lemma {:induction false} GroupsPartition(setup: Setup, rows: seq<Row>, m: Name, d: string, values: seq<string>)
    requires PlainCases(setup, rows) && Plain(d) && d in setup.kept && Distinct(values)
    requires forall row :: row in rows ==> CarriesOneOf(setup, row, d, values)
    ensures Merged(setup, rows, m, d, values) == multiset(GroupOf(setup, rows, GroupKey(m, OVERALL)))
  {
    if rows == [] {
      MergedOfNone(setup, m, d, values);
    } else {
      var front, last := rows[..|rows| - 1], rows[|rows| - 1];
      assert rows == front + [last];
      assert last in rows;
      var v :| v in values && Carrying(setup, last, d, v);
      forall w | Carrying(setup, last, d, w) ensures w == v {
        OnlyOneValue(setup.slices[last.caseId], d, v, w);
      }
      GroupsPartition(setup, front, m, d, values);
      MergedGrows(setup, front, last, m, d, v, values);
      RowAdds(setup, last, m, d, v);
      OneMoreRow(setup, front, last, GroupKey(m, OVERALL), d, v);
    }
  }

  // ------------------------------------------------------------------ rescoring again

  lemma SameGrouping(setup: Setup, rows: seq<Row>, groups: Groups, others: Groups)
    requires IsGrouping(setup, rows, groups) && IsGrouping(setup, rows, others)
    ensures groups == others
  {
    forall g ensures (g in groups <==> g in others) && Group(groups, g) == Group(others, g) {
      assert GroupIs(setup, rows, groups, g) && GroupIs(setup, rows, others, g);
    }
    assert groups.Keys == others.Keys;
    forall g | g in groups ensures groups[g] == others[g] {
      assert Group(groups, g) == Group(others, g);
    }
  }

  lemma WritingAgainChangesNothing(
      setup: Setup, run: int, groups: Groups, a: AggregateTable, b: AggregateTable, c: AggregateTable)
    requires RegisteredGroups(setup, groups)
    requires Written(setup, run, groups, groups.Keys, a, b) && Written(setup, run, groups, groups.Keys, b, c)
    ensures c == b
  {
    forall id ensures (id in c <==> id in b) && (id in c ==> c[id] == b[id]) {
      assert RowWritten(setup, run, groups, groups.Keys, a, b, id);
      assert RowWritten(setup, run, groups, groups.Keys, b, c, id);
    }
    assert b.Keys == c.Keys;
  }

  /** A second rescore with the same metrics leaves scores and aggregates as they are. */
  lemma RescoreIsIdempotent(setup: Setup, run: int, rows: seq<Row>, a: Tables, b: Tables, c: Tables)
    requires Rescored(setup, run, rows, a, b) && Rescored(setup, run, rows, b, c)
    ensures c == b
  {
    SaveAllStores(a.scores, setup, rows);
    SavingAllAgainAddsNothing(b.scores, setup, rows);
    var first :| IsGrouping(setup, rows, first) && RegisteredGroups(setup, first)
              && Written(setup, run, first, first.Keys, a.aggregates, b.aggregates);
    var second :| IsGrouping(setup, rows, second) && RegisteredGroups(setup, second)
               && Written(setup, run, second, second.Keys, b.aggregates, c.aggregates);
    SameGrouping(setup, rows, first, second);
    WritingAgainChangesNothing(setup, run, first, a.aggregates, b.aggregates, c.aggregates);
  }

  // ------------------------------------------------------------------ counting

  ghost predicate OneScoreEach(registry: map<Name, Metric>) {
    forall m, row :: m in registry ==> |registry[m].score(row)| == 1
  }

  lemma {:induction false} NamedConcat(a: seq<Score>, b: seq<Score>, m: Name)
    ensures Named(a + b, m) == Named(a, m) + Named(b, m)
  {
    if b == [] {
      assert a + b == a;
    } else {
      NamedConcat(a, b[..|b| - 1], m);
      assert (a + b)[..|a + b| - 1] == a + b[..|b| - 1];
    }
  }

  lemma OneMoreName(setup: Setup, row: Row, front: seq<Name>, last: Name)
    requires ScoreOne(setup, row, front + [last]).Some?
    ensures ScoreOne(setup, row, front).Some? && last in setup.registry
    ensures ScoreOne(setup, row, front + [last]).value ==
            ScoreOne(setup, row, front).value + setup.registry[last].score(row)
  {}

  lemma NamedOfOne(scores: seq<Score>, m: Name)
    requires |scores| == 1
    ensures |Named(scores, m)| == if scores[0].metric == m then 1 else 0
  {}

  lemma {:induction false} OneScoreAListing(setup: Setup, row: Row, names: seq<Name>, m: Name)
    requires OwnNames(setup.registry) && OneScoreEach(setup.registry) && ScoreOne(setup, row, names).Some?
    ensures |Named(ScoreOne(setup, row, names).value, m)| == multiset(names)[m]
  {
    if names != [] {
      var front, last := names[..|names| - 1], names[|names| - 1];
      assert names == front + [last];
      OneMoreName(setup, row, front, last);
      OneScoreAListing(setup, row, front, m);
      var more := setup.registry[last].score(row);
      assert more[0] in more;
      NamedOfOne(more, m);
      NamedConcat(ScoreOne(setup, row, front).value, more, m);
    }
  }

  lemma {:induction false} ScoresInSize(setup: Setup, rows: seq<Row>, m: Name, k: nat)
    requires forall row :: row in rows ==> |Named(Scores(setup, row), m)| == k
    ensures |ScoresIn(setup, rows, m)| == |rows| * k
  {
    if rows != [] {
      var front, last := rows[..|rows| - 1], rows[|rows| - 1];
      assert rows == front + [last];
      ScoresInSize(setup, front, m, k);
      OneMoreTimes(|front|, k);
    }
  }

  /** A metric that gives one score a generation counts every generation in its overall group once for
      each time its name is listed: the count is right exactly when the name is listed once. */
  lemma OverallGroupSize(setup: Setup, rows: seq<Row>, m: Name)
    requires OwnNames(setup.registry) && OneScoreEach(setup.registry)
    requires PlainCases(setup, rows) && AllScored(setup, rows)
    ensures |GroupOf(setup, rows, GroupKey(m, OVERALL))| == |rows| * multiset(setup.names)[m]
  {
    GroupsAreSlices(setup, rows, m, "", "");
    forall row | row in rows ensures |Named(Scores(setup, row), m)| == multiset(setup.names)[m] {
      OneScoreAListing(setup, row, setup.names, m);
    }
    ScoresInSize(setup, rows, m, multiset(setup.names)[m]);
  }

  lemma {:induction false} OneScoreAName(setup: Setup, row: Row, names: seq<Name>)
    requires OneScoreEach(setup.registry) && ScoreOne(setup, row, names).Some?
    ensures |ScoreOne(setup, row, names).value| == |names|
  {
    if names != [] {
      var front, last := names[..|names| - 1], names[|names| - 1];
      assert names == front + [last];
      OneMoreName(setup, row, front, last);
      OneScoreAName(setup, row, front);
    }
  }

  /** The reported count is generations times listed metrics, whether or not a score was stored before. */
  lemma {:induction false} SavedCount(setup: Setup, rows: seq<Row>)
    requires OneScoreEach(setup.registry) && AllScored(setup, rows)
    ensures ScoreCount(setup, rows) == |rows| * |setup.names|
  {
    if rows != [] {
      var front, last := rows[..|rows| - 1], rows[|rows| - 1];
      assert rows == front + [last] && last in rows;
      SavedCount(setup, front);
      OneScoreAName(setup, last, setup.names);
      OneMoreTimes(|front|, |setup.names|);
    }
  }

  lemma {:induction false} CarriersAreRows(setup: Setup, rows: seq<Row>, d: string, v: string, row: Row)
    requires row in CarriersOf(setup, rows, d, v)
    ensures row in rows
  {
    if rows[|rows| - 1] != row { CarriersAreRows(setup, rows[..|rows| - 1], d, v, row); }
  }

  /** The same for every slice that is kept: its carriers times the listings of the metric. */
  lemma SliceGroupSize(setup: Setup, rows: seq<Row>, m: Name, d: string, v: string)
    requires OwnNames(setup.registry) && OneScoreEach(setup.registry)
    requires PlainCases(setup, rows) && AllScored(setup, rows) && Plain(d) && d in setup.kept
    ensures |GroupOf(setup, rows, GroupKey(m, KeyOf(d, v)))| ==
            |CarriersOf(setup, rows, d, v)| * multiset(setup.names)[m]
  {
    var carriers := CarriersOf(setup, rows, d, v);
    GroupsAreSlices(setup, rows, m, d, v);
    forall row | row in carriers ensures |Named(Scores(setup, row), m)| == multiset(setup.names)[m] {
      CarriersAreRows(setup, rows, d, v, row);
      OneScoreAListing(setup, row, setup.names, m);
    }
    ScoresInSize(setup, carriers, m, multiset(setup.names)[m]);
  }
}

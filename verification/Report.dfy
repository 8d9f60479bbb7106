/** Coverage and publishability of a run, as the report computes them from the stored rows. */
module Report {
  import opened Reals
  import opened Sequences
  import opened Wrappers
  import opened RunExecution
  import opened Resume

  /** Generations a complete run owes; a negative `repeats` makes it negative. */
  function PlannedCount(run: Run): int {
    |run.cases| * run.repeats
  }

  ghost function HarnessFailures(rows: map<Key, Row>): set<Key> {
    set k | k in rows && !rows[k].reply.Answered?
  }

  ghost function Coverage(run: Run, rows: map<Key, Row>): real {
    var lost := |rows| - |HarnessFailures(rows)|;
    var covered := if lost < 0 then 0 else lost;
    if PlannedCount(run) == 0 then 0.0 else covered as real / PlannedCount(run) as real
  }

  ghost predicate Publishable(run: Run, store: Store, floor: real) {
    && store.status == Completed
    && |store.rows| == PlannedCount(run)
    && Coverage(run, store.rows) >= floor
  }

  ghost function PlannedSet(run: Run): set<Key> {
    Elements(PlannedKeys(run.cases, run.repeats))
  }

  lemma PlannedSetExact(run: Run)
    requires ValidRun(run)
    ensures forall k :: k in PlannedSet(run) <==> IsPlanned(run, k)
    ensures |PlannedSet(run)| == |run.cases| * (if run.repeats < 0 then 0 else run.repeats)
  {
    PlannedKeysExact(run.cases, run.repeats);
    DistinctCardinality(PlannedKeys(run.cases, run.repeats));
    forall k: Key ensures IsPlanned(run, k) <==> IsPlanned(Run(run.cases, run.repeats, false), k) {}
  }

  lemma ProductBound(cases: nat, repeats: int)
    ensures repeats >= 0 ==> cases * repeats >= 0
    ensures repeats < 0 && cases > 0 ==> cases * repeats < 0
  {}

  lemma RatioInUnitInterval(part: int, whole: int)
    requires 0 <= part && whole != 0 && (part <= whole || part == 0)
    ensures 0.0 <= part as real / whole as real <= 1.0
  {}

  /** Coverage lies between 0 and 1 in every reachable state, for any `repeats`. */
  lemma {:induction false} CoverageInUnitInterval(run: Run, s: System)
    requires ValidRun(run) && Inv(run, s)
    ensures 0.0 <= Coverage(run, s.store.rows) <= 1.0
  {
    var rows := s.store.rows;
    PlannedSetExact(run);
    SubsetCardinality(rows.Keys, PlannedSet(run));
    SubsetCardinality(HarnessFailures(rows), rows.Keys);
    ProductBound(|run.cases|, run.repeats);
    if PlannedCount(run) != 0 {
      RatioInUnitInterval(|rows| - |HarnessFailures(rows)|, PlannedCount(run));
    }
  }

  /** A completed run has written exactly its planned count, so publishing comes down to the floor,
      if and only if the planned count is not negative. */
  lemma CompletedRunWroteItsPlan(run: Run, s: System, floor: real)
    requires ValidRun(run) && Inv(run, s) && s.store.status == Completed
    ensures |s.store.rows| == PlannedCount(run) <==> (run.repeats >= 0 || run.cases == [])
    ensures run.repeats >= 0 ==> (Publishable(run, s.store, floor) <==> Coverage(run, s.store.rows) >= floor)
  {
    PlannedSetExact(run);
    ProductBound(|run.cases|, run.repeats);
    assert s.store.rows.Keys == PlannedSet(run);
  }

  /** Rows that are absent never help: a publishable run has a row for every planned key. */
  lemma PublishableMeansNothingMissing(run: Run, s: System, floor: real)
    requires ValidRun(run) && Inv(run, s) && Publishable(run, s.store, floor)
    ensures Plan(run, s.store.rows) == []
  {
    NothingRemainsIff(run, s.store.rows);
    PlannedSetExact(run);
    ProductBound(|run.cases|, run.repeats);
    SubsetCardinality(s.store.rows.Keys, PlannedSet(run));
  }

  /** The generations that ended with a response of the model. */
  ghost function Answers(rows: map<Key, Row>): set<Key> {
    set k | k in rows && rows[k].reply.Answered?
  }

  lemma AnswersAndFailures(rows: map<Key, Row>)
    ensures |rows| == |Answers(rows)| + |HarnessFailures(rows)|
  {
    assert rows.Keys == Answers(rows) + HarnessFailures(rows);
    assert Answers(rows) !! HarnessFailures(rows);
  }

  /** Coverage is the share of cases times repeats that ended with a response: neither errors nor timeouts of
      the harness count.  So a run is publishable exactly when it completed and its responses reach the
      floor's share. */
  lemma CoverageCountsAnswers(run: Run, s: System, floor: real)
    requires ValidRun(run) && Inv(run, s) && run.cases != [] && run.repeats > 0
    ensures var planned := (|run.cases| * run.repeats) as real;
            && Times(planned, Coverage(run, s.store.rows)) == |Answers(s.store.rows)| as real
            && (Publishable(run, s.store, floor) <==>
                s.store.status == Completed && Times(planned, floor) <= |Answers(s.store.rows)| as real)
  {
    var planned, rows := PlannedCount(run), s.store.rows;
    OneMoreTimes(|run.cases| - 1, run.repeats);
    ProductBound(|run.cases| - 1, run.repeats);
    AnswersAndFailures(rows);
    DivideBack(planned as real, |Answers(rows)| as real);
    TimesOrder(planned as real, floor, Coverage(run, rows));
    if s.store.status == Completed { CompletedRunWroteItsPlan(run, s, floor); }
  }

  lemma FailuresPersist(run: Run, states: seq<System>, actions: seq<Action>, i: nat, j: nat)
    requires IsHistory(run, states, actions) && i <= j < |states|
    ensures HarnessFailures(states[i].store.rows) <= HarnessFailures(states[j].store.rows)
  {
    StoredDataNeverChanges(run, states, actions, i, j);
  }

  lemma CoverageBoundedByFailures(run: Run, s: System, failed: set<Key>)
    requires ValidRun(run) && Inv(run, s) && PlannedCount(run) > 0
    requires failed <= HarnessFailures(s.store.rows)
    ensures Coverage(run, s.store.rows) <= (PlannedCount(run) - |failed|) as real / PlannedCount(run) as real
  {
    var rows := s.store.rows;
    PlannedSetExact(run);
    ProductBound(|run.cases|, run.repeats);
    SubsetCardinality(rows.Keys, PlannedSet(run));
    SubsetCardinality(failed, HarnessFailures(rows));
    SubsetCardinality(HarnessFailures(rows), rows.Keys);
    LargerShare(|rows| - |HarnessFailures(rows)|, PlannedCount(run) - |failed|, PlannedCount(run));
  }

  lemma LargerShare(a: int, b: int, c: int)
    requires a <= b && c > 0
    ensures a as real / c as real <= b as real / c as real
  {
    DivideMonotone(a as real, b as real, c as real);
  }

  /** Resuming cannot repair a recorded harness failure: whatever happens later, coverage stays at
      most the share of planned keys that had not already failed. */
  lemma ResumeNeverRepairsFailures(run: Run, states: seq<System>, actions: seq<Action>, i: nat, j: nat)
    requires ValidRun(run) && IsHistory(run, states, actions) && Inv(run, states[0]) && i <= j < |states|
    requires PlannedCount(run) > 0
    ensures HarnessFailures(states[i].store.rows) <= HarnessFailures(states[j].store.rows)
    ensures Coverage(run, states[j].store.rows)
         <= (PlannedCount(run) - |HarnessFailures(states[i].store.rows)|) as real / PlannedCount(run) as real
  {
    FailuresPersist(run, states, actions, i, j);
    HistoryKeepsInv(run, states, actions, j);
    CoverageBoundedByFailures(run, states[j], HarnessFailures(states[i].store.rows));
  }

  /** The bound is met: a completed resumption that adds no harness failure is publishable exactly
      when the failures it started from leave room for the floor. */
  lemma ResumedRunIsPublishableIff(run: Run, states: seq<System>, actions: seq<Action>, i: nat, j: nat, floor: real)
    requires ValidRun(run) && IsHistory(run, states, actions) && Inv(run, states[0]) && i <= j < |states|
    requires PlannedCount(run) > 0 && states[j].store.status == Completed
    requires HarnessFailures(states[j].store.rows) <= HarnessFailures(states[i].store.rows)
    ensures Publishable(run, states[j].store, floor) <==>
            (PlannedCount(run) - |HarnessFailures(states[i].store.rows)|) as real / PlannedCount(run) as real >= floor
  {
    HistoryKeepsInv(run, states, actions, j);
    FailuresPersist(run, states, actions, i, j);
    ProductBound(|run.cases|, run.repeats);
    CompletedRunWroteItsPlan(run, states[j], floor);
    SubsetCardinality(HarnessFailures(states[j].store.rows), states[j].store.rows.Keys);
    assert HarnessFailures(states[j].store.rows) == HarnessFailures(states[i].store.rows);
  }

  /** A completed run whose written rows are not its planned count: one case, a negative number of repeats. */
  lemma NegativeRepeatsNeverPublish(floor: real)
    ensures var run, s := Run([Case(0, "")], -1, false), System(Store(map[], map[], Completed), None);
            ValidRun(run) && Inv(run, s) && PlannedCount(run) == -1 && !Publishable(run, s.store, floor)
  {}

  /** A run resuming never repairs: one case, whose only generation failed in the harness. */
  lemma OneFailureNeverPublishes(states: seq<System>, actions: seq<Action>, j: nat, floor: real)
    requires var run := Run([Case(0, "")], 1, false); IsHistory(run, states, actions)
    requires states[0] == System(Store(map[Key(0, 0) := Row(HarnessError, false)], map[], Failed), None)
    requires j < |states| && floor > 0.0
    ensures !Publishable(Run([Case(0, "")], 1, false), states[j].store, floor)
  {
    var run := Run([Case(0, "")], 1, false);
    var rows := states[0].store.rows;
    assert run.cases[0].id == 0 && IsPlanned(run, Key(0, 0));
    assert HarnessFailures(rows) == {Key(0, 0)};
    ResumeNeverRepairsFailures(run, states, actions, 0, j);
  }
}

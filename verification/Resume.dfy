/** Whole-run results about execution and resume: any number of passes, under any interleaving,
    shutdown, deadline or process death. */
module Resume {
  import opened Wrappers
  import opened RunExecution
  import P = WorkerPool

  /** `states[i + 1]` is `states[i]` after `actions[i]`. */
  ghost predicate StepAt(run: Run, states: seq<System>, actions: seq<Action>, i: nat)
    requires |states| == |actions| + 1 && i < |actions|
  {
    Enabled(run, states[i], actions[i]) && states[i + 1] == Next(run, states[i], actions[i])
  }

  ghost predicate IsHistory(run: Run, states: seq<System>, actions: seq<Action>) {
    |states| == |actions| + 1 && forall i: nat :: i < |actions| ==> StepAt(run, states, actions, i)
  }

  lemma {:induction false} HistoryKeepsInv(run: Run, states: seq<System>, actions: seq<Action>, j: nat)
    requires ValidRun(run) && IsHistory(run, states, actions) && Inv(run, states[0]) && j < |states|
    ensures Inv(run, states[j])
  {
    if j > 0 {
      HistoryKeepsInv(run, states, actions, j - 1);
      assert StepAt(run, states, actions, j - 1);
      StepKeepsInv(run, states[j - 1], actions[j - 1]);
    }
  }

  // ------------------------------------------------------------------ immutability

  /** Everything in `older` is in `newer`, with the same value. */
  ghost predicate Preserves(older: Store, newer: Store) {
    && (forall k :: k in older.rows ==> k in newer.rows && newer.rows[k] == older.rows[k])
    && (forall p :: p in older.cache ==> p in newer.cache && newer.cache[p] == older.cache[p])
  }

  lemma StepPreserves(run: Run, s: System, a: Action)
    requires Enabled(run, s, a)
    ensures Preserves(s.store, Next(run, s, a).store)
  {}

  lemma PreservesTransitive(a: Store, b: Store, c: Store)
    requires Preserves(a, b) && Preserves(b, c)
    ensures Preserves(a, c)
  {}

  /** No action changes or removes a row or a cache entry, whatever providers reply and whatever
      fails or is interrupted. */
  lemma {:induction false} StoredDataNeverChanges(run: Run, states: seq<System>, actions: seq<Action>, i: nat, j: nat)
    requires IsHistory(run, states, actions) && i <= j < |states|
    ensures Preserves(states[i].store, states[j].store)
  {
    if i < j {
      StoredDataNeverChanges(run, states, actions, i, j - 1);
      assert StepAt(run, states, actions, j - 1);
      StepPreserves(run, states[j - 1], actions[j - 1]);
      PreservesTransitive(states[i].store, states[j - 1].store, states[j].store);
    }
  }

  // ------------------------------------------------------------------ accounting of one pass

  /** Not produced, skipped by the shutdown short-circuit, or failed without a record. */
  ghost predicate LeftUndone(pass: Pass, i: nat) {
    i < |pass.items| && (i >= pass.pool.producer.next || i in pass.skipped || i in pass.abandoned)
  }

  lemma UndoneIffNoRow(run: Run, s: System, i: nat)
    requires Inv(run, s) && Enabled(run, s, Conclude) && i < |s.pass.value.items|
    ensures LeftUndone(s.pass.value, i) <==> s.pass.value.items[i] !in s.store.rows
  {
    var pass := s.pass.value;
    P.EndedMeansDrained(pass.pool);
    assert i in pass.pool.finished <==> i < pass.pool.producer.next;
    assert pass.items[i] in s.store.rows <==> i in pass.written;
  }

  /** A pass that ends by itself leaves to a later one exactly the items it did not produce, those
      the shutdown short-circuit skipped, and those whose failure could not be recorded. */
  lemma RemainingAfterPass(run: Run, s: System, key: Key)
    requires ValidRun(run) && Inv(run, s) && Enabled(run, s, Conclude)
    ensures key in Plan(run, Next(run, s, Conclude).store.rows) <==>
            exists i: nat :: LeftUndone(s.pass.value, i) && s.pass.value.items[i] == key
  {
    var items := s.pass.value.items;
    PlanExact(run, s.store.rows);
    if key in Plan(run, s.store.rows) {
      assert key in items;
      var i: nat :| i < |items| && items[i] == key;
      UndoneIffNoRow(run, s, i);
    }
    if i: nat :| LeftUndone(s.pass.value, i) && items[i] == key {
      UndoneIffNoRow(run, s, i);
      assert IsPlanned(run, items[i]);
    }
  }

  /** Without a shutdown request and without unrecordable failures, a pass that ends by itself
      stores every key and records "completed". */
  lemma UndisturbedPassCompletes(run: Run, s: System)
    requires ValidRun(run) && Inv(run, s) && Enabled(run, s, Conclude)
    requires !s.pass.value.pool.stopped && s.pass.value.abandoned == {}
    ensures Plan(run, Next(run, s, Conclude).store.rows) == []
    ensures Next(run, s, Conclude).store.status == Completed
  {
    var remaining := Plan(run, s.store.rows);
    P.EndedMeansDrained(s.pass.value.pool);
    if remaining != [] {
      RemainingAfterPass(run, s, remaining[0]);
    }
  }

  /** The statuses a pass can end with: "failed" needs a failure that could not be recorded, and a
      pass cut by the run deadline ends "cancelled" unless nothing remained. */
  lemma StatusAfterPass(run: Run, s: System, a: Action)
    requires ValidRun(run) && Inv(run, s) && Enabled(run, s, a) && (a.Conclude? || a.Deadline?)
    ensures var status := Next(run, s, a).store.status;
            && (status == Completed <==> forall k :: IsPlanned(run, k) ==> k in s.store.rows)
            && (status == Failed ==> a.Conclude? && s.pass.value.abandoned != {})
            && (status == Cancelled <==> status != Completed && (a.Deadline? || s.pass.value.pool.stopped))
            && status in {Completed, Cancelled, Failed}
  {
    NothingRemainsIff(run, s.store.rows);
    if a.Conclude? && !s.pass.value.pool.stopped && s.pass.value.abandoned == {} {
      UndisturbedPassCompletes(run, s);
    }
  }

  // ------------------------------------------------------------------ progress

  ghost function Fuel(s: System): int {
    if s.pass.None? then 0 else 1 + P.Measure(s.pass.value.pool, PhaseWeight())
  }

  lemma StagesAdvance(run: Run, s: System, a: Action)
    requires s.pass.Some? && Enabled(run, s, a) && IsTask(a)
    ensures var task := Task(run, s, a).value; var weight := PhaseWeight();
            && (task.Get? ==> weight(task.first) <= P.WORK_LIMIT)
            && (task.Work? ==> weight(task.work) < weight(s.pass.value.pool.workers[task.worker].work))
  {}

  lemma TaskLowersFuel(run: Run, s: System, a: Action)
    requires Inv(run, s) && Enabled(run, s, a) && IsTask(a)
    ensures 0 <= Fuel(Next(run, s, a)) < Fuel(s)
  {
    StagesAdvance(run, s, a);
    P.MeasureDecreases(s.pass.value.pool, Task(run, s, a).value, PhaseWeight());
    assert Next(run, s, a).pass.value.pool == P.Next(s.pass.value.pool, Task(run, s, a).value);
  }

  /** Every action other than launching a pass strictly lowers the fuel: a launched pass is finite. */
  lemma {:induction false} FuelDecreases(run: Run, s: System, a: Action)
    requires Inv(run, s) && Enabled(run, s, a) && !a.Launch?
    ensures 0 <= Fuel(Next(run, s, a)) < Fuel(s)
  {
    if IsTask(a) { TaskLowersFuel(run, s, a); } else { P.MeasureNonNegative(s.pass.value.pool, PhaseWeight()); }
  }

  /** What must come from outside or go wrong; the rest is the pass's own progress. */
  predicate IsInterference(a: Action) {
    a.Shutdown? || a.Throw? || a.Abandon? || a.SaveFailure? || a.Deadline? || a.ProcessDies? || a.Launch?
  }

  /** The item has failed, and its worker saves that. */
  predicate RecordsFailure(pass: Pass, a: Action) {
    a.SaveFailure? && WorkerAt(pass, a.worker) && PhaseAt(pass, a.worker) == Failing
  }

  lemma WorkerCanMove(run: Run, s: System, w: nat, reply: Reply) returns (a: Action)
    requires s.pass.Some? && WorkerAt(s.pass.value, w)
    ensures Enabled(run, s, a)
    ensures !IsInterference(a) || RecordsFailure(s.pass.value, a)
    ensures a.Respond? ==> a.reply == reply
  {
    match PhaseAt(s.pass.value, w) {
      case Opening => a := if s.pass.value.pool.stopped then Skip(w) else Open(w);
      case Looking => a := Look(w);
      case Calling => a := Respond(w, reply);
      case Depositing(_) => a := Deposit(w);
      case Persisting(_, _) => a := Persist(w);
      case Failing => a := SaveFailure(w);
    }
  }

  /** A running pass can always move by itself, given a reply from the provider: the bounded queue
      never deadlocks. */
  lemma PassCanMove(run: Run, s: System, reply: Reply) returns (a: Action)
    requires Inv(run, s) && s.pass.Some?
    ensures Enabled(run, s, a)
    ensures !IsInterference(a) || RecordsFailure(s.pass.value, a)
    ensures a.Respond? ==> a.reply == reply
  {
    var pass := s.pass.value;
    if P.AllEnded(pass.pool) {
      a := Conclude;
    } else {
      var task := P.SomeTaskCanMove(pass.pool, Opening);
      match task {
        case Check => a := ProducerChecks;
        case Put => a := ProducerPuts;
        case Get(w, _) => a := WorkerGets(w);
        case Finish(w) =>
          assert P.HoldsAt(pass.pool, w, pass.pool.workers[w].item);
          a := WorkerCanMove(run, s, w, reply);
      }
    }
  }

  /** Nothing has cut the pass short, or it has ended with every key stored. */
  ghost predicate Undisturbed(run: Run, s: System) {
    match s.pass
    case None => s.store.status == Completed && Plan(run, s.store.rows) == []
    case Some(pass) => !pass.pool.stopped && pass.abandoned == {}
  }

  predicate CutsShort(a: Action) {
    a.Launch? || a.Shutdown? || a.Abandon? || a.Deadline? || a.ProcessDies?
  }

  lemma TaskStaysUndisturbed(s: System, a: Action, task: P.Action<Phase>)
    requires s.pass.Some? && P.Enabled(s.pass.value.pool, task) && !task.Stop? && !a.Abandon?
    ensures PassAfter(s, a, task).pool.stopped == s.pass.value.pool.stopped
    ensures PassAfter(s, a, task).abandoned == s.pass.value.abandoned
  {}

  lemma StaysUndisturbed(run: Run, s: System, a: Action)
    requires ValidRun(run) && Inv(run, s) && Enabled(run, s, a) && !CutsShort(a)
    requires Undisturbed(run, s)
    ensures Undisturbed(run, Next(run, s, a))
  {
    if a.Conclude? {
      UndisturbedPassCompletes(run, s);
    } else {
      TaskStaysUndisturbed(s, a, Task(run, s, a).value);
    }
  }

  /** A history that launches one pass and is not cut short (no shutdown, deadline or process
      death, no failure that cannot be recorded) can only end with every key stored and "completed". */
  lemma {:induction false} UndisturbedHistoryCompletes(run: Run, states: seq<System>, actions: seq<Action>, j: nat)
    requires ValidRun(run) && IsHistory(run, states, actions) && Inv(run, states[0])
    requires 1 <= j < |states| && actions[0].Launch?
    requires forall i :: 0 < i < |actions| ==> !CutsShort(actions[i])
    ensures Undisturbed(run, states[j])
  {
    assert StepAt(run, states, actions, j - 1);
    if j > 1 {
      UndisturbedHistoryCompletes(run, states, actions, j - 1);
      HistoryKeepsInv(run, states, actions, j - 1);
      StaysUndisturbed(run, states[j - 1], actions[j - 1]);
    }
  }

  // ------------------------------------------------------------------ confluence

  /** What is recorded for an item is a function of its rendered prompt: the reply of the provider, or the
      failure that rendering or calling always ends in. */
  ghost predicate Faithful(run: Run, answer: string -> Reply, s: System, a: Action) {
    && (a.SaveFailure? && s.pass.Some? && WorkerAt(s.pass.value, a.worker) ==>
          answer(PromptAt(run, s.pass.value, a.worker)) == HarnessError)
    && (a.Respond? && s.pass.Some? && WorkerAt(s.pass.value, a.worker) ==>
          a.reply == answer(PromptAt(run, s.pass.value, a.worker)))
  }

  ghost predicate RowsAgree(run: Run, answer: string -> Reply, rows: map<Key, Row>) {
    forall k :: k in rows ==> IsPlanned(run, k) && rows[k].reply == answer(PromptOf(run, k))
  }

  ghost predicate CacheAgrees(run: Run, answer: string -> Reply, cache: map<string, string>) {
    run.cacheEnabled ==> forall p :: p in cache ==> answer(p) == Answered(cache[p])
  }

  ghost predicate PhaseAgrees(run: Run, answer: string -> Reply, pass: Pass, w: nat)
    requires WorkerAt(pass, w)
  {
    match PhaseAt(pass, w)
    case Looking => run.cacheEnabled
    case Depositing(text) => answer(PromptAt(run, pass, w)) == Answered(text)
    case Persisting(reply, _) => answer(PromptAt(run, pass, w)) == reply
    case _ => true
  }

  ghost predicate Agrees(run: Run, answer: string -> Reply, s: System) {
    && RowsAgree(run, answer, s.store.rows)
    && CacheAgrees(run, answer, s.store.cache)
    && (s.pass.Some? ==> forall w: nat :: WorkerAt(s.pass.value, w) ==> PhaseAgrees(run, answer, s.pass.value, w))
  }

  lemma TablesStayInAgreement(run: Run, answer: string -> Reply, s: System, a: Action)
    requires Inv(run, s) && Enabled(run, s, a) && IsTask(a)
    requires Agrees(run, answer, s) && Faithful(run, answer, s, a)
    ensures RowsAgree(run, answer, Written(run, s, a).rows)
    ensures CacheAgrees(run, answer, Written(run, s, a).cache)
  {}

  lemma WorkStaysInAgreement(run: Run, answer: string -> Reply, s: System, a: Action)
    requires Inv(run, s) && Enabled(run, s, a) && IsTask(a) && Task(run, s, a).value.Work?
    requires Agrees(run, answer, s) && Faithful(run, answer, s, a)
    ensures var pass' := Next(run, s, a).pass.value;
            WorkerAt(pass', a.worker) && PhaseAgrees(run, answer, pass', a.worker)
  {
    var pass := s.pass.value;
    assert PhaseAgrees(run, answer, pass, a.worker);
    assert PromptAt(run, Next(run, s, a).pass.value, a.worker) == PromptAt(run, pass, a.worker);
  }

  lemma OtherWorkersStay(run: Run, answer: string -> Reply, s: System, a: Action, w: nat)
    requires s.pass.Some? && WorkerAt(s.pass.value, w) && PhaseAgrees(run, answer, s.pass.value, w)
    requires Enabled(run, s, a) && IsTask(a)
    requires Next(run, s, a).pass.value.pool.workers[w] == s.pass.value.pool.workers[w]
    ensures PhaseAgrees(run, answer, Next(run, s, a).pass.value, w)
  {}

  lemma PhasesStayInAgreement(run: Run, answer: string -> Reply, s: System, a: Action, w: nat)
    requires Inv(run, s) && Enabled(run, s, a) && IsTask(a)
    requires Agrees(run, answer, s) && Faithful(run, answer, s, a)
    requires WorkerAt(Next(run, s, a).pass.value, w)
    ensures PhaseAgrees(run, answer, Next(run, s, a).pass.value, w)
  {
    var task := Task(run, s, a).value;
    if task.Work? && w == task.worker {
      WorkStaysInAgreement(run, answer, s, a);
    } else if Next(run, s, a).pass.value.pool.workers[w] == s.pass.value.pool.workers[w] {
      OtherWorkersStay(run, answer, s, a, w);
    }
  }

  lemma StepKeepsAgreement(run: Run, answer: string -> Reply, s: System, a: Action)
    requires ValidRun(run) && Inv(run, s) && Enabled(run, s, a)
    requires Agrees(run, answer, s) && Faithful(run, answer, s, a)
    ensures Agrees(run, answer, Next(run, s, a))
  {
    if IsTask(a) {
      TablesStayInAgreement(run, answer, s, a);
      forall w: nat | WorkerAt(Next(run, s, a).pass.value, w)
        ensures PhaseAgrees(run, answer, Next(run, s, a).pass.value, w)
      {
        PhasesStayInAgreement(run, answer, s, a, w);
      }
    }
  }

  lemma {:induction false} HistoryKeepsAgreement(
      run: Run, answer: string -> Reply, states: seq<System>, actions: seq<Action>, j: nat)
    requires ValidRun(run) && IsHistory(run, states, actions) && Inv(run, states[0]) && j < |states|
    requires Agrees(run, answer, states[0])
    requires forall i :: 0 <= i < |actions| ==> Faithful(run, answer, states[i], actions[i])
    ensures Agrees(run, answer, states[j])
  {
    if j > 0 {
      HistoryKeepsAgreement(run, answer, states, actions, j - 1);
      HistoryKeepsInv(run, states, actions, j - 1);
      assert StepAt(run, states, actions, j - 1);
      StepKeepsAgreement(run, answer, states[j - 1], actions[j - 1]);
    }
  }

  /** One item by itself: served from the cache, or answered, deposited and saved. */
  ghost function RunOne(run: Run, answer: string -> Reply, store: Store, key: Key): Store
    requires IsPlanned(run, key)
  {
    var prompt := PromptOf(run, key);
    if run.cacheEnabled && prompt in store.cache then
      SaveGeneration(store, key, Row(Answered(store.cache[prompt]), true))
    else
      var reply := answer(prompt);
      var deposited := if run.cacheEnabled && reply.Answered? then PutCache(store, prompt, reply.text) else store;
      SaveGeneration(deposited, key, Row(reply, false))
  }

  ghost predicate AllPlanned(run: Run, keys: seq<Key>) {
    forall i :: 0 <= i < |keys| ==> IsPlanned(run, keys[i])
  }

  /** The reference: the remaining keys one after another, in plan order. */
  ghost function RunInOrder(run: Run, answer: string -> Reply, store: Store, keys: seq<Key>): Store
    requires AllPlanned(run, keys)
  {
    if keys == [] then store
    else
      var front := keys[..|keys| - 1];
      RunOne(run, answer, RunInOrder(run, answer, store, front), keys[|keys| - 1])
  }

  /** The key-to-output map; `cached` flags and attempt logs do depend on the interleaving. */
  function Outputs(store: Store): map<Key, Reply> {
    map k | k in store.rows :: store.rows[k].reply
  }

  lemma RunOneAgrees(run: Run, answer: string -> Reply, store: Store, key: Key)
    requires IsPlanned(run, key) && RowsAgree(run, answer, store.rows) && CacheAgrees(run, answer, store.cache)
    ensures var after := RunOne(run, answer, store, key);
            && RowsAgree(run, answer, after.rows) && CacheAgrees(run, answer, after.cache)
            && after.rows.Keys == store.rows.Keys + {key}
  {}

  lemma {:induction false} RunInOrderStoresAll(run: Run, answer: string -> Reply, store: Store, keys: seq<Key>)
    requires AllPlanned(run, keys)
    requires RowsAgree(run, answer, store.rows) && CacheAgrees(run, answer, store.cache)
    ensures var final := RunInOrder(run, answer, store, keys);
            && RowsAgree(run, answer, final.rows) && CacheAgrees(run, answer, final.cache)
            && forall k :: k in final.rows <==> k in store.rows || k in keys
  {
    if keys != [] {
      var front, last := keys[..|keys| - 1], keys[|keys| - 1];
      assert keys == front + [last];
      RunInOrderStoresAll(run, answer, store, front);
      RunOneAgrees(run, answer, RunInOrder(run, answer, store, front), last);
    }
  }

  lemma SameOutputs(run: Run, answer: string -> Reply, a: Store, b: Store)
    requires RowsAgree(run, answer, a.rows) && RowsAgree(run, answer, b.rows) && a.rows.Keys == b.rows.Keys
    ensures Outputs(a) == Outputs(b)
  {}

  /** Confluence of resume: however often the run was launched, with however many workers, and
      however it was interrupted, once nothing remains the outputs are those of a single
      uninterrupted sequential pass from the same start. */
  lemma ResumeIsConfluent(run: Run, answer: string -> Reply, states: seq<System>, actions: seq<Action>)
    requires ValidRun(run) && IsHistory(run, states, actions) && Inv(run, states[0])
    requires Agrees(run, answer, states[0])
    requires forall i :: 0 <= i < |actions| ==> Faithful(run, answer, states[i], actions[i])
    requires Plan(run, states[|actions|].store.rows) == []
    ensures AllPlanned(run, Plan(run, states[0].store.rows))
    ensures Outputs(states[|actions|].store) ==
            Outputs(RunInOrder(run, answer, states[0].store, Plan(run, states[0].store.rows)))
  {
    HistoryKeepsInv(run, states, actions, |actions|);
    HistoryKeepsAgreement(run, answer, states, actions, |actions|);
    FinishedLikeRunInOrder(run, answer, states[0].store, states[|actions|].store);
  }

  lemma {:induction false} FinishedLikeRunInOrder(run: Run, answer: string -> Reply, first: Store, last: Store)
    requires ValidRun(run) && Plan(run, last.rows) == []
    requires RowsAgree(run, answer, first.rows) && CacheAgrees(run, answer, first.cache)
    requires RowsAgree(run, answer, last.rows)
    ensures AllPlanned(run, Plan(run, first.rows))
    ensures Outputs(last) == Outputs(RunInOrder(run, answer, first, Plan(run, first.rows)))
  {
    var keys := Plan(run, first.rows);
    PlanExact(run, first.rows);
    forall i | 0 <= i < |keys| ensures IsPlanned(run, keys[i]) { assert keys[i] in keys; }
    RunInOrderStoresAll(run, answer, first, keys);
    var final := RunInOrder(run, answer, first, keys);
    NothingRemainsIff(run, last.rows);
    forall k ensures k in last.rows.Keys <==> k in final.rows.Keys {
      assert k in final.rows <==> k in first.rows || k in keys;
    }
    SameOutputs(run, answer, last, final);
  }

  /** So any two histories from one start that end with nothing remaining end with the same outputs. */
  lemma CompleteHistoriesAgree(
      run: Run, answer: string -> Reply,
      states: seq<System>, actions: seq<Action>, others: seq<System>, doings: seq<Action>)
    requires ValidRun(run) && IsHistory(run, states, actions) && IsHistory(run, others, doings)
    requires states[0] == others[0] && Inv(run, states[0]) && Agrees(run, answer, states[0])
    requires forall i :: 0 <= i < |actions| ==> Faithful(run, answer, states[i], actions[i])
    requires forall i :: 0 <= i < |doings| ==> Faithful(run, answer, others[i], doings[i])
    requires Plan(run, states[|actions|].store.rows) == [] && Plan(run, others[|doings|].store.rows) == []
    ensures Outputs(states[|actions|].store) == Outputs(others[|doings|].store)
  {
    ResumeIsConfluent(run, answer, states, actions);
    ResumeIsConfluent(run, answer, others, doings);
  }

  lemma PromptOfCase(run: Run, i: nat, repeatIdx: int)
    requires ValidRun(run) && i < |run.cases| && 0 <= repeatIdx < run.repeats
    ensures IsPlanned(run, Key(run.cases[i].id, repeatIdx))
    ensures PromptOf(run, Key(run.cases[i].id, repeatIdx)) == run.cases[i].prompt
  {}

  /** Told from the cases alone: when nothing remains, every repeat of every case has the reply to that case's
      own prompt, whichever of them came from the cache. */
  lemma EveryCaseHasItsAnswer(
      run: Run, answer: string -> Reply, states: seq<System>, actions: seq<Action>, i: nat, repeatIdx: int)
    requires ValidRun(run) && IsHistory(run, states, actions) && Inv(run, states[0])
    requires Agrees(run, answer, states[0])
    requires forall j :: 0 <= j < |actions| ==> Faithful(run, answer, states[j], actions[j])
    requires Plan(run, states[|actions|].store.rows) == []
    requires i < |run.cases| && 0 <= repeatIdx < run.repeats
    ensures var rows, key := states[|actions|].store.rows, Key(run.cases[i].id, repeatIdx);
            key in rows && rows[key].reply == answer(run.cases[i].prompt)
  {
    HistoryKeepsAgreement(run, answer, states, actions, |actions|);
    NothingRemainsIff(run, states[|actions|].store.rows);
    PromptOfCase(run, i, repeatIdx);
  }
}

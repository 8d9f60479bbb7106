/** Planning, executing and resuming a run: the worker pool, the atomic steps of one item, the
    stored generations and the response cache, and the status a pass records. */
module RunExecution {
  import opened Sequences
  import opened Wrappers
  import P = WorkerPool

  // ------------------------------------------------------------------ data

  /** `prompt` is the case rendered under the run's template, the text the cache key digests. */
  datatype Case = Case(id: int, prompt: string)

  datatype Run = Run(cases: seq<Case>, repeats: int, cacheEnabled: bool)

  datatype Key = Key(caseId: int, repeatIdx: int)

  /** What one case comes to: a response, or one of the two harness verdicts without one. */
  datatype Reply = Answered(text: string) | HarnessError | HarnessTimeout

  datatype Row = Row(reply: Reply, cached: bool)

  datatype Status = Queued | Running | Completed | Cancelled | Failed

  datatype Store = Store(rows: map<Key, Row>, cache: map<string, string>, status: Status)

  /** Primary keys are distinct. */
  ghost predicate ValidRun(run: Run) {
    forall i, j :: 0 <= i < j < |run.cases| ==> run.cases[i].id != run.cases[j].id
  }

  // ------------------------------------------------------------------ planning

  /** The keys of one case: its id with each repeat index below `repeats`. */
  function KeysOfCase(c: Case, repeats: int): (keys: seq<Key>) {
    if repeats <= 0 then [] else seq(repeats, i requires 0 <= i => Key(c.id, i))
  }

  function PlannedKeys(cases: seq<Case>, repeats: int): seq<Key> {
    if cases == [] then [] else KeysOfCase(cases[0], repeats) + PlannedKeys(cases[1..], repeats)
  }

  function Missing(keys: seq<Key>, rows: map<Key, Row>): seq<Key> {
    if keys == [] then []
    else (if keys[0] in rows then [] else [keys[0]]) + Missing(keys[1..], rows)
  }

  function Plan(run: Run, rows: map<Key, Row>): seq<Key> {
    Missing(PlannedKeys(run.cases, run.repeats), rows)
  }

  ghost predicate IsPlanned(run: Run, key: Key) {
    && 0 <= key.repeatIdx < run.repeats
    && exists i :: 0 <= i < |run.cases| && run.cases[i].id == key.caseId
  }

  lemma KeysOfCaseExact(c: Case, repeats: int, k: Key)
    ensures k in KeysOfCase(c, repeats) <==> k.caseId == c.id && 0 <= k.repeatIdx < repeats
  {
    if k.caseId == c.id && 0 <= k.repeatIdx < repeats { assert KeysOfCase(c, repeats)[k.repeatIdx] == k; }
  }

  lemma {:induction false} PlannedKeysAre(cases: seq<Case>, repeats: int, k: Key)
    ensures k in PlannedKeys(cases, repeats) <==> IsPlanned(Run(cases, repeats, false), k)
  {
    if cases != [] {
      var rest := cases[1..];
      PlannedKeysAre(rest, repeats, k);
      KeysOfCaseExact(cases[0], repeats, k);
      if i :| 0 <= i < |rest| && rest[i].id == k.caseId { assert cases[i + 1].id == k.caseId; }
      if i :| 0 <= i < |cases| && cases[i].id == k.caseId { assert i > 0 ==> rest[i - 1].id == k.caseId; }
    }
  }

  lemma {:induction false} PlannedKeysOnce(cases: seq<Case>, repeats: int)
    requires ValidRun(Run(cases, repeats, false))
    ensures Distinct(PlannedKeys(cases, repeats))
    ensures |PlannedKeys(cases, repeats)| == |cases| * (if repeats < 0 then 0 else repeats)
  {
    if cases != [] {
      var first, rest := KeysOfCase(cases[0], repeats), cases[1..];
      PlannedKeysOnce(rest, repeats);
      forall k | k in first ensures k !in PlannedKeys(rest, repeats) {
        KeysOfCaseExact(cases[0], repeats, k);
        PlannedKeysAre(rest, repeats, k);
        assert forall i :: 0 <= i < |rest| ==> rest[i] == cases[i + 1];
      }
      DistinctConcat(first, PlannedKeys(rest, repeats));
    }
  }

  /** The planned keys are exactly cases times repeats, each once. */
  lemma PlannedKeysExact(cases: seq<Case>, repeats: int)
    requires ValidRun(Run(cases, repeats, false))
    ensures forall k :: k in PlannedKeys(cases, repeats) <==> IsPlanned(Run(cases, repeats, false), k)
    ensures Distinct(PlannedKeys(cases, repeats))
    ensures |PlannedKeys(cases, repeats)| == |cases| * (if repeats < 0 then 0 else repeats)
  {
    var keys := PlannedKeys(cases, repeats);
    forall k: Key ensures k in keys <==> IsPlanned(Run(cases, repeats, false), k) { PlannedKeysAre(cases, repeats, k); }
    PlannedKeysOnce(cases, repeats);
  }

  lemma {:induction false} MissingExact(keys: seq<Key>, rows: map<Key, Row>)
    requires Distinct(keys)
    ensures forall k :: k in Missing(keys, rows) <==> k in keys && k !in rows
    ensures Distinct(Missing(keys, rows))
  {
    if keys != [] {
      assert keys == [keys[0]] + keys[1..];
      MissingExact(keys[1..], rows);
      assert keys[0] !in keys[1..];
      DistinctConcat(if keys[0] in rows then [] else [keys[0]], Missing(keys[1..], rows));
    }
  }

  /** Planning returns, each once, the keys of cases times repeats that have no row. */
  lemma PlanExact(run: Run, rows: map<Key, Row>)
    requires ValidRun(run)
    ensures forall k :: k in Plan(run, rows) <==> IsPlanned(run, k) && k !in rows
    ensures Distinct(Plan(run, rows))
  {
    PlannedKeysExact(run.cases, run.repeats);
    MissingExact(PlannedKeys(run.cases, run.repeats), rows);
    forall k: Key
      ensures IsPlanned(run, k) <==> IsPlanned(Run(run.cases, run.repeats, false), k)
    {}
  }

  /** Nothing remains exactly when every planned key has a row. */
  lemma NothingRemainsIff(run: Run, rows: map<Key, Row>)
    requires ValidRun(run)
    ensures Plan(run, rows) == [] <==> forall k :: IsPlanned(run, k) ==> k in rows
  {
    var remaining := Plan(run, rows);
    PlanExact(run, rows);
    assert forall k :: IsPlanned(run, k) && k !in rows ==> k in remaining;
    assert remaining != [] ==> IsPlanned(run, remaining[0]) && remaining[0] !in rows;
  }

  ghost function PromptOf(run: Run, key: Key): string
    requires IsPlanned(run, key)
  {
    var i :| 0 <= i < |run.cases| && run.cases[i].id == key.caseId;
    run.cases[i].prompt
  }

  // ------------------------------------------------------------------ the store's writes

  /** Insert or ignore: an existing row of the same identity wins. */
  function SaveGeneration(store: Store, key: Key, row: Row): Store {
    if key in store.rows then store else store.(rows := store.rows[key := row])
  }

  /** First writer wins. */
  function PutCache(store: Store, prompt: string, text: string): Store {
    if prompt in store.cache then store else store.(cache := store.cache[prompt := text])
  }

  /** The status recorded when a pass is over. */
  function FinalStatus(remaining: nat, workerFailures: bool, shutdownRequested: bool): Status {
    if remaining == 0 && !workerFailures then Completed
    else if shutdownRequested then Cancelled
    else Failed
  }

  // ------------------------------------------------------------------ one pass

  /** Where a worker stands with the item it holds; each constructor names what comes next. */
  datatype Phase =
    | Opening
    | Looking
    | Calling
    | Depositing(text: string)
    | Persisting(reply: Reply, cached: bool)
    | Failing

  function PhaseWeight(): Phase -> nat {
    (phase: Phase) =>
      match phase
      case Opening => 6
      case Looking => 5
      case Calling => 4
      case Depositing(_) => 3
      case Persisting(_, _) => 2
      case Failing => 1
  }

  /** History sets: item indices finished with a row, by the shutdown short-circuit, and by a
      failure that could not even be recorded. */
  datatype Pass = Pass(
    items: seq<Key>,
    pool: P.Pool<Phase>,
    written: set<nat>,
    skipped: set<nat>,
    abandoned: set<nat>)

  datatype System = System(store: Store, pass: Option<Pass>)

  datatype Action =
    | Launch(concurrency: int)
    | Shutdown
    | ProducerChecks
    | ProducerPuts
    | WorkerGets(worker: nat)
    | Skip(worker: nat)
    | Open(worker: nat)
    | Look(worker: nat)
    | Respond(worker: nat, reply: Reply)
    | Deposit(worker: nat)
    | Persist(worker: nat)
    | Throw(worker: nat)
    | SaveFailure(worker: nat)
    | Abandon(worker: nat)
    | Conclude
    | Deadline
    | ProcessDies

  predicate WorkerAt(pass: Pass, worker: nat) {
    && P.IsBusy(pass.pool, worker)
    && pass.pool.workers[worker].item < |pass.items|
  }

  function PhaseAt(pass: Pass, worker: nat): Phase
    requires WorkerAt(pass, worker)
  {
    pass.pool.workers[worker].work
  }

  function ItemAt(pass: Pass, worker: nat): nat
    requires WorkerAt(pass, worker)
  {
    pass.pool.workers[worker].item
  }

  ghost function PromptAt(run: Run, pass: Pass, worker: nat): string
    requires WorkerAt(pass, worker)
  {
    var key := pass.items[ItemAt(pass, worker)];
    if IsPlanned(run, key) then PromptOf(run, key) else ""
  }

  /** The move of the pool behind an action of a running pass. */
  ghost function Task(run: Run, s: System, a: Action): Option<P.Action<Phase>> {
    if s.pass.None? then None else
    var pass := s.pass.value;
    match a
    case Shutdown => Some(P.Stop)
    case ProducerChecks => Some(P.Check)
    case ProducerPuts => Some(P.Put)
    case WorkerGets(w) => Some(P.Get(w, Opening))
    case Skip(w) =>
      if WorkerAt(pass, w) && PhaseAt(pass, w) == Opening && pass.pool.stopped then Some(P.Finish(w)) else None
    case Open(w) =>
      if WorkerAt(pass, w) && PhaseAt(pass, w) == Opening && !pass.pool.stopped then
        Some(P.Work(w, if run.cacheEnabled then Looking else Calling))
      else None
    case Look(w) =>
      if WorkerAt(pass, w) && PhaseAt(pass, w) == Looking then
        var prompt := PromptAt(run, pass, w);
        Some(P.Work(w, if prompt in s.store.cache then Persisting(Answered(s.store.cache[prompt]), true) else Calling))
      else None
    case Respond(w, reply) =>
      if WorkerAt(pass, w) && PhaseAt(pass, w) == Calling then
        var deposit := run.cacheEnabled && reply.Answered?;
        Some(P.Work(w, if deposit then Depositing(reply.text) else Persisting(reply, false)))
      else None
    case Deposit(w) =>
      if WorkerAt(pass, w) && PhaseAt(pass, w).Depositing? then
        Some(P.Work(w, Persisting(Answered(PhaseAt(pass, w).text), false)))
      else None
    case Persist(w) =>
      if WorkerAt(pass, w) && PhaseAt(pass, w).Persisting? then Some(P.Finish(w)) else None
    case Throw(w) =>
      var started := WorkerAt(pass, w) && !PhaseAt(pass, w).Opening? && !PhaseAt(pass, w).Failing?;
      if started then Some(P.Work(w, Failing)) else None
    case SaveFailure(w) =>
      if WorkerAt(pass, w) && PhaseAt(pass, w).Failing? then Some(P.Finish(w)) else None
    case Abandon(w) =>
      if WorkerAt(pass, w) && PhaseAt(pass, w).Failing? then Some(P.Finish(w)) else None
    case _ => None
  }

  /** What an action writes: only `Deposit`, `Persist` and `SaveFailure` touch the tables. */
  ghost function Written(run: Run, s: System, a: Action): Store {
    if s.pass.None? then s.store else
    var pass := s.pass.value;
    match a
    case Deposit(w) =>
      if WorkerAt(pass, w) && PhaseAt(pass, w).Depositing? then
        PutCache(s.store, PromptAt(run, pass, w), PhaseAt(pass, w).text)
      else s.store
    case Persist(w) =>
      if WorkerAt(pass, w) && PhaseAt(pass, w).Persisting? then
        SaveGeneration(s.store, pass.items[ItemAt(pass, w)], Row(PhaseAt(pass, w).reply, PhaseAt(pass, w).cached))
      else s.store
    case SaveFailure(w) =>
      if WorkerAt(pass, w) then
        SaveGeneration(s.store, pass.items[ItemAt(pass, w)], Row(HarnessError, false))
      else s.store
    case _ => s.store
  }

  ghost predicate Enabled(run: Run, s: System, a: Action) {
    match a
    case Launch(_) => s.pass.None?
    case Conclude => s.pass.Some? && P.AllEnded(s.pass.value.pool)
    case Deadline => s.pass.Some?
    case ProcessDies => s.pass.Some?
    case _ => s.pass.Some? && Task(run, s, a).Some? && P.Enabled(s.pass.value.pool, Task(run, s, a).value)
  }

  function WorkerCount(concurrency: int): nat {
    if concurrency < 1 then 1 else concurrency
  }

  /** Replan against the rows as they stand, then record the status. */
  function EndPass(run: Run, store: Store, workerFailures: bool, shutdownRequested: bool): System {
    System(store.(status := FinalStatus(|Plan(run, store.rows)|, workerFailures, shutdownRequested)), None)
  }

  ghost function PassAfter(s: System, a: Action, task: P.Action<Phase>): Pass
    requires s.pass.Some? && P.Enabled(s.pass.value.pool, task)
  {
    var pass := s.pass.value.(pool := P.Next(s.pass.value.pool, task));
    if !task.Finish? then pass
    else
      var item := s.pass.value.pool.workers[task.worker].item;
      if a.Skip? then pass.(skipped := pass.skipped + {item})
      else if a.Abandon? then pass.(abandoned := pass.abandoned + {item})
      else pass.(written := pass.written + {item})
  }

  ghost function Next(run: Run, s: System, a: Action): System
    requires Enabled(run, s, a)
  {
    match a
    case Launch(concurrency) =>
      var items := Plan(run, s.store.rows);
      s.(pass := Some(Pass(items, P.Start(|items|, WorkerCount(concurrency)), {}, {}, {})))
    case Conclude => EndPass(run, s.store, false, s.pass.value.pool.stopped)
    case Deadline => EndPass(run, s.store, false, true)
    case ProcessDies => s.(pass := None)
    case _ => System(Written(run, s, a), Some(PassAfter(s, a, Task(run, s, a).value)))
  }

  // ------------------------------------------------------------------ invariants

  /** During a pass the planned items are distinct planned keys, and an item has a row exactly when
      this pass wrote it. */
  ghost predicate PassInv(run: Run, s: System, pass: Pass) {
    && P.Inv(pass.pool)
    && |pass.pool.workers| > 0
    && (forall w :: 0 <= w < |pass.pool.workers| ==> !pass.pool.workers[w].Crashed?)
    && pass.pool.total == |pass.items|
    && Distinct(pass.items)
    && (forall i: nat :: i < |pass.items| ==> IsPlanned(run, pass.items[i]))
    && (forall k :: IsPlanned(run, k) && k !in s.store.rows ==> k in pass.items)
    && (forall i: nat :: i < |pass.items| ==> (pass.items[i] in s.store.rows <==> i in pass.written))
    && pass.pool.finished == pass.written + pass.skipped + pass.abandoned
    && (pass.skipped != {} ==> pass.pool.stopped)
    && pass.written !! pass.skipped + pass.abandoned
  }

  ghost predicate Inv(run: Run, s: System) {
    && (forall k :: k in s.store.rows ==> IsPlanned(run, k))
    && (s.store.status == Completed ==> forall k :: IsPlanned(run, k) ==> k in s.store.rows)
    && (s.pass.Some? ==> PassInv(run, s, s.pass.value))
  }

  lemma EndPassKeepsInv(run: Run, s: System, workerFailures: bool, shutdownRequested: bool)
    requires ValidRun(run) && Inv(run, s)
    ensures Inv(run, EndPass(run, s.store, workerFailures, shutdownRequested))
  {
    NothingRemainsIff(run, s.store.rows);
  }

  lemma LaunchKeepsInv(run: Run, s: System, a: Action)
    requires ValidRun(run) && Inv(run, s) && Enabled(run, s, a) && a.Launch?
    ensures Inv(run, Next(run, s, a))
  {
    PlanExact(run, s.store.rows);
    P.StartInv<Phase>(|Plan(run, s.store.rows)|, WorkerCount(a.concurrency));
  }

  predicate IsTask(a: Action) {
    !a.Launch? && !a.Conclude? && !a.Deadline? && !a.ProcessDies?
  }

  /** The row a saving task writes: what the item came to, or the failure it ended in. */
  ghost function RowOf(pass: Pass, a: Action): Row
    requires a.Persist? || a.SaveFailure?
    requires WorkerAt(pass, a.worker) && (a.Persist? ==> PhaseAt(pass, a.worker).Persisting?)
  {
    if a.Persist? then Row(PhaseAt(pass, a.worker).reply, PhaseAt(pass, a.worker).cached) else Row(HarnessError, false)
  }

  /** The writes of one task: at most one row, of what the held item came to, at that item's key, which had
      none, and only by the two saves. */
  lemma WrittenRows(run: Run, s: System, a: Action)
    requires Inv(run, s) && Enabled(run, s, a) && IsTask(a)
    ensures Written(run, s, a).status == s.store.status
    ensures var pass := s.pass.value; var task := Task(run, s, a).value;
            if a.Persist? || a.SaveFailure? then
              && task == P.Finish(a.worker) && WorkerAt(pass, a.worker)
              && (a.Persist? ==> PhaseAt(pass, a.worker).Persisting?)
              && var key := pass.items[ItemAt(pass, a.worker)];
                 && key !in s.store.rows
                 && Written(run, s, a).rows == s.store.rows[key := RowOf(pass, a)]
            else Written(run, s, a).rows == s.store.rows
  {
    if a.Persist? || a.SaveFailure? {
      assert P.HoldsAt(s.pass.value.pool, a.worker, ItemAt(s.pass.value, a.worker));
    }
  }

  /** What a task does to the pass, whatever the task. */
  lemma PassFrame(s: System, a: Action, task: P.Action<Phase>)
    requires s.pass.Some? && P.Inv(s.pass.value.pool) && P.Enabled(s.pass.value.pool, task) && !task.Crash?
    requires forall w :: 0 <= w < |s.pass.value.pool.workers| ==> !s.pass.value.pool.workers[w].Crashed?
    ensures var pass, pass' := s.pass.value, PassAfter(s, a, task);
            && pass'.items == pass.items && P.Inv(pass'.pool)
            && pass'.pool.total == pass.pool.total && |pass'.pool.workers| == |pass.pool.workers|
            && (forall w :: 0 <= w < |pass'.pool.workers| ==> !pass'.pool.workers[w].Crashed?)
  {
    P.StepKeepsInv(s.pass.value.pool, task);
  }

  ghost predicate HistoryAddsUp(pass: Pass) {
    && pass.pool.finished == pass.written + pass.skipped + pass.abandoned
    && pass.written !! pass.skipped + pass.abandoned
    && (pass.skipped != {} ==> pass.pool.stopped)
  }

  /** A finished item enters exactly one history set. */
  lemma HistoryGrows(s: System, a: Action, task: P.Action<Phase>)
    requires s.pass.Some? && P.Inv(s.pass.value.pool) && P.Enabled(s.pass.value.pool, task)
    requires HistoryAddsUp(s.pass.value)
    requires a.Skip? ==> s.pass.value.pool.stopped
    ensures HistoryAddsUp(PassAfter(s, a, task))
  {
    var pass := s.pass.value;
    if task.Finish? { P.HeldItemIsUnfinished(pass.pool, task.worker); }
  }

  lemma RowsFollowHistory(run: Run, s: System, a: Action, i: nat)
    requires Inv(run, s) && Enabled(run, s, a) && IsTask(a) && i < |s.pass.value.items|
    ensures s.pass.value.items[i] in Next(run, s, a).store.rows <==> i in Next(run, s, a).pass.value.written
  {
    WrittenRows(run, s, a);
    assert s.pass.value.items[i] in s.store.rows <==> i in s.pass.value.written;
  }

  lemma {:induction false} TaskKeepsPassInv(run: Run, s: System, a: Action)
    requires Inv(run, s) && Enabled(run, s, a) && IsTask(a)
    ensures PassInv(run, Next(run, s, a), Next(run, s, a).pass.value)
  {
    PassFrame(s, a, Task(run, s, a).value);
    HistoryGrows(s, a, Task(run, s, a).value);
    WrittenRows(run, s, a);
    var next := Next(run, s, a);
    forall i: nat | i < |s.pass.value.items|
      ensures s.pass.value.items[i] in next.store.rows <==> i in next.pass.value.written
    {
      RowsFollowHistory(run, s, a, i);
    }
  }

  /** Every action of every interleaving keeps the invariant: stored keys stay within cases times
      repeats, and a recorded "completed" means all of them are stored. */
  lemma StepKeepsInv(run: Run, s: System, a: Action)
    requires ValidRun(run) && Inv(run, s) && Enabled(run, s, a)
    ensures Inv(run, Next(run, s, a))
  {
    if IsTask(a) {
      TaskKeepsPassInv(run, s, a);
      WrittenRows(run, s, a);
    } else if a.Launch? {
      LaunchKeepsInv(run, s, a);
    } else if a.Conclude? {
      EndPassKeepsInv(run, s, false, s.pass.value.pool.stopped);
    } else if a.Deadline? {
      EndPassKeepsInv(run, s, false, true);
    }
  }

  /** A pass starts with every planned key that has no row, each once, all of them unproduced, and with as many
      idle workers as were asked for, but at least one. */
  lemma LaunchedPass(run: Run, s: System, concurrency: int)
    requires ValidRun(run) && s.pass.None?
    ensures Enabled(run, s, Launch(concurrency))
    ensures var next := Next(run, s, Launch(concurrency));
            && next.store == s.store && next.pass.Some?
            && var pass := next.pass.value;
               && Distinct(pass.items)
               && (forall k :: k in pass.items <==> IsPlanned(run, k) && k !in s.store.rows)
               && (concurrency >= 1 ==> |pass.pool.workers| == concurrency)
               && (concurrency < 1 ==> |pass.pool.workers| == 1)
               && (forall w :: 0 <= w < |pass.pool.workers| ==> pass.pool.workers[w].Idle?)
               && !pass.pool.stopped && pass.pool.queue == [] && pass.pool.producer == P.Checking(0)
  {
    PlanExact(run, s.store.rows);
  }

  /** An item can fail at every stage once its worker has looked at the stop flag; the failure then either is
      saved as a row of its own or leaves no row at all. */
  lemma FailureIsSavedOrLost(run: Run, s: System, w: nat)
    requires Inv(run, s) && s.pass.Some? && WorkerAt(s.pass.value, w)
    requires PhaseAt(s.pass.value, w) != Opening && PhaseAt(s.pass.value, w) != Failing
    ensures Enabled(run, s, Throw(w))
    ensures var failed := Next(run, s, Throw(w));
            failed.store == s.store && Enabled(run, failed, SaveFailure(w)) && Enabled(run, failed, Abandon(w))
    ensures var saved := Next(run, Next(run, s, Throw(w)), SaveFailure(w)); var item := ItemAt(s.pass.value, w);
            && saved.store.rows == s.store.rows[s.pass.value.items[item] := Row(HarnessError, false)]
            && saved.store.cache == s.store.cache && item in saved.pass.value.written
    ensures var lost := Next(run, Next(run, s, Throw(w)), Abandon(w));
            lost.store == s.store && ItemAt(s.pass.value, w) in lost.pass.value.abandoned
  {
    assert P.HoldsAt(s.pass.value.pool, w, ItemAt(s.pass.value, w));
    StepKeepsFailing(run, s, w);
  }

  lemma StepKeepsFailing(run: Run, s: System, w: nat)
    requires s.pass.Some? && WorkerAt(s.pass.value, w)
    requires PhaseAt(s.pass.value, w) != Opening && PhaseAt(s.pass.value, w) != Failing
    ensures Enabled(run, s, Throw(w))
    ensures var failed := Next(run, s, Throw(w));
            && failed.pass.Some? && WorkerAt(failed.pass.value, w)
            && PhaseAt(failed.pass.value, w) == Failing && ItemAt(failed.pass.value, w) == ItemAt(s.pass.value, w)
            && failed.pass.value.items == s.pass.value.items
  {}
}

/** The sequential reference as a history: one worker and no interruption. */
module Sequential {
  import opened Wrappers
  import opened RunExecution
  import opened Resume
  import P = WorkerPool

  /** Where one item stands, `before` being the store when the worker took it. */
  ghost predicate ItemUnderWay(run: Run, answer: string -> Reply, before: Store, now: Store, key: Key, phase: Phase)
    requires IsPlanned(run, key)
  {
    var prompt := PromptOf(run, key);
    match phase
    case Opening => now == before
    case Looking => now == before && run.cacheEnabled
    case Calling => now == before && !(run.cacheEnabled && prompt in before.cache)
    case Depositing(text) =>
      now == before && run.cacheEnabled && prompt !in before.cache && answer(prompt) == Answered(text)
    case Persisting(reply, cached) =>
      SaveGeneration(now, key, Row(reply, cached)) == RunOne(run, answer, before, key)
    case Failing => false
  }

  /** The pass of a single worker has run the items it has finished, in order, and nothing else. */
  ghost predicate InOrder(run: Run, answer: string -> Reply, start: Store, s: System) {
    && s.pass.Some?
    && var pass := s.pass.value;
       && AllPlanned(run, pass.items) && pass.items == Plan(run, start.rows)
       && |pass.pool.workers| == 1 && !pass.pool.stopped && pass.pool.taken <= |pass.items|
       && match pass.pool.workers[0]
          case Busy(item, phase) =>
            && item + 1 == pass.pool.taken
            && var before := RunInOrder(run, answer, start, pass.items[..item]);
               ItemUnderWay(run, answer, before, s.store, pass.items[item], phase)
          case Crashed(_) => false
          case _ => s.store == RunInOrder(run, answer, start, pass.items[..pass.pool.taken])
  }

  lemma LaunchInOrder(run: Run, answer: string -> Reply, s: System, concurrency: int)
    requires ValidRun(run) && s.pass.None? && WorkerCount(concurrency) == 1
    ensures InOrder(run, answer, s.store, Next(run, s, Launch(concurrency)))
  {
    var keys := Plan(run, s.store.rows);
    PlanExact(run, s.store.rows);
    forall i | 0 <= i < |keys| ensures IsPlanned(run, keys[i]) { assert keys[i] in keys; }
    assert keys[..0] == [];
  }

  lemma FinishInOrder(run: Run, answer: string -> Reply, start: Store, s: System, a: Action)
    requires InOrder(run, answer, start, s) && Enabled(run, s, a) && IsTask(a) && !IsInterference(a)
    requires Task(run, s, a).value.Finish?
    ensures InOrder(run, answer, start, Next(run, s, a))
  {
    var pass := s.pass.value;
    var item := pass.pool.workers[0].item;
    assert a.Persist? && a.worker == 0;
    assert pass.items[..item + 1][..item] == pass.items[..item];
  }

  lemma GetInOrder(run: Run, answer: string -> Reply, start: Store, s: System, a: Action)
    requires Inv(run, s) && InOrder(run, answer, start, s) && Enabled(run, s, a) && a.WorkerGets?
    ensures InOrder(run, answer, start, Next(run, s, a))
  {
    P.StepTakes(s.pass.value.pool, Task(run, s, a).value);
    TakenBound(run, s, a);
  }

  lemma TakenBound(run: Run, s: System, a: Action)
    requires Inv(run, s) && Enabled(run, s, a) && IsTask(a)
    ensures Next(run, s, a).pass.value.pool.taken <= |s.pass.value.items|
  {
    P.StepKeepsInv(s.pass.value.pool, Task(run, s, a).value);
  }

  lemma StepInOrder(run: Run, answer: string -> Reply, start: Store, s: System, a: Action)
    requires Inv(run, s) && InOrder(run, answer, start, s) && Enabled(run, s, a)
    requires IsTask(a) && !IsInterference(a) && Faithful(run, answer, s, a)
    ensures InOrder(run, answer, start, Next(run, s, a))
  {
    var task := Task(run, s, a).value;
    if task.Work? {
    } else if task.Finish? {
      FinishInOrder(run, answer, start, s, a);
    } else if a.WorkerGets? {
      GetInOrder(run, answer, start, s, a);
    }
  }

  lemma {:induction false} ConcludeInOrder(run: Run, answer: string -> Reply, start: Store, s: System)
    requires Inv(run, s) && InOrder(run, answer, start, s) && Enabled(run, s, Conclude)
    ensures AllPlanned(run, Plan(run, start.rows))
    ensures var final := RunInOrder(run, answer, start, Plan(run, start.rows));
            Next(run, s, Conclude).store.rows == final.rows && Next(run, s, Conclude).store.cache == final.cache
  {
    var items := s.pass.value.items;
    assert items[..|items|] == items;
  }

  /** The start, a pass in order, or a pass that ended in exactly the rows and cache of the reference. */
  ghost predicate FollowsReference(run: Run, answer: string -> Reply, start: Store, s: System) {
    if s.pass.Some? then InOrder(run, answer, start, s)
    else
      && AllPlanned(run, Plan(run, start.rows))
      && var final := RunInOrder(run, answer, start, Plan(run, start.rows));
         s.store.rows == final.rows && s.store.cache == final.cache
  }

  lemma {:induction false} StepFollowsReference(run: Run, answer: string -> Reply, start: Store, s: System, a: Action)
    requires Inv(run, s) && FollowsReference(run, answer, start, s) && Enabled(run, s, a)
    requires !IsInterference(a) && Faithful(run, answer, s, a)
    ensures FollowsReference(run, answer, start, Next(run, s, a))
  {
    if a.Conclude? {
      ConcludeInOrder(run, answer, start, s);
    } else {
      StepInOrder(run, answer, start, s, a);
    }
  }

  /** A pass with one worker that nothing interferes with ends in exactly the rows, cached flags included,
      and the cache of the sequential reference. */
  lemma {:induction false} OneWorkerRunsInOrder(
      run: Run, answer: string -> Reply, states: seq<System>, actions: seq<Action>, j: nat)
    requires ValidRun(run) && IsHistory(run, states, actions) && Inv(run, states[0])
    requires 1 <= j < |states| && actions[0].Launch? && actions[0].concurrency <= 1
    requires forall i :: 0 < i < |actions| ==> !IsInterference(actions[i])
    requires forall i :: 0 <= i < |actions| ==> Faithful(run, answer, states[i], actions[i])
    ensures FollowsReference(run, answer, states[0].store, states[j])
  {
    assert StepAt(run, states, actions, j - 1);
    if j == 1 {
      LaunchInOrder(run, answer, states[0], actions[0].concurrency);
    } else {
      OneWorkerRunsInOrder(run, answer, states, actions, j - 1);
      HistoryKeepsInv(run, states, actions, j - 1);
      StepFollowsReference(run, answer, states[0].store, states[j - 1], actions[j - 1]);
    }
  }
}

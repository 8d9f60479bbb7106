/** What a shutdown request does to the items of a pass, told from where they stand at that moment. */
module Shutdown {
  import opened Wrappers
  import opened RunExecution
  import opened Resume
  import P = WorkerPool

  ghost predicate HeldAt(pass: Pass, w: nat, k: nat) {
    WorkerAt(pass, w) && ItemAt(pass, w) == k
  }

  /** Item k is unproduced, queued, or in the hands of a worker that has not looked at the stop flag. */
  ghost predicate Waiting(pass: Pass, k: nat) {
    && k < |pass.items|
    && (|| pass.pool.producer.next <= k
        || P.Item(k) in pass.pool.queue
        || exists w: nat :: HeldAt(pass, w, k) && PhaseAt(pass, w) == Opening)
  }

  ghost predicate Untouched(pass: Pass, k: nat) {
    Waiting(pass, k) || (k < |pass.items| && k in pass.skipped)
  }

  /** No lookup, call, deposit or save of item k is under way or has happened. */
  ghost predicate NotRun(pass: Pass, k: nat) {
    && (forall w: nat :: HeldAt(pass, w, k) ==> PhaseAt(pass, w) == Opening)
    && k !in pass.written
  }

  /** A running pass can always be asked to stop, and the request itself starts and drops nothing. */
  lemma RequestStopsAnyPass(run: Run, s: System)
    requires Inv(run, s) && s.pass.Some? && !s.pass.value.pool.stopped
    ensures Enabled(run, s, Shutdown)
    ensures var next := Next(run, s, Shutdown);
            && next.pass.Some? && next.pass.value.pool.stopped && next.store == s.store
            && forall k: nat :: Waiting(next.pass.value, k) <==> Waiting(s.pass.value, k)
  {
    var pass, pass' := s.pass.value, Next(run, s, Shutdown).pass.value;
    forall k: nat ensures Waiting(pass', k) <==> Waiting(pass, k) {
      assert forall w: nat :: HeldAt(pass, w, k) <==> HeldAt(pass', w, k);
    }
  }

  lemma QueuedIsNotTaken(p: P.Pool<Phase>, k: nat)
    requires P.Inv(p) && P.Item(k) in p.queue
    ensures p.taken <= k
  {
    var position :| 0 <= position < |p.queue| && p.queue[position] == P.Item(k);
  }

  lemma UntouchedIsNotRun(run: Run, s: System, k: nat)
    requires Inv(run, s) && s.pass.Some? && Untouched(s.pass.value, k)
    ensures NotRun(s.pass.value, k) && s.pass.value.items[k] !in s.store.rows
  {
    var pass := s.pass.value;
    assert forall w: nat :: HeldAt(pass, w, k) ==> P.HoldsAt(pass.pool, w, k);
    if P.Item(k) in pass.pool.queue { QueuedIsNotTaken(pass.pool, k); }
    if w: nat :| HeldAt(pass, w, k) && PhaseAt(pass, w) == Opening { assert P.HoldsAt(pass.pool, w, k); }
    assert pass.items[k] in s.store.rows <==> k in pass.written;
  }

  lemma QueuedKeepsWaiting(run: Run, s: System, a: Action, k: nat)
    requires Enabled(run, s, a) && (a.ProducerChecks? || a.ProducerPuts? || a.WorkerGets?)
    requires k < |s.pass.value.items| && P.Item(k) in s.pass.value.pool.queue
    ensures Waiting(Next(run, s, a).pass.value, k)
  {
    var pass, pass' := s.pass.value, Next(run, s, a).pass.value;
    var position :| 0 <= position < |pass.pool.queue| && pass.pool.queue[position] == P.Item(k);
    if !a.WorkerGets? {
      assert pass'.pool.queue[position] == P.Item(k);
    } else if position == 0 {
      assert HeldAt(pass', a.worker, k);
    } else {
      assert pass'.pool.queue[position - 1] == P.Item(k);
    }
  }

  lemma QueueKeepsWaiting(run: Run, s: System, a: Action, k: nat)
    requires Enabled(run, s, a) && (a.ProducerChecks? || a.ProducerPuts? || a.WorkerGets?)
    requires s.pass.value.pool.total == |s.pass.value.items| && P.Inv(s.pass.value.pool)
    requires Waiting(s.pass.value, k)
    ensures Waiting(Next(run, s, a).pass.value, k)
  {
    var pass, pass' := s.pass.value, Next(run, s, a).pass.value;
    if P.Item(k) in pass.pool.queue {
      QueuedKeepsWaiting(run, s, a, k);
    } else if w: nat :| HeldAt(pass, w, k) && PhaseAt(pass, w) == Opening {
      assert HeldAt(pass', w, k);
    } else if a.ProducerPuts? && k == pass.pool.producer.next && pass.pool.producer.Putting? {
      assert pass'.pool.queue[|pass.pool.queue|] == P.Item(k);
    }
  }

  lemma WorkersKeepUntouched(run: Run, s: System, a: Action, k: nat)
    requires Enabled(run, s, a) && IsTask(a) && !(a.ProducerChecks? || a.ProducerPuts? || a.WorkerGets?)
    requires s.pass.value.pool.stopped && Untouched(s.pass.value, k)
    ensures Untouched(Next(run, s, a).pass.value, k)
  {
    var pass, pass' := s.pass.value, Next(run, s, a).pass.value;
    if w: nat :| HeldAt(pass, w, k) && PhaseAt(pass, w) == Opening {
      if !(a.Skip? && a.worker == w) { assert HeldAt(pass', w, k); }
    }
  }

  lemma StepKeepsUntouched(run: Run, s: System, a: Action, k: nat)
    requires Inv(run, s) && Enabled(run, s, a) && IsTask(a)
    requires s.pass.value.pool.stopped && Untouched(s.pass.value, k)
    ensures Next(run, s, a).pass.value.pool.stopped && Untouched(Next(run, s, a).pass.value, k)
  {
    if a.ProducerChecks? || a.ProducerPuts? || a.WorkerGets? {
      if Waiting(s.pass.value, k) { QueueKeepsWaiting(run, s, a, k); }
    } else {
      WorkersKeepUntouched(run, s, a, k);
    }
  }

  lemma {:induction false} StaysUntouched(
      run: Run, states: seq<System>, actions: seq<Action>, i: nat, j: nat, k: nat)
    requires ValidRun(run) && IsHistory(run, states, actions) && Inv(run, states[0]) && i <= j < |states|
    requires forall n :: i <= n < j ==> IsTask(actions[n])
    requires states[i].pass.Some? && states[i].pass.value.pool.stopped && Untouched(states[i].pass.value, k)
    ensures states[j].pass.Some? && states[j].pass.value.pool.stopped && Untouched(states[j].pass.value, k)
    ensures states[j].pass.value.items == states[i].pass.value.items
  {
    if i < j {
      StaysUntouched(run, states, actions, i, j - 1, k);
      HistoryKeepsInv(run, states, actions, j - 1);
      assert StepAt(run, states, actions, j - 1);
      StepKeepsUntouched(run, states[j - 1], actions[j - 1], k);
    }
  }

  /** From a shutdown request on, an item that was still unproduced, queued or not yet looked at is never
      looked up, called, deposited or saved for the rest of its pass, and gets no row. */
  lemma WaitingItemsAreNeverRun(
      run: Run, states: seq<System>, actions: seq<Action>, i: nat, j: nat, k: nat)
    requires ValidRun(run) && IsHistory(run, states, actions) && Inv(run, states[0]) && i <= j < |states|
    requires forall n :: i <= n < j ==> IsTask(actions[n])
    requires states[i].pass.Some? && states[i].pass.value.pool.stopped && Waiting(states[i].pass.value, k)
    ensures states[j].pass.Some? && states[j].pass.value.items == states[i].pass.value.items
    ensures forall w: nat :: HeldAt(states[j].pass.value, w, k) ==> PhaseAt(states[j].pass.value, w) == Opening
    ensures k !in states[j].pass.value.written && states[j].pass.value.items[k] !in states[j].store.rows
  {
    StaysUntouched(run, states, actions, i, j, k);
    HistoryKeepsInv(run, states, actions, j);
    UntouchedIsNotRun(run, states[j], k);
  }

  // ------------------------------------------------------------------ what a stopped pass leaves

  /** Item k has a row, or is in the hands of a worker that looked at the stop flag before it was set. */
  ghost predicate Started(pass: Pass, k: nat) {
    k in pass.written || exists w: nat :: HeldAt(pass, w, k) && PhaseAt(pass, w) != Opening
  }

  /** Every item of a pass is untouched, abandoned or started. */
  lemma UntouchedOrStarted(run: Run, s: System, k: nat)
    requires Inv(run, s) && s.pass.Some? && k < |s.pass.value.items|
    ensures Untouched(s.pass.value, k) || k in s.pass.value.abandoned || Started(s.pass.value, k)
  {
    var pass := s.pass.value;
    if pass.pool.taken <= k < pass.pool.producer.next {
      assert pass.pool.queue[k - pass.pool.taken] == P.Item(k);
    } else if k < pass.pool.taken && k !in pass.pool.finished {
      assert P.HeldBySomeone(pass.pool, k);
      var w: nat :| P.HoldsAt(pass.pool, w, k);
      assert HeldAt(pass, w, k);
    }
  }

  lemma StepKeepsStarted(run: Run, s: System, a: Action, k: nat)
    requires Enabled(run, s, a) && IsTask(a) && !a.Abandon?
    requires Started(s.pass.value, k)
    ensures Started(Next(run, s, a).pass.value, k)
  {
    var pass, pass' := s.pass.value, Next(run, s, a).pass.value;
    if w: nat :| HeldAt(pass, w, k) && PhaseAt(pass, w) != Opening {
      HolderGoesOn(run, s, a, w, k);
    }
  }

  lemma HolderGoesOn(run: Run, s: System, a: Action, w: nat, k: nat)
    requires Enabled(run, s, a) && IsTask(a) && !a.Abandon?
    requires HeldAt(s.pass.value, w, k) && PhaseAt(s.pass.value, w) != Opening
    ensures var pass' := Next(run, s, a).pass.value;
            if (a.Persist? || a.SaveFailure?) && a.worker == w then k in pass'.written
            else HeldAt(pass', w, k) && PhaseAt(pass', w) != Opening
  {}

  lemma {:induction false} StaysStarted(
      run: Run, states: seq<System>, actions: seq<Action>, i: nat, j: nat, k: nat)
    requires ValidRun(run) && IsHistory(run, states, actions) && Inv(run, states[0]) && i <= j < |states|
    requires forall n :: i <= n < j ==> IsTask(actions[n]) && !actions[n].Abandon?
    requires states[i].pass.Some? && Started(states[i].pass.value, k)
    ensures states[j].pass.Some? && Started(states[j].pass.value, k)
  {
    if i < j {
      StaysStarted(run, states, actions, i, j - 1, k);
      assert StepAt(run, states, actions, j - 1);
      StepKeepsStarted(run, states[j - 1], actions[j - 1], k);
    }
  }

  lemma TaskFrame(run: Run, s: System, a: Action)
    requires Inv(run, s) && Enabled(run, s, a) && IsTask(a)
    ensures Next(run, s, a).pass.Some?
    ensures Next(run, s, a).pass.value.items == s.pass.value.items
    ensures s.pass.value.abandoned <= Next(run, s, a).pass.value.abandoned
  {}

  lemma {:induction false} PassFrameOverTasks(
      run: Run, states: seq<System>, actions: seq<Action>, i: nat, j: nat)
    requires ValidRun(run) && IsHistory(run, states, actions) && Inv(run, states[0]) && i <= j < |states|
    requires forall n :: i <= n < j ==> IsTask(actions[n])
    requires states[i].pass.Some?
    ensures states[j].pass.Some? && states[j].pass.value.items == states[i].pass.value.items
    ensures states[i].pass.value.abandoned <= states[j].pass.value.abandoned
  {
    if i < j {
      PassFrameOverTasks(run, states, actions, i, j - 1);
      HistoryKeepsInv(run, states, actions, j - 1);
      assert StepAt(run, states, actions, j - 1);
      TaskFrame(run, states[j - 1], actions[j - 1]);
    }
  }

  lemma EndedPassRows(run: Run, s: System, k: nat)
    requires Inv(run, s) && Enabled(run, s, Conclude) && k < |s.pass.value.items|
    ensures Started(s.pass.value, k) ==> s.pass.value.items[k] in s.store.rows
    ensures k in s.pass.value.abandoned ==> s.pass.value.items[k] !in s.store.rows
  {
    assert s.pass.value.items[k] in s.store.rows <==> k in s.pass.value.written;
  }

  /** A stopped pass that runs out by itself leaves without a row exactly the items that were untouched when
      the request came and those already lost to an unrecorded failure. */
  lemma RowsAfterStop(run: Run, states: seq<System>, actions: seq<Action>, i: nat, j: nat, k: nat)
    requires ValidRun(run) && IsHistory(run, states, actions) && Inv(run, states[0]) && i <= j < |states|
    requires forall n :: i <= n < j ==> IsTask(actions[n]) && !actions[n].Abandon?
    requires states[i].pass.Some? && states[i].pass.value.pool.stopped && k < |states[i].pass.value.items|
    requires Enabled(run, states[j], Conclude)
    ensures states[j].pass.value.items == states[i].pass.value.items
    ensures var pass := states[i].pass.value;
            pass.items[k] !in states[j].store.rows <==>
            Waiting(pass, k) || k in pass.skipped || k in pass.abandoned
  {
    var pass := states[i].pass.value;
    PassFrameOverTasks(run, states, actions, i, j);
    HistoryKeepsInv(run, states, actions, i);
    HistoryKeepsInv(run, states, actions, j);
    EndedPassRows(run, states[j], k);
    UntouchedOrStarted(run, states[i], k);
    if Untouched(pass, k) {
      StaysUntouched(run, states, actions, i, j, k);
      UntouchedIsNotRun(run, states[j], k);
    } else if k !in pass.abandoned {
      StaysStarted(run, states, actions, i, j, k);
    }
  }

  /** Those items are what a later pass plans again, and if one was waiting the pass ends "cancelled". */
  lemma StoppedPassLeavesTheWaiting(run: Run, states: seq<System>, actions: seq<Action>, i: nat, j: nat, k: nat)
    requires ValidRun(run) && IsHistory(run, states, actions) && Inv(run, states[0]) && i <= j < |states|
    requires forall n :: i <= n < j ==> IsTask(actions[n]) && !actions[n].Abandon?
    requires states[i].pass.Some? && states[i].pass.value.pool.stopped && k < |states[i].pass.value.items|
    requires Enabled(run, states[j], Conclude)
    ensures var pass, ended := states[i].pass.value, Next(run, states[j], Conclude).store;
            && (pass.items[k] in Plan(run, ended.rows) <==>
                Waiting(pass, k) || k in pass.skipped || k in pass.abandoned)
            && (Waiting(pass, k) ==> ended.status == Cancelled)
  {
    var items := states[i].pass.value.items;
    RowsAfterStop(run, states, actions, i, j, k);
    PlanExact(run, states[j].store.rows);
    HistoryKeepsInv(run, states, actions, j);
    assert IsPlanned(run, items[k]);
    if Waiting(states[i].pass.value, k) {
      StaysUntouched(run, states, actions, i, j, k);
      StatusAfterPass(run, states[j], Conclude);
    }
  }
}

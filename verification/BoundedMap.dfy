/** `bounded_map`: results written by index from a fixed-size worker pool.  The model runs the
    pool protocol with one outcome per input: what awaiting the operation on that input yields. */
module BoundedMap {
  import opened Wrappers
  import P = WorkerPool

  /** `Value(None)` is an operation that returned Python's `None`. */
  datatype Outcome<R> = Value(value: Option<R>) | Raises

  datatype Error = InvalidConcurrency | OperationFailed(index: nat) | IncompleteResult

  datatype Status<R> = Running | Failed(error: Error) | Returned(results: seq<R>)

  datatype State<R> = State(pool: P.Pool<()>, results: seq<Option<R>>, status: Status<R>)

  /** `Task` is one uninterrupted stretch of the producer or of a worker; `Raise` is `gather`
      passing on a worker's exception; `Complete` runs after `gather` returns. */
  datatype Action = Task(task: P.Action<()>) | Raise(worker: nat) | Complete

  function Begin<R>(outcomes: seq<Outcome<R>>, concurrency: int): State<R> {
    if concurrency < 1 then
      State(P.Start(|outcomes|, 0), [], Failed(InvalidConcurrency))
    else
      State(P.Start(|outcomes|, concurrency), seq(|outcomes|, _ => None), Running)
  }

  predicate Enabled<R>(outcomes: seq<Outcome<R>>, s: State<R>, a: Action) {
    && s.status.Running?
    && match a
       case Task(t) =>
         && P.Enabled(s.pool, t)
         && !t.Stop? && !t.Work?
         && (t.Finish? ==>
               var i := s.pool.workers[t.worker].item;
               i < |outcomes| && i < |s.results| && outcomes[i].Value?)
         && (t.Crash? ==> var i := s.pool.workers[t.worker].item; i < |outcomes| && outcomes[i].Raises?)
       case Raise(w) => w < |s.pool.workers| && s.pool.workers[w].Crashed?
       case Complete => P.AllEnded(s.pool)
  }

  function Values<R>(results: seq<Option<R>>): seq<R>
    requires forall i :: 0 <= i < |results| ==> results[i].Some?
  {
    seq(|results|, i requires 0 <= i < |results| => results[i].value)
  }

  function Next<R>(outcomes: seq<Outcome<R>>, s: State<R>, a: Action): State<R>
    requires Enabled(outcomes, s, a)
  {
    match a
    case Task(t) =>
      var s' := s.(pool := P.Next(s.pool, t));
      if t.Finish? then
        var i := s.pool.workers[t.worker].item;
        s'.(results := s.results[i := outcomes[i].value])
      else s'
    case Raise(w) => s.(status := Failed(OperationFailed(s.pool.workers[w].item)))
    case Complete =>
      if exists i :: 0 <= i < |s.results| && s.results[i].None? then
        s.(status := Failed(IncompleteResult))
      else
        s.(status := Returned(Values(s.results)))
  }

  /** The states a call passes through under some interleaving. */
  ghost predicate IsRun<R>(outcomes: seq<Outcome<R>>, concurrency: int, run: seq<State<R>>) {
    && run != []
    && run[0] == Begin(outcomes, concurrency)
    && forall k: nat :: 0 < k < |run| ==> StepAt(outcomes, run, k)
  }

  ghost predicate StepAt<R>(outcomes: seq<Outcome<R>>, run: seq<State<R>>, k: nat)
    requires 0 < k < |run|
  {
    IsStep(outcomes, run[k - 1], run[k])
  }

  ghost predicate IsStep<R>(outcomes: seq<Outcome<R>>, s: State<R>, s': State<R>) {
    exists a :: Enabled(outcomes, s, a) && s' == Next(outcomes, s, a)
  }

  ghost predicate IsStuck<R>(outcomes: seq<Outcome<R>>, s: State<R>) {
    forall a :: !Enabled(outcomes, s, a)
  }

  // ------------------------------------------------------------------ the sequential reference

  /** What `[op(x) for x in inputs]` may do: refuse a bad pool size, pass on the exception of some
      raising input, report a missing result, or return every value in input order. */
  ghost predicate IsVerdict<R>(outcomes: seq<Outcome<R>>, concurrency: int, status: Status<R>) {
    if concurrency < 1 then status == Failed(InvalidConcurrency)
    else if SomeRaises(outcomes) then
      && status.Failed? && status.error.OperationFailed?
      && status.error.index < |outcomes| && outcomes[status.error.index].Raises?
    else if SomeMissing(outcomes) then status == Failed(IncompleteResult)
    else
      && status.Returned?
      && |status.results| == |outcomes|
      && forall i :: 0 <= i < |outcomes| ==> outcomes[i] == Value(Some(status.results[i]))
  }

  ghost predicate SomeRaises<R>(outcomes: seq<Outcome<R>>) {
    exists i :: 0 <= i < |outcomes| && outcomes[i].Raises?
  }

  ghost predicate SomeMissing<R>(outcomes: seq<Outcome<R>>) {
    exists i :: 0 <= i < |outcomes| && outcomes[i] == Value(None)
  }

  // ------------------------------------------------------------------ the invariant

  ghost predicate ResultsMatch<R>(outcomes: seq<Outcome<R>>, s: State<R>) {
    && |s.results| == |outcomes| == s.pool.total
    && (forall i: nat :: i < |outcomes| ==>
          if i in s.pool.finished then outcomes[i] == Value(s.results[i]) else s.results[i] == None)
    && (forall w: nat :: w < |s.pool.workers| && s.pool.workers[w].Crashed? ==>
          && s.pool.workers[w].item < |outcomes|
          && outcomes[s.pool.workers[w].item].Raises?)
  }

  ghost predicate Inv<R>(outcomes: seq<Outcome<R>>, concurrency: int, s: State<R>) {
    && (s.status.Running? ==>
          && concurrency >= 1
          && |s.pool.workers| == concurrency
          && !s.pool.stopped
          && P.Inv(s.pool)
          && ResultsMatch(outcomes, s))
    && (!s.status.Running? ==> IsVerdict(outcomes, concurrency, s.status))
  }

  lemma TaskKeepsInv<R>(outcomes: seq<Outcome<R>>, concurrency: int, s: State<R>, a: Action)
    requires Inv(outcomes, concurrency, s) && Enabled(outcomes, s, a) && a.Task?
    ensures Inv(outcomes, concurrency, Next(outcomes, s, a))
  {
    P.StepKeepsInv(s.pool, a.task);
    if a.task.Crash? || a.task.Finish? {
      assert P.HoldsAt(s.pool, a.task.worker, s.pool.workers[a.task.worker].item);
    }
  }

  lemma StepKeepsInv<R>(outcomes: seq<Outcome<R>>, concurrency: int, s: State<R>, a: Action)
    requires Inv(outcomes, concurrency, s) && Enabled(outcomes, s, a)
    ensures Inv(outcomes, concurrency, Next(outcomes, s, a))
  {
    match a {
      case Task(_) => TaskKeepsInv(outcomes, concurrency, s, a);
      case Raise(_) =>
      case Complete =>
        P.EndedMeansDrained(s.pool);
        assert forall i: nat :: i < |outcomes| ==> i in s.pool.finished;
        assert !SomeRaises(outcomes);
        if i :| 0 <= i < |s.results| && s.results[i].None? { assert outcomes[i] == Value(None); }
    }
  }

  lemma {:induction false} RunKeepsInv<R>(outcomes: seq<Outcome<R>>, concurrency: int, run: seq<State<R>>, k: nat)
    requires IsRun(outcomes, concurrency, run) && k < |run|
    ensures Inv(outcomes, concurrency, run[k])
  {
    if k == 0 {
      P.StartInv<()>(|outcomes|, if concurrency < 1 then 0 else concurrency);
    } else {
      RunKeepsInv(outcomes, concurrency, run, k - 1);
      assert StepAt(outcomes, run, k);
      var a :| Enabled(outcomes, run[k - 1], a) && run[k] == Next(outcomes, run[k - 1], a);
      StepKeepsInv(outcomes, concurrency, run[k - 1], a);
    }
  }

  /** A running call can always move: the pool never blocks on its queue, a busy worker's
      operation yields its outcome, and a crashed worker lets `gather` raise. */
  lemma NeverStuckWhileRunning<R>(outcomes: seq<Outcome<R>>, concurrency: int, s: State<R>)
    requires Inv(outcomes, concurrency, s) && s.status.Running?
    ensures !IsStuck(outcomes, s)
  {
    var a := EnabledAction(outcomes, concurrency, s);
  }

  lemma EnabledAction<R>(outcomes: seq<Outcome<R>>, concurrency: int, s: State<R>) returns (a: Action)
    requires Inv(outcomes, concurrency, s) && s.status.Running?
    ensures Enabled(outcomes, s, a)
  {
    if w: nat :| w < |s.pool.workers| && s.pool.workers[w].Crashed? {
      a := Raise(w);
    } else if P.AllEnded(s.pool) {
      a := Complete;
    } else {
      var t := P.SomeTaskCanMove(s.pool, ());
      if t.Finish? {
        var i := s.pool.workers[t.worker].item;
        assert P.HoldsAt(s.pool, t.worker, i);
        a := Task(if outcomes[i].Raises? then P.Crash(t.worker) else t);
      } else {
        a := Task(t);
      }
    }
  }

  // ------------------------------------------------------------------ the main results

  /** Safety: whatever a call reports is what the sequential map may report.  So a returned list
      is the operation's values in input order, and the completeness check fires only when some
      operation itself returned `None`. */
  lemma ReportsOnlyTheSequentialVerdict<R>(outcomes: seq<Outcome<R>>, concurrency: int, run: seq<State<R>>, k: nat)
    requires IsRun(outcomes, concurrency, run) && k < |run| && !run[k].status.Running?
    ensures IsVerdict(outcomes, concurrency, run[k].status)
  {
    RunKeepsInv(outcomes, concurrency, run, k);
  }

  /** Deadlock freedom with refinement: a run that cannot be extended has reported, and reported
      the sequential verdict. */
  lemma StuckRunsAreDone<R>(outcomes: seq<Outcome<R>>, concurrency: int, run: seq<State<R>>)
    requires IsRun(outcomes, concurrency, run) && IsStuck(outcomes, run[|run| - 1])
    ensures IsVerdict(outcomes, concurrency, run[|run| - 1].status)
  {
    var last := run[|run| - 1];
    RunKeepsInv(outcomes, concurrency, run, |run| - 1);
    if last.status.Running? {
      NeverStuckWhileRunning(outcomes, concurrency, last);
    }
  }

  /** Awaiting the operation is one stretch, so a held item has no stages of its own. */
  function NoStages(): (()) -> nat {
    (_: ()) => 0 as nat
  }

  function Fuel<R>(s: State<R>): int {
    if s.status.Running? then 1 + P.Measure(s.pool, NoStages()) else 0
  }

  lemma FuelDecreases<R>(outcomes: seq<Outcome<R>>, concurrency: int, s: State<R>, a: Action)
    requires Inv(outcomes, concurrency, s) && Enabled(outcomes, s, a)
    ensures Fuel(Next(outcomes, s, a)) < Fuel(s)
  {
    if a.Task? {
      P.MeasureDecreases(s.pool, a.task, NoStages());
    } else {
      P.MeasureNonNegative(s.pool, NoStages());
    }
  }

  lemma FuelDropsAcross<R>(outcomes: seq<Outcome<R>>, concurrency: int, s: State<R>, s': State<R>)
    requires Inv(outcomes, concurrency, s) && IsStep(outcomes, s, s')
    ensures Fuel(s') < Fuel(s)
  {
    var a :| Enabled(outcomes, s, a) && s' == Next(outcomes, s, a);
    FuelDecreases(outcomes, concurrency, s, a);
  }

  lemma StepLowersFuel<R>(outcomes: seq<Outcome<R>>, concurrency: int, run: seq<State<R>>, k: nat)
    requires IsRun(outcomes, concurrency, run) && 0 < k < |run|
    ensures Fuel(run[k]) < Fuel(run[k - 1])
  {
    RunKeepsInv(outcomes, concurrency, run, k - 1);
    assert StepAt(outcomes, run, k);
    FuelDropsAcross(outcomes, concurrency, run[k - 1], run[k]);
  }

  lemma FuelNonNegative<R>(outcomes: seq<Outcome<R>>, concurrency: int, run: seq<State<R>>, k: nat)
    requires IsRun(outcomes, concurrency, run) && k < |run|
    ensures Fuel(run[k]) >= 0
  {
    RunKeepsInv(outcomes, concurrency, run, k);
    if run[k].status.Running? { P.MeasureNonNegative(run[k].pool, NoStages()); }
  }

  /** Termination: every run is at most as long as its start is far from done, so no interleaving
      goes on for ever. */
  lemma {:induction false} RunsAreBounded<R>(outcomes: seq<Outcome<R>>, concurrency: int, run: seq<State<R>>, k: nat)
    requires IsRun(outcomes, concurrency, run) && k < |run|
    ensures k + Fuel(run[k]) <= Fuel(run[0])
    ensures k <= Fuel(run[0])
  {
    FuelNonNegative(outcomes, concurrency, run, k);
    if k > 0 {
      RunsAreBounded(outcomes, concurrency, run, k - 1);
      StepLowersFuel(outcomes, concurrency, run, k);
    }
  }
}

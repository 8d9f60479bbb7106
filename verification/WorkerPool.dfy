/** The queue protocol shared by the run executor and by `bounded_map`: one producer feeds a
    bounded FIFO queue and then one sentinel per worker; each worker takes entries until it
    takes a sentinel.  Everything an `await` can interleave is one action. */
module WorkerPool {

  datatype Entry = Item(index: nat) | Sentinel

  /** Where the producer task stands: about to look at the stop flag before item `next`,
      waiting for room to put item `next`, or putting sentinels (`put` of them so far). */
  datatype Producer = Checking(next: nat) | Putting(next: nat) | Closing(next: nat, put: nat)

  /** `Busy` carries the progress `work` that the enclosing protocol gives a held item. */
  datatype Worker<W> = Idle | Busy(item: nat, work: W) | Exited | Crashed(item: nat)

  /** `taken` is a history counter: how many items workers have taken from the queue. */
  datatype Pool<W> = Pool(
    total: nat,
    stopped: bool,
    producer: Producer,
    queue: seq<Entry>,
    workers: seq<Worker<W>>,
    taken: nat,
    finished: set<nat>)

  datatype Action<W> =
    | Stop
    | Check
    | Put
    | Get(worker: nat, first: W)
    | Work(worker: nat, work: W)
    | Finish(worker: nat)
    | Crash(worker: nat)

  function Start<W>(total: nat, concurrency: nat): Pool<W> {
    Pool(total, false, Checking(0), [], seq(concurrency, _ => Idle), 0, {})
  }

  function Capacity<W>(p: Pool<W>): nat {
    2 * |p.workers|
  }

  predicate IsBusy<W>(p: Pool<W>, worker: nat) {
    worker < |p.workers| && p.workers[worker].Busy?
  }

  predicate Enabled<W>(p: Pool<W>, a: Action<W>) {
    match a
    case Stop => !p.stopped
    case Check => p.producer.Checking?
    case Put =>
      && |p.queue| < Capacity(p)
      && (p.producer.Putting? || (p.producer.Closing? && p.producer.put < |p.workers|))
    case Get(w, _) => w < |p.workers| && p.workers[w].Idle? && p.queue != []
    case Work(w, _) => IsBusy(p, w)
    case Finish(w) => IsBusy(p, w)
    case Crash(w) => IsBusy(p, w)
  }

  function Next<W>(p: Pool<W>, a: Action<W>): Pool<W>
    requires Enabled(p, a)
  {
    match a
    case Stop => p.(stopped := true)
    case Check =>
      var next := p.producer.next;
      p.(producer := if next < p.total && !p.stopped then Putting(next) else Closing(next, 0))
    case Put =>
      if p.producer.Putting? then
        p.(queue := p.queue + [Item(p.producer.next)], producer := Checking(p.producer.next + 1))
      else
        p.(queue := p.queue + [Sentinel], producer := Closing(p.producer.next, p.producer.put + 1))
    case Get(w, first) =>
      if p.queue[0].Sentinel? then
        p.(queue := p.queue[1..], workers := p.workers[w := Exited])
      else
        p.(queue := p.queue[1..], workers := p.workers[w := Busy(p.queue[0].index, first)], taken := p.taken + 1)
    case Work(w, work) => p.(workers := p.workers[w := Busy(p.workers[w].item, work)])
    case Finish(w) => p.(workers := p.workers[w := Idle], finished := p.finished + {p.workers[w].item})
    case Crash(w) => p.(workers := p.workers[w := Crashed(p.workers[w].item)])
  }

  predicate AllEnded<W>(p: Pool<W>) {
    && p.producer.Closing? && p.producer.put == |p.workers|
    && forall w :: 0 <= w < |p.workers| ==> p.workers[w].Exited?
  }

  // ------------------------------------------------------------------ sums over the workers

  function Sum<W>(ws: seq<Worker<W>>, f: Worker<W> -> nat): nat {
    if ws == [] then 0 else f(ws[0]) + Sum(ws[1..], f)
  }

  lemma {:induction false} SumUpdate<W>(ws: seq<Worker<W>>, i: nat, w: Worker<W>, f: Worker<W> -> nat)
    requires i < |ws|
    ensures Sum(ws[i := w], f) + f(ws[i]) == Sum(ws, f) + f(w)
  {
    if i == 0 {
      assert ws[i := w][1..] == ws[1..];
    } else {
      assert ws[i := w][1..] == ws[1..][i - 1 := w];
      SumUpdate(ws[1..], i - 1, w, f);
    }
  }

  lemma {:induction false} SumBound<W>(ws: seq<Worker<W>>, i: nat, f: Worker<W> -> nat)
    requires i < |ws|
    ensures f(ws[i]) <= Sum(ws, f)
  {
    if i > 0 { SumBound(ws[1..], i - 1, f); }
  }

  lemma {:induction false} SumConstant<W>(ws: seq<Worker<W>>, k: nat, f: Worker<W> -> nat)
    requires forall i :: 0 <= i < |ws| ==> f(ws[i]) == k
    ensures Sum(ws, f) == k * |ws|
  {
    if ws != [] { SumConstant(ws[1..], k, f); }
  }

  function ExitedOne<W>(): Worker<W> -> nat {
    (w: Worker<W>) => if w.Exited? then 1 else 0
  }

  function ExitedCount<W>(p: Pool<W>): nat {
    Sum(p.workers, ExitedOne())
  }

  lemma {:induction false} AllExitedIfCountFull<W>(ws: seq<Worker<W>>)
    ensures Sum(ws, ExitedOne()) <= |ws|
    ensures Sum(ws, ExitedOne()) == |ws| ==> forall i :: 0 <= i < |ws| ==> ws[i].Exited?
  {
    if ws != [] {
      AllExitedIfCountFull(ws[1..]);
      if Sum(ws, ExitedOne()) == |ws| {
        forall i | 0 <= i < |ws| ensures ws[i].Exited? {
          if i > 0 { assert ws[i] == ws[1..][i - 1]; }
        }
      }
    }
  }

  // ------------------------------------------------------------------ the invariant

  /** The only queues the protocol ever builds: a contiguous block of items, then sentinels. */
  function QueueShape(low: nat, high: nat, sentinels: nat): (q: seq<Entry>)
    requires low <= high
  {
    seq(high - low, i requires 0 <= i < high - low => Item(low + i)) + seq(sentinels, _ => Sentinel)
  }

  function SentinelsPut(producer: Producer): nat {
    if producer.Closing? then producer.put else 0
  }

  predicate HoldsAt<W>(p: Pool<W>, worker: nat, item: nat) {
    && worker < |p.workers|
    && (p.workers[worker].Busy? || p.workers[worker].Crashed?)
    && p.workers[worker].item == item
  }

  ghost predicate HeldBySomeone<W>(p: Pool<W>, item: nat) {
    exists w: nat :: HoldsAt(p, w, item)
  }

  /** Items below `taken` are held or finished, never both, and no two workers hold the same. */
  ghost predicate TakenItemsPlaced<W>(p: Pool<W>) {
    && (forall i :: i in p.finished ==> i < p.taken)
    && (forall w: nat, i: nat :: HoldsAt(p, w, i) ==> i < p.taken && i !in p.finished)
    && (forall w: nat, v: nat, i: nat :: HoldsAt(p, w, i) && HoldsAt(p, v, i) ==> w == v)
    && (forall i: nat :: i < p.taken ==> i in p.finished || HeldBySomeone(p, i))
  }

  ghost predicate QueueWellFormed<W>(p: Pool<W>) {
    && p.taken <= p.producer.next <= p.total
    && (p.producer.Putting? ==> p.producer.next < p.total)
    && (p.producer.Closing? ==> p.producer.next == p.total || p.stopped)
    && ExitedCount(p) <= SentinelsPut(p.producer) <= |p.workers|
    && p.queue == QueueShape(p.taken, p.producer.next, SentinelsPut(p.producer) - ExitedCount(p))
    && |p.queue| <= Capacity(p)
    && (ExitedCount(p) > 0 ==> p.taken == p.producer.next)
  }

  ghost predicate Inv<W>(p: Pool<W>) {
    QueueWellFormed(p) && TakenItemsPlaced(p)
  }

  lemma StartInv<W>(total: nat, concurrency: nat)
    ensures Inv(Start<W>(total, concurrency))
  {
    var p := Start<W>(total, concurrency);
    SumConstant(p.workers, 0, ExitedOne());
  }

  lemma QueueAfterPut(low: nat, high: nat, sentinels: nat)
    requires low <= high
    ensures QueueShape(low, high, sentinels) + [Sentinel] == QueueShape(low, high, sentinels + 1)
    ensures sentinels == 0 ==> QueueShape(low, high, 0) + [Item(high)] == QueueShape(low, high + 1, 0)
  {}

  lemma QueueAfterGet(low: nat, high: nat, sentinels: nat)
    requires low <= high
    requires QueueShape(low, high, sentinels) != []
    ensures var q := QueueShape(low, high, sentinels);
            if q[0].Sentinel?
            then low == high && sentinels > 0 && q[1..] == QueueShape(low, high, sentinels - 1)
            else low < high && q[0] == Item(low) && q[1..] == QueueShape(low + 1, high, sentinels)
  {
    var q := QueueShape(low, high, sentinels);
    if low < high {
      assert q[1..] == QueueShape(low + 1, high, sentinels);
    } else {
      assert q[1..] == QueueShape(low, high, sentinels - 1);
    }
  }

  lemma QueueStepWorker<W>(p: Pool<W>, a: Action<W>)
    requires Inv(p) && Enabled(p, a) && (a.Work? || a.Finish? || a.Crash?)
    ensures QueueWellFormed(Next(p, a))
  {
    SumUpdate(p.workers, a.worker, Next(p, a).workers[a.worker], ExitedOne());
  }

  lemma ExitedAfterGet<W>(p: Pool<W>, a: Action<W>)
    requires Enabled(p, a) && a.Get?
    ensures ExitedCount(Next(p, a)) == ExitedCount(p) + (if p.queue[0].Sentinel? then 1 else 0)
  {
    SumUpdate(p.workers, a.worker, Next(p, a).workers[a.worker], ExitedOne());
  }

  lemma QueueStepGet<W>(p: Pool<W>, a: Action<W>)
    requires Inv(p) && Enabled(p, a) && a.Get?
    ensures QueueWellFormed(Next(p, a))
  {
    QueueAfterGet(p.taken, p.producer.next, SentinelsPut(p.producer) - ExitedCount(p));
    ExitedAfterGet(p, a);
  }

  lemma QueueStepPut<W>(p: Pool<W>, a: Action<W>)
    requires Inv(p) && Enabled(p, a) && a.Put?
    ensures QueueWellFormed(Next(p, a))
  {
    QueueAfterPut(p.taken, p.producer.next, SentinelsPut(p.producer) - ExitedCount(p));
  }

  lemma PlacesStepGet<W>(p: Pool<W>, a: Action<W>)
    requires Inv(p) && Enabled(p, a) && a.Get?
    ensures TakenItemsPlaced(Next(p, a))
  {
    var p' := Next(p, a);
    QueueAfterGet(p.taken, p.producer.next, SentinelsPut(p.producer) - ExitedCount(p));
    assert forall v: nat, i: nat :: HoldsAt(p', v, i) <==>
      HoldsAt(p, v, i) || (v == a.worker && i == p.taken && p.queue[0].Item?);
    forall i: nat | i < p'.taken && i !in p'.finished
      ensures HeldBySomeone(p', i)
    {
      if i < p.taken {
        var w: nat :| HoldsAt(p, w, i);
        assert HoldsAt(p', w, i);
      } else {
        assert HoldsAt(p', a.worker, i);
      }
    }
  }

  lemma PlacesStepWorker<W>(p: Pool<W>, a: Action<W>)
    requires Inv(p) && Enabled(p, a) && (a.Work? || a.Finish? || a.Crash?)
    ensures TakenItemsPlaced(Next(p, a))
  {
    var p' := Next(p, a);
    var item := p.workers[a.worker].item;
    assert HoldsAt(p, a.worker, item);
    assert forall v: nat, i: nat :: HoldsAt(p', v, i) <==>
      HoldsAt(p, v, i) && !(a.Finish? && v == a.worker);
    forall i: nat | i < p'.taken && i !in p'.finished
      ensures HeldBySomeone(p', i)
    {
      var w: nat :| HoldsAt(p, w, i);
      assert HoldsAt(p', w, i);
    }
  }

  /** Every action keeps the invariant, so it holds in every reachable state. */
  lemma StepKeepsInv<W>(p: Pool<W>, a: Action<W>)
    requires Inv(p) && Enabled(p, a)
    ensures Inv(Next(p, a))
  {
    if a.Get? {
      QueueStepGet(p, a);
      PlacesStepGet(p, a);
    } else if a.Work? || a.Finish? || a.Crash? {
      QueueStepWorker(p, a);
      PlacesStepWorker(p, a);
    } else if a.Put? {
      QueueStepPut(p, a);
      HeldCongruence(p, Next(p, a));
    } else {
      HeldCongruence(p, Next(p, a));
    }
  }

  lemma HeldCongruence<W>(p: Pool<W>, p': Pool<W>)
    requires TakenItemsPlaced(p)
    requires p'.workers == p.workers && p'.taken == p.taken && p'.finished == p.finished
    ensures TakenItemsPlaced(p')
  {
    assert forall v: nat, i: nat :: HoldsAt(p', v, i) <==> HoldsAt(p, v, i);
    forall i: nat | i < p'.taken && i !in p'.finished
      ensures HeldBySomeone(p', i)
    {
      assert HeldBySomeone(p, i);
    }
  }

  /** An item can be finished only once. */
  lemma HeldItemIsUnfinished<W>(p: Pool<W>, worker: nat)
    requires Inv(p) && IsBusy(p, worker)
    ensures p.workers[worker].item !in p.finished
  {
    assert HoldsAt(p, worker, p.workers[worker].item);
  }

  // ------------------------------------------------------------------ what the invariant means

  datatype Place = Unproduced | Queued(position: nat) | Held(worker: nat) | Finished

  ghost predicate At<W>(p: Pool<W>, item: nat, place: Place) {
    match place
    case Unproduced => p.producer.next <= item < p.total
    case Queued(k) => k < |p.queue| && p.queue[k] == Item(item)
    case Held(w) => HoldsAt(p, w, item)
    case Finished => item in p.finished
  }

  /** Each planned item is in exactly one place: unproduced, at one queue position, held by one
      worker, or finished. */
  lemma ExactlyOnePlace<W>(p: Pool<W>, item: nat)
    requires Inv(p) && item < p.total
    ensures exists place :: At(p, item, place) && forall other :: At(p, item, other) ==> other == place
  {
    var place :=
      if p.producer.next <= item then Unproduced
      else if p.taken <= item then Queued(item - p.taken)
      else if item in p.finished then Finished
      else assert HeldBySomeone(p, item); var w: nat :| HoldsAt(p, w, item); Held(w);
    assert At(p, item, place);
    forall other | At(p, item, other) ensures other == place {
      if other.Queued? { assert p.queue[other.position].index == p.taken + other.position; }
    }
  }

  /** Nothing but sentinels is ever queued behind a sentinel. */
  lemma NoItemBehindSentinel<W>(p: Pool<W>, i: nat, j: nat)
    requires Inv(p) && i < j < |p.queue| && p.queue[i].Sentinel?
    ensures p.queue[j].Sentinel?
  {
    assert i >= p.producer.next - p.taken;
  }

  /** When every task has ended the queue is empty and everything produced is finished; without a
      stop that is every planned item. */
  lemma EndedMeansDrained<W>(p: Pool<W>)
    requires Inv(p) && AllEnded(p) && |p.workers| > 0
    ensures p.queue == []
    ensures forall i: nat :: i in p.finished <==> i < p.producer.next
    ensures !p.stopped ==> p.producer.next == p.total
  {
    SumConstant(p.workers, 1, ExitedOne());
    assert forall i: nat :: i < p.taken ==> !HeldBySomeone(p, i);
  }

  // ------------------------------------------------------------------ progress

  /** Until all tasks end some task can move: a busy worker, an idle worker at a non-empty queue,
      or the producer, which the bound of two entries per worker never blocks for good. */
  lemma SomeTaskCanMove<W>(p: Pool<W>, first: W) returns (a: Action<W>)
    requires Inv(p) && !AllEnded(p) && |p.workers| > 0
    requires forall w :: 0 <= w < |p.workers| ==> !p.workers[w].Crashed?
    ensures Enabled(p, a) && !a.Stop? && !a.Crash? && !a.Work?
    ensures a.Get? ==> a.first == first
  {
    if w: nat :| w < |p.workers| && p.workers[w].Busy? {
      a := Finish(w);
    } else if p.producer.Checking? {
      a := Check;
    } else if w: nat :| w < |p.workers| && p.workers[w].Idle? {
      if p.queue != [] {
        a := Get(w, first);
      } else {
        AllExitedIfCountFull(p.workers);
        a := Put;
      }
    } else {
      SumConstant(p.workers, 1, ExitedOne());
      assert false;
    }
  }

  const WORK_LIMIT: nat := 7

  function WorkerWeight<W>(weight: W -> nat): Worker<W> -> nat {
    (w: Worker<W>) =>
      match w
      case Idle => 1
      case Busy(_, work) => 2 + weight(work)
      case Exited => 0
      case Crashed(_) => 0
  }

  function QueueWeight(queue: seq<Entry>): nat {
    if queue == [] then 0
    else (if queue[0].Item? then WORK_LIMIT + 2 else 1) + QueueWeight(queue[1..])
  }

  function ProducerWeight<W>(p: Pool<W>): int {
    match p.producer
    case Checking(next) => (p.total - next) * (WORK_LIMIT + 5) + 1 + 2 * |p.workers|
    case Putting(next) => (p.total - next) * (WORK_LIMIT + 5) + 2 * |p.workers|
    case Closing(_, put) => 2 * (|p.workers| - put)
  }

  function Measure<W>(p: Pool<W>, weight: W -> nat): int {
    (if p.stopped then 0 else 1) + ProducerWeight(p) + QueueWeight(p.queue) + Sum(p.workers, WorkerWeight(weight))
  }

  lemma {:induction false} QueueWeightAppend(queue: seq<Entry>, e: Entry)
    ensures QueueWeight(queue + [e]) == QueueWeight(queue) + (if e.Item? then WORK_LIMIT + 2 else 1)
  {
    if queue == [] {
      assert queue + [e] == [e];
    } else {
      assert (queue + [e])[1..] == queue[1..] + [e];
      QueueWeightAppend(queue[1..], e);
    }
  }

  lemma MeasureNonNegative<W>(p: Pool<W>, weight: W -> nat)
    requires Inv(p)
    ensures 0 <= Measure(p, weight)
  {}

  lemma QueueActionLowers<W>(p: Pool<W>, a: Action<W>, weight: W -> nat)
    requires Inv(p) && Enabled(p, a)
    requires a.Stop? || a.Check? || a.Put?
    ensures Measure(Next(p, a), weight) < Measure(p, weight)
  {
    if a.Put? {
      QueueWeightAppend(p.queue, if p.producer.Putting? then Item(p.producer.next) else Sentinel);
    }
  }

  lemma WorkerActionLowers<W>(p: Pool<W>, a: Action<W>, weight: W -> nat)
    requires Inv(p) && Enabled(p, a)
    requires a.Get? || a.Work? || a.Finish? || a.Crash?
    requires a.Get? ==> weight(a.first) <= WORK_LIMIT
    requires a.Work? ==> weight(a.work) < weight(p.workers[a.worker].work)
    ensures Measure(Next(p, a), weight) < Measure(p, weight)
  {
    SumUpdate(p.workers, a.worker, Next(p, a).workers[a.worker], WorkerWeight(weight));
  }

  /** Every action strictly lowers a measure that the invariant keeps non-negative, so every run
      of the pool is finite, whatever the interleaving. */
  lemma MeasureDecreases<W>(p: Pool<W>, a: Action<W>, weight: W -> nat)
    requires Inv(p) && Enabled(p, a)
    requires a.Get? ==> weight(a.first) <= WORK_LIMIT
    requires a.Work? ==> weight(a.work) < weight(p.workers[a.worker].work)
    ensures 0 <= Measure(Next(p, a), weight) < Measure(p, weight)
  {
    StepKeepsInv(p, a);
    if a.Stop? || a.Check? || a.Put? {
      QueueActionLowers(p, a, weight);
    } else {
      WorkerActionLowers(p, a, weight);
    }
  }

  // ------------------------------------------------------------------ runs

  /** `states[k + 1]` is `states[k]` after `actions[k]`. */
  ghost predicate IsRun<W>(total: nat, concurrency: nat, states: seq<Pool<W>>, actions: seq<Action<W>>) {
    && |states| == |actions| + 1
    && states[0] == Start<W>(total, concurrency)
    && forall k :: 0 <= k < |actions| ==> Enabled(states[k], actions[k]) && states[k + 1] == Next(states[k], actions[k])
  }

  lemma {:induction false} RunKeepsInv<W>(
      total: nat, concurrency: nat, states: seq<Pool<W>>, actions: seq<Action<W>>, k: nat)
    requires IsRun(total, concurrency, states, actions) && k < |states|
    ensures Inv(states[k]) && |states[k].workers| == concurrency && states[k].total == total
  {
    if k == 0 {
      StartInv<W>(total, concurrency);
    } else {
      RunKeepsInv(total, concurrency, states, actions, k - 1);
      StepKeepsInv(states[k - 1], actions[k - 1]);
    }
  }

  /** Step k hands item i to a worker. */
  ghost predicate Takes<W>(states: seq<Pool<W>>, actions: seq<Action<W>>, k: nat, i: nat)
    requires |states| == |actions| + 1
  {
    k < |actions| && actions[k].Get? && states[k].queue != [] && states[k].queue[0] == Item(i)
  }

  /** Items leave the queue in order, so the counter of taken items names the item a step takes. */
  lemma StepTakes<W>(p: Pool<W>, a: Action<W>)
    requires Inv(p) && Enabled(p, a)
    ensures var takes := a.Get? && p.queue[0].Item?;
            && Next(p, a).taken == p.taken + (if takes then 1 else 0)
            && (takes ==> p.queue[0] == Item(p.taken))
  {
    if a.Get? { QueueAfterGet(p.taken, p.producer.next, SentinelsPut(p.producer) - ExitedCount(p)); }
  }

  lemma {:induction false} TakenNeverDrops<W>(
      total: nat, concurrency: nat, states: seq<Pool<W>>, actions: seq<Action<W>>, j: nat, k: nat)
    requires IsRun(total, concurrency, states, actions) && j <= k < |states|
    ensures states[j].taken <= states[k].taken
  {
    if j < k {
      TakenNeverDrops(total, concurrency, states, actions, j, k - 1);
      RunKeepsInv(total, concurrency, states, actions, k - 1);
      StepTakes(states[k - 1], actions[k - 1]);
    }
  }

  lemma TakesCounter<W>(
      total: nat, concurrency: nat, states: seq<Pool<W>>, actions: seq<Action<W>>, k: nat, i: nat)
    requires IsRun(total, concurrency, states, actions) && Takes(states, actions, k, i)
    ensures states[k].taken == i && states[k + 1].taken == i + 1
  {
    RunKeepsInv(total, concurrency, states, actions, k);
    StepTakes(states[k], actions[k]);
  }

  /** On every run, stopped or not, no item is handed out twice. */
  lemma TakenAtMostOnce<W>(
      total: nat, concurrency: nat, states: seq<Pool<W>>, actions: seq<Action<W>>, j: nat, k: nat, i: nat)
    requires IsRun(total, concurrency, states, actions)
    requires Takes(states, actions, j, i) && Takes(states, actions, k, i)
    ensures j == k
  {
    TakesCounter(total, concurrency, states, actions, j, i);
    TakesCounter(total, concurrency, states, actions, k, i);
    if j < k {
      TakenNeverDrops(total, concurrency, states, actions, j + 1, k);
    } else if k < j {
      TakenNeverDrops(total, concurrency, states, actions, k + 1, j);
    }
  }

  lemma {:induction false} TakenMeansHandedOut<W>(
      total: nat, concurrency: nat, states: seq<Pool<W>>, actions: seq<Action<W>>, k: nat, i: nat) returns (step: nat)
    requires IsRun(total, concurrency, states, actions) && k < |states| && i < states[k].taken
    ensures step < k && Takes(states, actions, step, i)
  {
    RunKeepsInv(total, concurrency, states, actions, k - 1);
    StepTakes(states[k - 1], actions[k - 1]);
    if i < states[k - 1].taken {
      step := TakenMeansHandedOut(total, concurrency, states, actions, k - 1, i);
    } else {
      step := k - 1;
    }
  }

  lemma {:induction false} NeverStopped<W>(
      total: nat, concurrency: nat, states: seq<Pool<W>>, actions: seq<Action<W>>, k: nat)
    requires IsRun(total, concurrency, states, actions) && k < |states|
    requires forall j :: 0 <= j < |actions| ==> !actions[j].Stop?
    ensures !states[k].stopped
  {
    if k > 0 { NeverStopped(total, concurrency, states, actions, k - 1); }
  }

  /** On every run that ends, without a stop, each planned item is handed to a worker by exactly one step,
      and is finished. */
  lemma EachItemRunsOnce<W>(
      total: nat, concurrency: nat, states: seq<Pool<W>>, actions: seq<Action<W>>, i: nat)
    requires IsRun(total, concurrency, states, actions) && concurrency > 0 && i < total
    requires forall j :: 0 <= j < |actions| ==> !actions[j].Stop?
    requires AllEnded(states[|actions|])
    ensures exists step :: Takes(states, actions, step, i) && forall k :: Takes(states, actions, k, i) ==> k == step
    ensures i in states[|actions|].finished
  {
    var last := |actions|;
    RunKeepsInv(total, concurrency, states, actions, last);
    NeverStopped(total, concurrency, states, actions, last);
    EndedMeansDrained(states[last]);
    var step := TakenMeansHandedOut(total, concurrency, states, actions, last, i);
    forall k | Takes(states, actions, k, i) ensures k == step {
      TakenAtMostOnce(total, concurrency, states, actions, k, step, i);
    }
  }

  /** On every run at most two entries per worker wait in the queue, and below that the producer is never
      held up. */
  lemma QueueStaysShort<W>(total: nat, concurrency: nat, states: seq<Pool<W>>, actions: seq<Action<W>>, k: nat)
    requires IsRun(total, concurrency, states, actions) && k < |states|
    ensures |states[k].queue| <= 2 * concurrency
    ensures states[k].producer.Putting? ==> (Enabled(states[k], Put) <==> |states[k].queue| < 2 * concurrency)
  {
    RunKeepsInv(total, concurrency, states, actions, k);
  }

  /** After a stop the producer puts no further item but the one it may be putting. */
  lemma {:induction false} StoppedProducerPutsNoMore<W>(
      total: nat, concurrency: nat, states: seq<Pool<W>>, actions: seq<Action<W>>, i: nat, j: nat)
    requires IsRun(total, concurrency, states, actions) && i <= j < |states|
    requires states[i].stopped
    ensures states[j].stopped
    ensures var before, after := states[i].producer, states[j].producer;
            && before.next <= after.next <= before.next + (if before.Putting? then 1 else 0)
            && (after.Putting? ==> before == after)
  {
    if i < j {
      StoppedProducerPutsNoMore(total, concurrency, states, actions, i, j - 1);
    }
  }
}

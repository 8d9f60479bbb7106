/** A managed provider call end to end: breaker, request bucket, token bucket, concurrency slot, inner
    call, report to the breaker.  Any number of calls interleave at their awaits. */
module ManagedCalls {
  import opened Reals
  import opened Wrappers
  import B = TokenBuckets
  import C = CircuitBreakers

  /** What a call waits for next. */
  datatype Stage = WantsRequest | WantsTokens | WantsSlot | InFlight | Ended

  /** The flags record what a call was charged and whether it reached the inner provider. */
  datatype Call = Call(estimate: real, stage: Stage, paidRequest: bool, paidTokens: bool, reached: bool)

  datatype Settings = Settings(requests: B.Limits, tokens: B.Limits, concurrency: nat, breaker: C.Settings)

  datatype System = System(
    clock: real,
    breaker: C.Breaker,
    requests: B.Bucket,
    tokens: B.Bucket,
    calls: seq<Call>,
    requestChecks: seq<B.Event>,
    tokenChecks: seq<B.Event>,
    history: seq<C.Event>)

  datatype Action =
    | Begin(at: real, estimate: real)
    | CheckRequests(call: nat, at: real)
    | CheckTokens(call: nat, at: real)
    | Enter(call: nat)
    | Answer(call: nat)
    | Raise(call: nat, at: real)
    | Cancel(call: nat)

  function Start(settings: Settings, start: real): System {
    var requests, tokens := B.Bucket(settings.requests.capacity, start), B.Bucket(settings.tokens.capacity, start);
    System(start, C.INITIAL, requests, tokens, [], [], [], [])
  }

  // ------------------------------------------------------------------ sums over the calls

  function Sum(calls: seq<Call>, f: Call -> real): real {
    if calls == [] then 0.0 else Sum(calls[..|calls| - 1], f) + f(calls[|calls| - 1])
  }

  function Requests(): Call -> real {
    (c: Call) => if c.paidRequest then 1.0 else 0.0
  }

  function Tokens(): Call -> real {
    (c: Call) => if c.paidTokens then c.estimate else 0.0
  }

  function Reached(): Call -> real {
    (c: Call) => if c.reached then 1.0 else 0.0
  }

  function ReachedTokens(): Call -> real {
    (c: Call) => if c.reached then c.estimate else 0.0
  }

  /** Calls holding a concurrency slot. */
  function Taken(calls: seq<Call>): nat {
    if calls == [] then 0 else Taken(calls[..|calls| - 1]) + Slot(calls[|calls| - 1])
  }

  function Slot(c: Call): nat {
    if c.stage == InFlight then 1 else 0
  }

  lemma {:induction false} TakenUpdate(calls: seq<Call>, i: nat, c: Call)
    requires i < |calls|
    ensures Taken(calls[i := c]) == Taken(calls) - Slot(calls[i]) + Slot(c)
  {
    var n := |calls| - 1;
    if i < n {
      TakenUpdate(calls[..n], i, c);
      assert calls[i := c][..n] == calls[..n][i := c];
    } else {
      assert calls[i := c][..n] == calls[..n];
    }
  }

  lemma {:induction false} SumUpdate(calls: seq<Call>, i: nat, c: Call, f: Call -> real)
    requires i < |calls|
    ensures Sum(calls[i := c], f) == Sum(calls, f) - f(calls[i]) + f(c)
  {
    var n := |calls| - 1;
    if i < n {
      SumUpdate(calls[..n], i, c, f);
      assert calls[i := c][..n] == calls[..n][i := c];
    } else {
      assert calls[i := c][..n] == calls[..n];
    }
  }

  lemma SumAppend(calls: seq<Call>, c: Call, f: Call -> real)
    ensures Sum(calls + [c], f) == Sum(calls, f) + f(c)
  {
    assert (calls + [c])[..|calls|] == calls;
  }

  lemma {:induction false} SumMonotone(calls: seq<Call>, f: Call -> real, g: Call -> real)
    requires forall c :: c in calls ==> f(c) <= g(c)
    ensures Sum(calls, f) <= Sum(calls, g)
  {
    if calls != [] {
      var n := |calls| - 1;
      assert calls == calls[..n] + [calls[n]];
      SumMonotone(calls[..n], f, g);
    }
  }

  // ------------------------------------------------------------------ steps

  predicate At(s: System, call: nat, stage: Stage) {
    call < |s.calls| && s.calls[call].stage == stage
  }

  ghost predicate Enabled(settings: Settings, s: System, a: Action) {
    match a
    case Begin(at, estimate) => at >= s.clock && estimate >= 0.0
    case CheckRequests(i, at) => at >= s.clock && At(s, i, WantsRequest)
    case CheckTokens(i, at) => at >= s.clock && At(s, i, WantsTokens)
    case Enter(i) => At(s, i, WantsSlot) && Taken(s.calls) < settings.concurrency
    case Answer(i) => At(s, i, InFlight)
    case Raise(i, at) => at >= s.clock && At(s, i, InFlight)
    case Cancel(i) => i < |s.calls| && s.calls[i].stage != Ended
  }

  ghost function Next(settings: Settings, s: System, a: Action): System
    requires Enabled(settings, s, a)
  {
    match a
    case Begin(at, estimate) =>
      var stage := if C.Rejects(settings.breaker, s.breaker, at) then Ended else WantsRequest;
      s.(clock := at, calls := s.calls + [Call(estimate, stage, false, false, false)],
         breaker := C.Step(settings.breaker, s.breaker, C.Arrival(at)), history := s.history + [C.Arrival(at)])
    case CheckRequests(i, at) =>
      var (bucket, granted) := B.Check(settings.requests, s.requests, at, 1.0);
      s.(clock := at, requests := bucket, requestChecks := s.requestChecks + [B.Event(at, 1.0)],
         calls := if granted then s.calls[i := s.calls[i].(stage := WantsTokens, paidRequest := true)] else s.calls)
    case CheckTokens(i, at) =>
      var (bucket, granted) := B.Check(settings.tokens, s.tokens, at, s.calls[i].estimate);
      s.(clock := at, tokens := bucket, tokenChecks := s.tokenChecks + [B.Event(at, s.calls[i].estimate)],
         calls := if granted then s.calls[i := s.calls[i].(stage := WantsSlot, paidTokens := true)] else s.calls)
    case Enter(i) => s.(calls := s.calls[i := s.calls[i].(stage := InFlight, reached := true)])
    case Answer(i) =>
      s.(calls := s.calls[i := s.calls[i].(stage := Ended)],
         breaker := C.Step(settings.breaker, s.breaker, C.Success), history := s.history + [C.Success])
    case Raise(i, at) =>
      s.(clock := at, calls := s.calls[i := s.calls[i].(stage := Ended)],
         breaker := C.Step(settings.breaker, s.breaker, C.Failure(at)), history := s.history + [C.Failure(at)])
    case Cancel(i) => s.(calls := s.calls[i := s.calls[i].(stage := Ended)])
  }

  // ------------------------------------------------------------------ the invariant

  /** A call pays for its request, then for its tokens, then reaches the provider. */
  predicate InOrder(c: Call) {
    && c.estimate >= 0.0
    && (c.reached ==> c.paidTokens) && (c.paidTokens ==> c.paidRequest)
    && (c.stage == WantsRequest ==> !c.paidRequest)
    && (c.stage == WantsTokens ==> c.paidRequest && !c.paidTokens)
    && (c.stage == WantsSlot ==> c.paidTokens && !c.reached)
    && (c.stage == InFlight ==> c.reached)
  }

  /** A bucket is where its checks leave it, and what it granted is what the calls were charged. */
  ghost predicate Balanced(
      limits: B.Limits, start: real, clock: real, bucket: B.Bucket, checks: seq<B.Event>, charged: real) {
    && B.ValidLimits(limits)
    && B.ValidEvents(start, checks)
    && (forall k :: 0 <= k < |checks| ==> checks[k].now <= clock)
    && bucket == B.After(limits, start, checks, |checks|)
    && B.Total(limits, start, checks, 0, |checks|) == charged
  }

  ghost predicate Inv(settings: Settings, start: real, s: System) {
    && start <= s.clock
    && s.breaker == C.After(settings.breaker, s.history)
    && (forall c :: c in s.calls ==> InOrder(c))
    && Taken(s.calls) <= settings.concurrency
    && Balanced(settings.requests, start, s.clock, s.requests, s.requestChecks, Sum(s.calls, Requests()))
    && Balanced(settings.tokens, start, s.clock, s.tokens, s.tokenChecks, Sum(s.calls, Tokens()))
  }

  /** What the first checks did does not depend on later ones. */
  lemma {:induction false} EarlierChecks(
      limits: B.Limits, start: real, checks: seq<B.Event>, more: seq<B.Event>, k: nat)
    requires checks <= more && k <= |checks|
    ensures B.After(limits, start, more, k) == B.After(limits, start, checks, k)
    ensures B.Total(limits, start, more, 0, k) == B.Total(limits, start, checks, 0, k)
  {
    if k > 0 { EarlierChecks(limits, start, checks, more, k - 1); }
  }

  lemma OneMoreCheck(
      limits: B.Limits, start: real, clock: real, bucket: B.Bucket, checks: seq<B.Event>, charged: real, at: real,
      amount: real)
    requires Balanced(limits, start, clock, bucket, checks, charged) && start <= clock <= at && amount >= 0.0
    ensures var (bucket', granted) := B.Check(limits, bucket, at, amount);
            Balanced(limits, start, at, bucket', checks + [B.Event(at, amount)],
                     charged + (if granted then amount else 0.0))
  {
    var e := B.Event(at, amount);
    var longer := checks + [e];
    EarlierChecks(limits, start, checks, longer, |checks|);
    assert longer[|checks|] == e;
    forall j, k | 0 <= j <= k < |longer| ensures longer[j].now <= longer[k].now {
      if k < |checks| { assert checks[j].now <= checks[k].now; }
    }
  }

  lemma LaterClock(
      limits: B.Limits, start: real, clock: real, bucket: B.Bucket, checks: seq<B.Event>, charged: real, at: real)
    requires Balanced(limits, start, clock, bucket, checks, charged) && clock <= at
    ensures Balanced(limits, start, at, bucket, checks, charged)
  {}

  lemma CallChanges(s: System, i: nat, c: Call)
    requires i < |s.calls| && (forall d :: d in s.calls ==> InOrder(d)) && InOrder(c)
    ensures forall d :: d in s.calls[i := c] ==> InOrder(d)
    ensures Taken(s.calls[i := c]) == Taken(s.calls) - Slot(s.calls[i]) + Slot(c)
    ensures Sum(s.calls[i := c], Requests()) == Sum(s.calls, Requests()) - Requests()(s.calls[i]) + Requests()(c)
    ensures Sum(s.calls[i := c], Tokens()) == Sum(s.calls, Tokens()) - Tokens()(s.calls[i]) + Tokens()(c)
  {
    TakenUpdate(s.calls, i, c);
    SumUpdate(s.calls, i, c, Requests());
    SumUpdate(s.calls, i, c, Tokens());
  }

  lemma HistoryGrows(settings: C.Settings, history: seq<C.Event>, e: C.Event)
    ensures C.After(settings, history + [e]) == C.Step(settings, C.After(settings, history), e)
  {
    assert (history + [e])[..|history|] == history;
  }

  lemma CheckKeepsInv(settings: Settings, start: real, s: System, a: Action)
    requires Inv(settings, start, s) && Enabled(settings, s, a) && (a.CheckRequests? || a.CheckTokens?)
    ensures Inv(settings, start, Next(settings, s, a))
  {
    var c := s.calls[a.call];
    assert c in s.calls;
    if a.CheckRequests? {
      CallChanges(s, a.call, c.(stage := WantsTokens, paidRequest := true));
      OneMoreCheck(settings.requests, start, s.clock, s.requests, s.requestChecks, Sum(s.calls, Requests()), a.at, 1.0);
      LaterClock(settings.tokens, start, s.clock, s.tokens, s.tokenChecks, Sum(s.calls, Tokens()), a.at);
    } else {
      CallChanges(s, a.call, c.(stage := WantsSlot, paidTokens := true));
      OneMoreCheck(settings.tokens, start, s.clock, s.tokens, s.tokenChecks, Sum(s.calls, Tokens()), a.at, c.estimate);
      LaterClock(settings.requests, start, s.clock, s.requests, s.requestChecks, Sum(s.calls, Requests()), a.at);
    }
  }

  lemma MoveKeepsInv(settings: Settings, start: real, s: System, a: Action)
    requires Inv(settings, start, s) && Enabled(settings, s, a)
    requires a.Enter? || a.Answer? || a.Raise? || a.Cancel?
    ensures Inv(settings, start, Next(settings, s, a))
  {
    var c := s.calls[a.call];
    assert c in s.calls;
    var after := if a.Enter? then c.(stage := InFlight, reached := true) else c.(stage := Ended);
    CallChanges(s, a.call, after);
    if a.Answer? { HistoryGrows(settings.breaker, s.history, C.Success); }
    if a.Raise? { HistoryGrows(settings.breaker, s.history, C.Failure(a.at)); }
  }

  lemma BeginKeepsInv(settings: Settings, start: real, s: System, a: Action)
    requires Inv(settings, start, s) && Enabled(settings, s, a) && a.Begin?
    ensures Inv(settings, start, Next(settings, s, a))
  {
    var c := Next(settings, s, a).calls[|s.calls|];
    assert (s.calls + [c])[..|s.calls|] == s.calls;
    SumAppend(s.calls, c, Requests());
    SumAppend(s.calls, c, Tokens());
    HistoryGrows(settings.breaker, s.history, C.Arrival(a.at));
  }

  /** Every interleaving keeps the invariant: at most `concurrency` calls are with the provider, each
      has paid both buckets, and the breaker is where the arrivals and reported outcomes leave it. */
  lemma StepKeepsInv(settings: Settings, start: real, s: System, a: Action)
    requires Inv(settings, start, s) && Enabled(settings, s, a)
    ensures Inv(settings, start, Next(settings, s, a))
  {
    if a.Begin? {
      BeginKeepsInv(settings, start, s, a);
    } else if a.CheckRequests? || a.CheckTokens? {
      CheckKeepsInv(settings, start, s, a);
    } else {
      MoveKeepsInv(settings, start, s, a);
    }
  }

  ghost predicate IsRun(settings: Settings, start: real, states: seq<System>, actions: seq<Action>) {
    && B.ValidLimits(settings.requests) && B.ValidLimits(settings.tokens)
    && |states| == |actions| + 1 && states[0] == Start(settings, start)
    && forall i :: 0 <= i < |actions| ==>
         Enabled(settings, states[i], actions[i]) && states[i + 1] == Next(settings, states[i], actions[i])
  }

  lemma {:induction false} RunKeepsInv(
      settings: Settings, start: real, states: seq<System>, actions: seq<Action>, j: nat)
    requires IsRun(settings, start, states, actions) && j < |states|
    ensures Inv(settings, start, states[j])
  {
    if j > 0 {
      RunKeepsInv(settings, start, states, actions, j - 1);
      StepKeepsInv(settings, start, states[j - 1], actions[j - 1]);
    }
  }

  // ------------------------------------------------------------------ what a run promises

  /** The rate limits hold end to end: up to any moment, the calls that reached the provider are no
      more than the request limit admits, their estimated tokens no more than the token limit admits,
      and no more of them are there at once than there are slots. */
  lemma ProviderLoadIsBounded(settings: Settings, start: real, states: seq<System>, actions: seq<Action>, j: nat)
    requires IsRun(settings, start, states, actions) && j < |states|
    ensures var s := states[j];
            && Sum(s.calls, Reached()) <= settings.requests.capacity + Times(s.clock - start, settings.requests.refill)
            && Sum(s.calls, ReachedTokens())
               <= settings.tokens.capacity + Times(s.clock - start, settings.tokens.refill)
            && Taken(s.calls) <= settings.concurrency
  {
    var s := states[j];
    RunKeepsInv(settings, start, states, actions, j);
    SumMonotone(s.calls, Reached(), Requests());
    SumMonotone(s.calls, ReachedTokens(), Tokens());
    B.WindowBound(settings.requests, start, s.requestChecks, 0, |s.requestChecks|, start, s.clock);
    B.WindowBound(settings.tokens, start, s.tokenChecks, 0, |s.tokenChecks|, start, s.clock);
  }

  // ------------------------------------------------------------------ a window of a run

  /** What was paid by calls that reached the provider, by calls still on their way, and by calls cancelled
      on their way. */
  function OfReached(pay: Call -> real): Call -> real {
    (c: Call) => if c.reached then pay(c) else 0.0
  }

  function OfWaiting(pay: Call -> real): Call -> real {
    (c: Call) => if !c.reached && c.stage != Ended then pay(c) else 0.0
  }

  function OfDropped(pay: Call -> real): Call -> real {
    (c: Call) => if !c.reached && c.stage == Ended then pay(c) else 0.0
  }

  lemma {:induction false} PaymentsSplit(calls: seq<Call>, pay: Call -> real)
    ensures Sum(calls, pay) ==
            Sum(calls, OfReached(pay)) + Sum(calls, OfWaiting(pay)) + Sum(calls, OfDropped(pay))
  {
    if calls != [] { PaymentsSplit(calls[..|calls| - 1], pay); }
  }

  lemma {:induction false} SumNonNegative(calls: seq<Call>, f: Call -> real)
    requires forall c :: c in calls ==> f(c) >= 0.0
    ensures Sum(calls, f) >= 0.0
  {
    if calls != [] {
      var n := |calls| - 1;
      assert calls == calls[..n] + [calls[n]];
      SumNonNegative(calls[..n], f);
    }
  }

  /** A step changes one call, which has not ended, or adds one. */
  lemma StepChangesOneCall(settings: Settings, s: System, a: Action)
    requires Enabled(settings, s, a)
    ensures var after := Next(settings, s, a).calls;
            if a.Begin? then
              |after| == |s.calls| + 1 && after == s.calls + [after[|s.calls|]] && !after[|s.calls|].paidRequest
            else
              && a.call < |s.calls| == |after| && s.calls[a.call].stage != Ended
              && after == s.calls[a.call := after[a.call]]
  {
    if !a.Begin? {
      var after := Next(settings, s, a).calls;
      assert s.calls == s.calls[a.call := s.calls[a.call]];
    }
  }

  /** What cancelled calls paid is never less later on. */
  lemma DroppedGrows(settings: Settings, start: real, s: System, a: Action, pay: Call -> real)
    requires Inv(settings, start, s) && Enabled(settings, s, a)
    requires forall c: Call :: InOrder(c) ==> pay(c) >= 0.0
    ensures Sum(s.calls, OfDropped(pay)) <= Sum(Next(settings, s, a).calls, OfDropped(pay))
  {
    var after := Next(settings, s, a).calls;
    StepChangesOneCall(settings, s, a);
    StepKeepsInv(settings, start, s, a);
    if a.Begin? {
      assert after[|s.calls|] in after;
      SumAppend(s.calls, after[|s.calls|], OfDropped(pay));
    } else {
      assert after[a.call] in after;
      SumUpdate(s.calls, a.call, after[a.call], OfDropped(pay));
    }
  }

  lemma {:induction false} DroppedNeverShrinks(
      settings: Settings, start: real, states: seq<System>, actions: seq<Action>, i: nat, j: nat, pay: Call -> real)
    requires IsRun(settings, start, states, actions) && i <= j < |states|
    requires forall c: Call :: InOrder(c) ==> pay(c) >= 0.0
    ensures Sum(states[i].calls, OfDropped(pay)) <= Sum(states[j].calls, OfDropped(pay))
  {
    if i < j {
      DroppedNeverShrinks(settings, start, states, actions, i, j - 1, pay);
      RunKeepsInv(settings, start, states, actions, j - 1);
      DroppedGrows(settings, start, states[j - 1], actions[j - 1], pay);
    }
  }

  /** `more` continues `checks` with checks made between the two clock readings. */
  ghost predicate Continues(checks: seq<B.Event>, more: seq<B.Event>, from: real, to: real) {
    checks <= more && from <= to && forall k :: |checks| <= k < |more| ==> from <= more[k].now <= to
  }

  lemma {:induction false} ChecksContinue(
      settings: Settings, start: real, states: seq<System>, actions: seq<Action>, i: nat, j: nat)
    requires IsRun(settings, start, states, actions) && i <= j < |states|
    ensures Continues(states[i].requestChecks, states[j].requestChecks, states[i].clock, states[j].clock)
    ensures Continues(states[i].tokenChecks, states[j].tokenChecks, states[i].clock, states[j].clock)
  {
    if i < j {
      ChecksContinue(settings, start, states, actions, i, j - 1);
      assert Enabled(settings, states[j - 1], actions[j - 1]);
    }
  }

  lemma {:induction false} TotalSplits(limits: B.Limits, start: real, checks: seq<B.Event>, m: nat, n: nat)
    requires m <= n <= |checks|
    ensures B.Total(limits, start, checks, 0, n) ==
            B.Total(limits, start, checks, 0, m) + B.Total(limits, start, checks, m, n)
    decreases n
  {
    if m < n { TotalSplits(limits, start, checks, m, n - 1); }
  }

  /** Between two moments a bucket charges at most what its window bound grants. */
  lemma ChargedInWindow(limits: B.Limits, start: real, from: real, to: real, early: B.Bucket, late: B.Bucket,
                        checks: seq<B.Event>, more: seq<B.Event>, charged: real, total: real)
    requires Balanced(limits, start, from, early, checks, charged) && Balanced(limits, start, to, late, more, total)
    requires Continues(checks, more, from, to)
    ensures total - charged <= limits.capacity + Times(to - from, limits.refill)
  {
    EarlierChecks(limits, start, checks, more, |checks|);
    TotalSplits(limits, start, more, |checks|, |more|);
    B.WindowBound(limits, start, more, |checks|, |more|, from, to);
  }

  lemma {:induction false} SumsEqual(calls: seq<Call>, f: Call -> real, g: Call -> real)
    requires forall c :: c in calls ==> f(c) == g(c)
    ensures Sum(calls, f) == Sum(calls, g)
  {
    SumMonotone(calls, f, g);
    SumMonotone(calls, g, f);
  }

  lemma ReachedHavePaid(settings: Settings, start: real, s: System)
    requires Inv(settings, start, s)
    ensures Sum(s.calls, Reached()) == Sum(s.calls, OfReached(Requests()))
    ensures Sum(s.calls, ReachedTokens()) == Sum(s.calls, OfReached(Tokens()))
  {
    SumsEqual(s.calls, Reached(), OfReached(Requests()));
    SumsEqual(s.calls, ReachedTokens(), OfReached(Tokens()));
  }

  /** The rate limits over any window: between two moments the calls that reach the provider are no more
      than those already past the limiter and still waiting at the first moment, plus what the request
      limit grants in between; likewise their estimated tokens. */
  lemma WindowLoadIsBounded(
      settings: Settings, start: real, states: seq<System>, actions: seq<Action>, i: nat, j: nat)
    requires IsRun(settings, start, states, actions) && i <= j < |states|
    ensures Sum(states[j].calls, Reached()) - Sum(states[i].calls, Reached())
         <= Sum(states[i].calls, OfWaiting(Requests()))
            + settings.requests.capacity + Times(states[j].clock - states[i].clock, settings.requests.refill)
    ensures Sum(states[j].calls, ReachedTokens()) - Sum(states[i].calls, ReachedTokens())
         <= Sum(states[i].calls, OfWaiting(Tokens()))
            + settings.tokens.capacity + Times(states[j].clock - states[i].clock, settings.tokens.refill)
  {
    var s, t := states[i], states[j];
    RunKeepsInv(settings, start, states, actions, i);
    RunKeepsInv(settings, start, states, actions, j);
    ChecksContinue(settings, start, states, actions, i, j);
    ReachedHavePaid(settings, start, s);
    ReachedHavePaid(settings, start, t);
    PaidInWindow(s.calls, t.calls, Requests(), settings, start, states, actions, i, j);
    PaidInWindow(s.calls, t.calls, Tokens(), settings, start, states, actions, i, j);
    ChargedInWindow(settings.requests, start, s.clock, t.clock, s.requests, t.requests, s.requestChecks,
                    t.requestChecks, Sum(s.calls, Requests()), Sum(t.calls, Requests()));
    ChargedInWindow(settings.tokens, start, s.clock, t.clock, s.tokens, t.tokens, s.tokenChecks, t.tokenChecks,
                    Sum(s.calls, Tokens()), Sum(t.calls, Tokens()));
  }

  lemma PaidInWindow(before: seq<Call>, after: seq<Call>, pay: Call -> real,
                     settings: Settings, start: real, states: seq<System>, actions: seq<Action>, i: nat, j: nat)
    requires IsRun(settings, start, states, actions) && i <= j < |states|
    requires before == states[i].calls && after == states[j].calls
    requires forall c: Call :: InOrder(c) ==> pay(c) >= 0.0
    ensures Sum(after, OfReached(pay)) - Sum(before, OfReached(pay))
         <= Sum(before, OfWaiting(pay)) + Sum(after, pay) - Sum(before, pay)
  {
    PaymentsSplit(before, pay);
    PaymentsSplit(after, pay);
    DroppedNeverShrinks(settings, start, states, actions, i, j, pay);
    RunKeepsInv(settings, start, states, actions, j);
    SumNonNegative(after, OfWaiting(pay));
  }

  // ------------------------------------------------------------------ calls that do not get through

  lemma {:induction false} EndedCallsStay(
      settings: Settings, start: real, states: seq<System>, actions: seq<Action>, j: nat, k: nat, call: nat)
    requires IsRun(settings, start, states, actions) && j <= k < |states| && At(states[j], call, Ended)
    ensures call < |states[k].calls| && states[k].calls[call] == states[j].calls[call]
  {
    if j < k {
      EndedCallsStay(settings, start, states, actions, j, k - 1, call);
      StepChangesOneCall(settings, states[k - 1], actions[k - 1]);
    }
  }

  /** A call the breaker rejects draws on neither bucket, and in every later state of the run it has ended,
      was charged nothing and never reached the provider. */
  lemma RejectedCallsCostNothing(
      settings: Settings, start: real, states: seq<System>, actions: seq<Action>, j: nat, k: nat)
    requires IsRun(settings, start, states, actions) && j < |actions| && j < k < |states|
    requires actions[j].Begin? && C.Rejects(settings.breaker, states[j].breaker, actions[j].at)
    ensures var call := |states[j].calls|;
            && call < |states[k].calls|
            && states[k].calls[call] == Call(actions[j].estimate, Ended, false, false, false)
    ensures states[j + 1].requests == states[j].requests && states[j + 1].tokens == states[j].tokens
    ensures states[j + 1].breaker == states[j].breaker
  {
    EndedCallsStay(settings, start, states, actions, j + 1, k, |states[j].calls|);
  }

  // ------------------------------------------------------------------ the breaker, told from the actions

  /** Inner calls that raised since the last one that answered; cancelled calls do not count. */
  function RaisesSinceAnswer(actions: seq<Action>): nat {
    if actions == [] then 0
    else
      var before := actions[..|actions| - 1];
      match actions[|actions| - 1]
      case Raise(_, _) => RaisesSinceAnswer(before) + 1
      case Answer(_) => 0
      case _ => RaisesSinceAnswer(before)
  }

  function LastRaiseAt(actions: seq<Action>): Option<real> {
    if actions == [] then None
    else
      match actions[|actions| - 1]
      case Raise(_, at) => Some(at)
      case _ => LastRaiseAt(actions[..|actions| - 1])
  }

  /** The history holds the raises and answers of the run, in order, at times up to the clock. */
  ghost predicate ToldBy(s: System, actions: seq<Action>) {
    && C.TrailingFailures(s.history) == RaisesSinceAnswer(actions)
    && C.LastFailureAt(s.history) == LastRaiseAt(actions)
    && C.Monotone(s.history)
    && forall e :: e in s.history && C.Timed(e) ==> e.at <= s.clock
  }

  lemma MonotoneGrows(history: seq<C.Event>, e: C.Event)
    requires C.Monotone(history)
    requires C.Timed(e) ==> forall d :: d in history && C.Timed(d) ==> d.at <= e.at
    ensures C.Monotone(history + [e])
  {}

  lemma StepTold(settings: Settings, s: System, a: Action, before: seq<Action>)
    requires Enabled(settings, s, a) && ToldBy(s, before)
    ensures ToldBy(Next(settings, s, a), before + [a])
  {
    assert (before + [a])[..|before|] == before;
    var history := Next(settings, s, a).history;
    if a.Begin? || a.Answer? || a.Raise? {
      assert history[..|s.history|] == s.history;
      MonotoneGrows(s.history, history[|s.history|]);
    }
  }

  lemma {:induction false} RunTold(settings: Settings, start: real, states: seq<System>, actions: seq<Action>, j: nat)
    requires IsRun(settings, start, states, actions) && j < |states|
    ensures ToldBy(states[j], actions[..j])
  {
    if j > 0 {
      RunTold(settings, start, states, actions, j - 1);
      StepTold(settings, states[j - 1], actions[j - 1], actions[..j - 1]);
      assert actions[..j] == actions[..j - 1] + [actions[j - 1]];
    }
  }

  /** Which calls are turned away, told from what the run did: a call is rejected exactly when the inner
      calls that raised since the last answer number at least the threshold and the last of them is more
      recent than the recovery timeout; else it goes on to wait for a request. */
  lemma RejectedIffProviderKeepsRaising(
      settings: Settings, start: real, states: seq<System>, actions: seq<Action>, j: nat)
    requires IsRun(settings, start, states, actions) && j < |actions| && actions[j].Begin?
    requires settings.breaker.failureThreshold >= 1
    ensures |states[j + 1].calls| == |states[j].calls| + 1
    ensures var before := actions[..j];
            var rejected :=
              && RaisesSinceAnswer(before) >= settings.breaker.failureThreshold
              && LastRaiseAt(before).Some?
              && actions[j].at - LastRaiseAt(before).value < settings.breaker.recoveryTimeout;
            states[j + 1].calls[|states[j].calls|].stage == if rejected then Ended else WantsRequest
  {
    var s, a := states[j], actions[j];
    RunKeepsInv(settings, start, states, actions, j);
    RunTold(settings, start, states, actions, j);
    assert Enabled(settings, s, a);
    MonotoneGrows(s.history, C.Arrival(a.at));
    C.RejectionFollowsHistory(settings.breaker, s.history, a.at);
  }

  /** Only an exception raised by the inner call counts against the provider: the breaker is closed exactly
      while fewer than the threshold have been raised since the last answer.  A call cut off by its
      caller's timeout reports nothing. */
  lemma OnlyRaisedCallsOpenTheBreaker(
      settings: Settings, start: real, states: seq<System>, actions: seq<Action>, j: nat)
    requires IsRun(settings, start, states, actions) && j < |states| && settings.breaker.failureThreshold >= 1
    ensures states[j].breaker.state == C.Closed <==>
            RaisesSinceAnswer(actions[..j]) < settings.breaker.failureThreshold
  {
    RunKeepsInv(settings, start, states, actions, j);
    RunTold(settings, start, states, actions, j);
    C.BreakerFollowsHistory(settings.breaker, states[j].history);
  }

  /** However a call with the provider ends, its slot is free again. */
  lemma EndingFreesTheSlot(settings: Settings, s: System, a: Action)
    requires Enabled(settings, s, a) && (a.Answer? || a.Raise? || a.Cancel?) && At(s, a.call, InFlight)
    ensures At(Next(settings, s, a), a.call, Ended) && Taken(Next(settings, s, a).calls) == Taken(s.calls) - 1
  {
    TakenUpdate(s.calls, a.call, s.calls[a.call].(stage := Ended));
  }

  // ------------------------------------------------------------------ progress

  /** When a bucket that nobody else draws on holds the amount. */
  function ReadyAt(limits: B.Limits, bucket: B.Bucket, clock: real, amount: real): real
    requires limits.refill > 0.0
  {
    Max(clock, bucket.updatedAt + Max(0.0, amount - bucket.tokens) / limits.refill)
  }

  lemma GrantedWhenReady(limits: B.Limits, bucket: B.Bucket, clock: real, amount: real)
    requires limits.refill > 0.0 && amount <= limits.capacity
    ensures B.Check(limits, bucket, ReadyAt(limits, bucket, clock, amount), amount).1
  {
    var deficit := Max(0.0, amount - bucket.tokens);
    var elapsed := ReadyAt(limits, bucket, clock, amount) - bucket.updatedAt;
    DivideBack(limits.refill, deficit);
    TimesMonotone(limits.refill, deficit / limits.refill, elapsed);
    TimesNegated(limits.refill, elapsed);
  }

  function AfterStage(stage: Stage): Stage {
    match stage
    case WantsRequest => WantsTokens
    case WantsTokens => WantsSlot
    case WantsSlot => InFlight
    case _ => Ended
  }

  /** No call that has been admitted is stuck: while refills go on, the limits could hold what it asks for and a
      slot is free when that is what it waits for, some action takes it one stage further. */
  lemma AdmittedCallCanMove(settings: Settings, start: real, s: System, call: nat) returns (a: Action)
    requires Inv(settings, start, s) && call < |s.calls| && s.calls[call].stage != Ended
    requires settings.requests.refill > 0.0 && settings.requests.capacity >= 1.0
    requires settings.tokens.refill > 0.0 && settings.tokens.capacity >= s.calls[call].estimate
    requires s.calls[call].stage == WantsSlot ==> Taken(s.calls) < settings.concurrency
    ensures Enabled(settings, s, a) && !a.Cancel?
    ensures At(Next(settings, s, a), call, AfterStage(s.calls[call].stage))
  {
    match s.calls[call].stage {
      case WantsRequest =>
        GrantedWhenReady(settings.requests, s.requests, s.clock, 1.0);
        a := CheckRequests(call, ReadyAt(settings.requests, s.requests, s.clock, 1.0));
      case WantsTokens =>
        var estimate := s.calls[call].estimate;
        GrantedWhenReady(settings.tokens, s.tokens, s.clock, estimate);
        a := CheckTokens(call, ReadyAt(settings.tokens, s.tokens, s.clock, estimate));
      case WantsSlot => a := Enter(call);
      case InFlight => a := Answer(call);
    }
  }
}

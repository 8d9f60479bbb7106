/** Rate limiting and circuit breaking of a provider.  Clocks enter as readings of one monotone
    clock; each lock-protected or await-free stretch of the source is one method. */
module TokenBuckets {

  import opened Reals

  datatype Limits = Limits(capacity: real, refill: real)

  datatype Bucket = Bucket(tokens: real, updatedAt: real)

  ghost predicate ValidLimits(limits: Limits) {
    limits.capacity >= 0.0 && limits.refill >= 0.0
  }

  function Refilled(limits: Limits, b: Bucket, now: real): real {
    Min(limits.capacity, b.tokens + Times(now - b.updatedAt, limits.refill))
  }

  /** One pass through the lock: refill, then take the amount when it is there. */
  function Check(limits: Limits, b: Bucket, now: real, amount: real): (Bucket, bool) {
    var tokens := Refilled(limits, b, now);
    if tokens >= amount then (Bucket(tokens - amount, now), true) else (Bucket(tokens, now), false)
  }

  /** How long a waiter sleeps; the refill rate is floored at 1e-9 in this division only. */
  function Delay(limits: Limits, tokens: real, amount: real): real {
    (amount - tokens) / Max(limits.refill, 0.000000001)
  }

  // ------------------------------------------------------------------ runs

  /** One check by any caller. */
  datatype Event = Event(now: real, amount: real)

  /** The bucket after the first `k` checks of a run that starts with a full bucket at `start`. */
  ghost function After(limits: Limits, start: real, events: seq<Event>, k: nat): Bucket
    requires k <= |events|
  {
    if k == 0 then Bucket(limits.capacity, start)
    else Check(limits, After(limits, start, events, k - 1), events[k - 1].now, events[k - 1].amount).0
  }

  ghost predicate Granted(limits: Limits, start: real, events: seq<Event>, k: nat)
    requires k < |events|
  {
    Check(limits, After(limits, start, events, k), events[k].now, events[k].amount).1
  }

  /** Amounts granted by the checks numbered `i` up to `j`. */
  ghost function Total(limits: Limits, start: real, events: seq<Event>, i: nat, j: nat): real
    requires i <= j <= |events|
    decreases j
  {
    if i == j then 0.0
    else
      var last := if Granted(limits, start, events, j - 1) then events[j - 1].amount else 0.0;
      Total(limits, start, events, i, j - 1) + last
  }

  ghost predicate ValidEvents(start: real, events: seq<Event>) {
    && (forall k :: 0 <= k < |events| ==> events[k].amount >= 0.0 && events[k].now >= start)
    && (forall j, k :: 0 <= j <= k < |events| ==> events[j].now <= events[k].now)
  }

  lemma ElapsedSplits(a: real, b: real, rate: real)
    ensures Times(b - a, rate) == Times(b, rate) - Times(a, rate)
  {
    Distribute(rate, b, a);
    TimesNegated(rate, b - a);
    TimesNegated(rate, a);
    TimesNegated(rate, b);
  }

  /** The bucket never holds more than its capacity nor less than nothing, whatever is asked. */
  lemma {:induction false} TokensStayInRange(limits: Limits, start: real, events: seq<Event>, k: nat)
    requires ValidLimits(limits) && ValidEvents(start, events) && k <= |events|
    ensures 0.0 <= After(limits, start, events, k).tokens <= limits.capacity
    ensures After(limits, start, events, k).updatedAt == if k == 0 then start else events[k - 1].now
  {
    if k > 0 {
      TokensStayInRange(limits, start, events, k - 1);
      CheckRange(limits, After(limits, start, events, k - 1), events[k - 1].now, events[k - 1].amount);
    }
  }

  /** Tokens discounted by the time they were counted: waiting never changes it. */
  ghost function Stamp(limits: Limits, b: Bucket): real {
    b.tokens - Times(b.updatedAt, limits.refill)
  }

  lemma CheckAccounts(limits: Limits, b: Bucket, now: real, amount: real)
    ensures var (b', granted) := Check(limits, b, now, amount);
            (if granted then amount else 0.0) + Stamp(limits, b') <= Stamp(limits, b)
  {
    ElapsedSplits(b.updatedAt, now, limits.refill);
  }

  /** From check `i` to check `j` the amounts granted come out of the tokens there were and of what
      the elapsed time refilled. */
  lemma {:induction false} GrantsAreCovered(limits: Limits, start: real, events: seq<Event>, i: nat, j: nat)
    requires i <= j <= |events|
    ensures Total(limits, start, events, i, j) + Stamp(limits, After(limits, start, events, j))
         <= Stamp(limits, After(limits, start, events, i))
    decreases j
  {
    if i < j {
      GrantsAreCovered(limits, start, events, i, j - 1);
      CheckAccounts(limits, After(limits, start, events, j - 1), events[j - 1].now, events[j - 1].amount);
    }
  }

  lemma CheckRange(limits: Limits, b: Bucket, now: real, amount: real)
    requires ValidLimits(limits) && 0.0 <= b.tokens <= limits.capacity && b.updatedAt <= now && amount >= 0.0
    ensures 0.0 <= Check(limits, b, now, amount).0.tokens <= limits.capacity
    ensures Check(limits, b, now, amount).0.updatedAt == now
  {
    TimesNonNegative(now - b.updatedAt, limits.refill);
  }

  /** The window bound: over every run, the amounts granted by checks whose clock readings lie in
      [s, t] total at most the capacity plus what refills in that time. */
  lemma WindowBound(limits: Limits, start: real, events: seq<Event>, i: nat, j: nat, s: real, t: real)
    requires ValidLimits(limits) && ValidEvents(start, events) && i <= j <= |events|
    requires s <= t && forall k :: i <= k < j ==> s <= events[k].now <= t
    ensures Total(limits, start, events, i, j) <= limits.capacity + Times(t - s, limits.refill)
  {
    if i == j {
      TimesNonNegative(t - s, limits.refill);
    } else {
      assert s <= events[i].now && events[j - 1].now <= t;
      NonEmptyWindow(limits, start, events, i, j, t - s);
    }
  }

  lemma NonEmptyWindow(limits: Limits, start: real, events: seq<Event>, i: nat, j: nat, span: real)
    requires ValidLimits(limits) && ValidEvents(start, events) && i < j <= |events|
    requires events[j - 1].now - events[i].now <= span
    ensures Total(limits, start, events, i, j) <= limits.capacity + Times(span, limits.refill)
  {
    TotalSplitFirst(limits, start, events, i, j);
    LaterGrants(limits, start, events, i + 1, j, span);
  }

  lemma LaterGrants(limits: Limits, start: real, events: seq<Event>, i: nat, j: nat, span: real)
    requires ValidLimits(limits) && ValidEvents(start, events) && 0 < i <= j <= |events|
    requires events[j - 1].now - events[i - 1].now <= span
    ensures Total(limits, start, events, i, j) <= After(limits, start, events, i).tokens + Times(span, limits.refill)
  {
    GrantsAreCovered(limits, start, events, i, j);
    TokensStayInRange(limits, start, events, i);
    TokensStayInRange(limits, start, events, j);
    StampDifference(limits, After(limits, start, events, i), After(limits, start, events, j), span);
  }

  lemma StampDifference(limits: Limits, a: Bucket, c: Bucket, span: real)
    requires limits.refill >= 0.0 && c.tokens >= 0.0 && c.updatedAt - a.updatedAt <= span
    ensures Stamp(limits, a) - Stamp(limits, c) <= a.tokens + Times(span, limits.refill)
  {
    ElapsedSplits(a.updatedAt, c.updatedAt, limits.refill);
  }

  lemma {:induction false} TotalSplitFirst(limits: Limits, start: real, events: seq<Event>, i: nat, j: nat)
    requires i < j <= |events|
    ensures Total(limits, start, events, i, j)
         == (if Granted(limits, start, events, i) then events[i].amount else 0.0)
            + Total(limits, start, events, i + 1, j)
    decreases j
  {
    if i + 1 < j {
      TotalSplitFirst(limits, start, events, i, j - 1);
    }
  }

  /** A bucket starts full: the first check of a run is granted exactly when it asks for no more than the
      capacity. */
  lemma FullAtStart(limits: Limits, start: real, events: seq<Event>)
    requires ValidLimits(limits) && ValidEvents(start, events) && events != []
    ensures Granted(limits, start, events, 0) <==> events[0].amount <= limits.capacity
  {
    TimesNonNegative(events[0].now - start, limits.refill);
  }

  /** An amount above the capacity is never granted, in any run: `acquire` then waits for ever. */
  lemma OversizedNeverGranted(limits: Limits, start: real, events: seq<Event>, k: nat)
    requires k < |events| && events[k].amount > limits.capacity
    ensures !Granted(limits, start, events, k)
  {}

  /** A lone waiter that sleeps the computed delay is granted on its next check exactly when the
      refill rate is not below the floor used to compute the delay. */
  lemma LoneWaiterGrantedIff(limits: Limits, b: Bucket, amount: real)
    requires ValidLimits(limits) && b.tokens < amount <= limits.capacity
    ensures Check(limits, b, b.updatedAt + Delay(limits, b.tokens, amount), amount).1 <==>
            limits.refill >= 0.000000001
  {
    var deficit, rate := amount - b.tokens, Max(limits.refill, 0.000000001);
    DivideBack(rate, deficit);
    TimesNegated(rate, deficit / rate);
    if limits.refill < 0.000000001 {
      DivideMonotone(0.0, deficit, rate);
      assert deficit / rate != 0.0 by { assert Times(rate, 0.0) == 0.0; }
      TimesPositive(deficit / rate, rate - limits.refill);
      Distribute(deficit / rate, rate, limits.refill);
    }
  }

  // ------------------------------------------------------------------ the object

  class TokenBucket {
    const limits: Limits
    var tokens: real
    var updatedAt: real

    constructor (capacity: real, refillPerSecond: real, now: real)
      ensures limits == Limits(capacity, refillPerSecond)
      ensures State() == After(limits, now, [], 0)
    {
      limits := Limits(capacity, refillPerSecond);
      tokens := capacity;
      updatedAt := now;
    }

    function State(): Bucket
      reads this
    {
      Bucket(tokens, updatedAt)
    }

    /** The stretch of `acquire` under the lock: whether the caller may go, and else its delay. */
    method TryAcquire(now: real, amount: real) returns (granted: bool, delay: real)
      modifies this
      ensures State() == Check(limits, old(State()), now, amount).0
      ensures granted == Check(limits, old(State()), now, amount).1
      ensures !granted ==> delay == Delay(limits, tokens, amount)
    {
      var elapsed := now - updatedAt;
      tokens := Min(limits.capacity, tokens + Times(elapsed, limits.refill));
      updatedAt := now;
      delay := 0.0;
      granted := tokens >= amount;
      if granted {
        tokens := tokens - amount;
      } else {
        delay := (amount - tokens) / Max(limits.refill, 0.000000001);
      }
    }

    /** `acquire` with nobody else around and timers that wake on time: at most one sleep, and the
        caller waits exactly as long as its deficit takes to refill. */
    method AcquireAlone(start: real, amount: real) returns (now: real)
      requires ValidLimits(limits) && limits.refill >= 0.000000001
      requires amount <= limits.capacity && updatedAt <= start
      modifies this
      ensures var had := Refilled(limits, old(State()), start);
              && now == (if had >= amount then start else start + Delay(limits, had, amount))
              && tokens == (if had >= amount then had - amount else 0.0)
      ensures updatedAt == now
    {
      now := start;
      ghost var had := Refilled(limits, State(), start);
      var granted := false;
      var sleeps := 0;
      while !granted
        invariant sleeps <= 1
        invariant granted ==> updatedAt == now
        invariant !granted && sleeps == 0 ==> now == start && State() == old(State())
        invariant !granted && sleeps == 1 ==>
                    had < amount && State() == Bucket(had, start) && now == start + Delay(limits, had, amount)
        invariant granted ==> now == (if had >= amount then start else start + Delay(limits, had, amount))
        invariant granted ==> tokens == (if had >= amount then had - amount else 0.0)
        decreases 1 - sleeps, !granted
      {
        if sleeps == 1 {
          LoneWaiterGrantedIff(limits, State(), amount);
          DivideBack(limits.refill, amount - had);
          TimesNegated(limits.refill, (amount - had) / limits.refill);
        }
        var delay;
        granted, delay := TryAcquire(now, amount);
        if !granted {
          now := now + delay;
          sleeps := sleeps + 1;
        }
      }
    }
  }
}

module CircuitBreakers {
  import opened Wrappers

  datatype CircuitState = Closed | Open | HalfOpen

  datatype Settings = Settings(failureThreshold: int, recoveryTimeout: real)

  datatype Breaker = Breaker(state: CircuitState, failures: int, openedAt: Option<real>)

  /** What callers report, in the order the calls complete, with clock readings. */
  datatype Event = Arrival(at: real) | Success | Failure(at: real)

  const INITIAL := Breaker(Closed, 0, None)

  /** Whether `before_call` raises. */
  predicate Rejects(settings: Settings, b: Breaker, at: real) {
    b.state == Open && b.openedAt.Some? && at - b.openedAt.value < settings.recoveryTimeout
  }

  function Step(settings: Settings, b: Breaker, e: Event): Breaker {
    match e
    case Arrival(at) =>
      if b.state == Open && !Rejects(settings, b, at) then b.(state := HalfOpen) else b
    case Success => INITIAL
    case Failure(at) =>
      var failures := b.failures + 1;
      if b.state == HalfOpen || failures >= settings.failureThreshold
      then Breaker(Open, failures, Some(at))
      else b.(failures := failures)
  }

  function After(settings: Settings, history: seq<Event>): Breaker {
    if history == [] then INITIAL
    else Step(settings, After(settings, history[..|history| - 1]), history[|history| - 1])
  }

  // ------------------------------------------------------------------ the stateless reading

  /** Failures since the last success, admissions not counting. */
  function TrailingFailures(history: seq<Event>): nat {
    if history == [] then 0
    else
      var before := history[..|history| - 1];
      match history[|history| - 1]
      case Arrival(_) => TrailingFailures(before)
      case Success => 0
      case Failure(_) => TrailingFailures(before) + 1
  }

  function LastFailureAt(history: seq<Event>): Option<real> {
    if history == [] then None
    else
      match history[|history| - 1]
      case Failure(at) => Some(at)
      case _ => LastFailureAt(history[..|history| - 1])
  }

  /** Rejection read off the history alone. */
  predicate ShouldReject(settings: Settings, history: seq<Event>, at: real) {
    && TrailingFailures(history) >= settings.failureThreshold
    && LastFailureAt(history).Some?
    && at - LastFailureAt(history).value < settings.recoveryTimeout
  }

  predicate Timed(e: Event) {
    !e.Success?
  }

  ghost predicate Monotone(history: seq<Event>) {
    forall i, j :: 0 <= i < j < |history| && Timed(history[i]) && Timed(history[j]) ==> history[i].at <= history[j].at
  }

  /** A probe was admitted after the recovery timeout since the last failure. */
  ghost predicate ProbeAdmitted(settings: Settings, history: seq<Event>) {
    exists i :: 0 <= i < |history| && history[i].Arrival?
      && LastFailureAt(history).Some? && history[i].at - LastFailureAt(history).value >= settings.recoveryTimeout
  }

  ghost predicate Matches(settings: Settings, history: seq<Event>, b: Breaker) {
    && b.failures == TrailingFailures(history)
    && (b.state == Closed <==> TrailingFailures(history) < settings.failureThreshold)
    && (b.openedAt == None <==> TrailingFailures(history) < settings.failureThreshold)
    && (b.openedAt.Some? ==> b.openedAt == LastFailureAt(history))
    && (b.state == HalfOpen ==> ProbeAdmitted(settings, history))
  }

  /** The breaker is a function of its history: with calls completing in any order, the counter is
      the trailing failure run, CLOSED and an unset `opened_at` each mean that run is below the
      threshold, and else `opened_at` is the time of the last failure. */
  lemma {:induction false} BreakerFollowsHistory(settings: Settings, history: seq<Event>)
    requires settings.failureThreshold >= 1
    ensures Matches(settings, history, After(settings, history))
  {
    if history != [] {
      var before, e := history[..|history| - 1], history[|history| - 1];
      BreakerFollowsHistory(settings, before);
      var b := After(settings, before);
      if e.Arrival? {
        if b.state == HalfOpen {
          var i :| 0 <= i < |before| && before[i].Arrival?
            && LastFailureAt(before).Some? && before[i].at - LastFailureAt(before).value >= settings.recoveryTimeout;
          assert history[i] == before[i];
        } else if b.state == Open && !Rejects(settings, b, e.at) {
          assert history[|history| - 1].Arrival?;
        }
      }
    }
  }

  /** Whatever the threshold, an open breaker has the time it opened at. */
  lemma {:induction false} OpenIsDated(settings: Settings, history: seq<Event>)
    ensures After(settings, history).state != Closed ==> After(settings, history).openedAt.Some?
  {
    if history != [] {
      OpenIsDated(settings, history[..|history| - 1]);
    }
  }

  /** A call at a time not before the history is rejected exactly when the trailing failure run has
      reached the threshold and the last failure is more recent than the recovery timeout.  In the
      half-open state nothing is rejected: every caller becomes a probe. */
  lemma RejectionFollowsHistory(settings: Settings, history: seq<Event>, at: real)
    requires settings.failureThreshold >= 1 && Monotone(history + [Arrival(at)])
    ensures Rejects(settings, After(settings, history), at) <==> ShouldReject(settings, history, at)
  {
    BreakerFollowsHistory(settings, history);
    var longer := history + [Arrival(at)];
    if After(settings, history).state == HalfOpen {
      var i :| 0 <= i < |history| && history[i].Arrival?
        && LastFailureAt(history).Some? && history[i].at - LastFailureAt(history).value >= settings.recoveryTimeout;
      assert longer[i] == history[i] && longer[|history|] == Arrival(at);
      assert Timed(longer[i]) && Timed(longer[|history|]);
    }
  }

  /** The hypothesis on the threshold is needed: below one, a fresh breaker already contradicts the
      counter reading. */
  lemma ThresholdMustBePositive(settings: Settings)
    ensures Matches(settings, [], After(settings, [])) <==> settings.failureThreshold >= 1
  {}

  // ------------------------------------------------------------------ the object

  class CircuitBreaker {
    const settings: Settings
    var state: CircuitState
    var failures: int
    var openedAt: Option<real>
    ghost var history: seq<Event>

    constructor (failureThreshold: int, recoveryTimeout: real)
      ensures settings == Settings(failureThreshold, recoveryTimeout)
      ensures history == [] && Valid()
    {
      settings := Settings(failureThreshold, recoveryTimeout);
      state, failures, openedAt := Closed, 0, None;
      history := [];
    }

    ghost predicate Valid()
      reads this
    {
      Breaker(state, failures, openedAt) == After(settings, history)
    }

    method BeforeCall(at: real) returns (admitted: bool)
      requires Valid()
      modifies this
      ensures Valid() && history == old(history) + [Arrival(at)]
      ensures admitted <==> !Rejects(settings, After(settings, old(history)), at)
      ensures settings.failureThreshold >= 1 && Monotone(history) ==>
                (admitted <==> !ShouldReject(settings, old(history), at))
    {
      OpenIsDated(settings, history);
      if settings.failureThreshold >= 1 && Monotone(history + [Arrival(at)]) {
        RejectionFollowsHistory(settings, history, at);
      }
      admitted := true;
      if state == Open {
        if at - openedAt.value < settings.recoveryTimeout {
          admitted := false;
        } else {
          state := HalfOpen;
        }
      }
      history := history + [Arrival(at)];
      assert history[..|history| - 1] == old(history);
    }

    method Succeed()
      requires Valid()
      modifies this
      ensures Valid() && history == old(history) + [Success]
      ensures state == Closed && failures == 0
    {
      state, failures, openedAt := Closed, 0, None;
      history := history + [Success];
      assert history[..|history| - 1] == old(history);
    }

    method Fail(at: real)
      requires Valid()
      modifies this
      ensures Valid() && history == old(history) + [Failure(at)]
      ensures failures == old(failures) + 1
    {
      failures := failures + 1;
      if state == HalfOpen || failures >= settings.failureThreshold {
        state := Open;
        openedAt := Some(at);
      }
      history := history + [Failure(at)];
      assert history[..|history| - 1] == old(history);
    }
  }
}

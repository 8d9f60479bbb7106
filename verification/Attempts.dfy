/** The two retry loops around a provider call: the executor's, which works against a case budget, and
    the plain one of non-generation calls.  Timers are ideal: a call is cut off exactly at its limit,
    a sleep lasts exactly its delay, and nothing else takes time. */
module AttemptLoop {
  import opened Reals
  import opened Wrappers

  datatype ErrorClass =
    | RetryableTransient | RetryableRateLimit | NonRetryableRequest | NonRetryableAuth
    | ModelRefusal | ContentFilter | CircuitOpen

  predicate Retryable(c: ErrorClass) {
    c == RetryableTransient || c == RetryableRateLimit
  }

  /** How one call ends when nothing cuts it off; `retryAfter` is what the server asked for. */
  datatype Ending = Answered(text: string) | TimedOut | Failed(errorClass: ErrorClass, retryAfter: Option<real>)

  /** What the provider would do on one attempt, and the draw its backoff would make. */
  datatype Reply = Reply(duration: real, ending: Ending, draw: real)

  type World = nat -> Reply

  ghost predicate Realistic(world: World) {
    forall i: nat ::
      && world(i).duration >= 0.0
      && 0.0 <= world(i).draw <= 1.0
      && (world(i).ending.Failed? && world(i).ending.retryAfter.Some? ==> world(i).ending.retryAfter.value >= 0.0)
  }

  datatype Config = Config(maxRetries: int, requestTimeout: real, base: real, cap: real)

  // ------------------------------------------------------------------ timers and backoff

  function Observed(reply: Reply, limit: real): Ending {
    if reply.duration < limit then reply.ending else TimedOut
  }

  function Elapsed(reply: Reply, limit: real): real {
    Max(0.0, Min(reply.duration, limit))
  }

  function Doubled(base: real, times: nat): real {
    if times == 0 then base else 2.0 * Doubled(base, times - 1)
  }

  function Jitter(config: Config, attempt: nat, draw: real): real {
    Times(draw, Min(config.cap, Doubled(config.base, attempt)))
  }

  function Asked(ending: Ending): real {
    if ending.Failed? && ending.retryAfter.Some? then ending.retryAfter.value else 0.0
  }

  /** The backoff is a share of a window that starts at the base and doubles with every attempt up to the
      cap; the draw is that share. */
  lemma BackoffWindowDoubles(config: Config, attempt: nat, draw: real)
    requires config.base >= 0.0 && config.cap >= 0.0
    ensures Jitter(config, 0, 1.0) == Min(config.cap, config.base)
    ensures Jitter(config, attempt + 1, 1.0) == Min(config.cap, 2.0 * Jitter(config, attempt, 1.0))
    ensures Jitter(config, attempt, draw) == Times(draw, Jitter(config, attempt, 1.0))
  {
    DoubledNonNegative(config.base, attempt);
    assert Times(1.0, Min(config.cap, Doubled(config.base, attempt))) == Min(config.cap, Doubled(config.base, attempt));
  }

  lemma {:induction false} DoubledNonNegative(base: real, times: nat)
    requires base >= 0.0
    ensures Doubled(base, times) >= 0.0
  {
    if times > 0 { DoubledNonNegative(base, times - 1); }
  }

  /** The clamp applies when the caller works against a budget. */
  function RetryDelay(config: Config, attempt: nat, draw: real, asked: real, budget: Option<real>): real {
    var delay := Max(Jitter(config, attempt, draw), asked);
    match budget
    case None => delay
    case Some(remaining) => Min(delay, Max(0.0, remaining))
  }

  /** The delay never leaves the budget, waits as long as the backoff drew and the server asked unless the
      budget is shorter, and never longer than the larger of the two; without a
      budget nothing shortens it. */
  lemma DelayWithinBudget(config: Config, attempt: nat, draw: real, asked: real, budget: Option<real>)
    requires 0.0 <= draw <= 1.0 && asked >= 0.0
    ensures var delay := RetryDelay(config, attempt, draw, asked, budget);
            && 0.0 <= delay <= Max(asked, Max(0.0, config.cap))
            && delay <= Max(asked, Jitter(config, attempt, draw))
            && (budget.None? ==> delay >= asked && delay >= Jitter(config, attempt, draw))
            && (budget.Some? && budget.value >= 0.0 ==>
                  && delay <= budget.value
                  && delay >= Min(asked, budget.value)
                  && delay >= Min(Jitter(config, attempt, draw), budget.value))
            && (budget.Some? && budget.value < 0.0 ==> delay == 0.0)
  {
    var window := Min(config.cap, Doubled(config.base, attempt));
    if window >= 0.0 {
      TimesMonotone(window, draw, 1.0);
      TimesNegated(window, draw);
    } else {
      TimesMonotone(draw, window, 0.0);
    }
  }

  // ------------------------------------------------------------------ the executor's loop

  datatype Entry = Entry(attempt: int, at: real, ending: Ending)

  datatype Outcome = Outcome(
      log: seq<Entry>, response: Option<string>, harnessError: bool, harnessTimeout: bool, clock: real)

  datatype Next = Respond(text: string) | GiveUpError | GiveUpTimeout | Retry

  /** What follows an attempt that left `left` seconds of the budget. */
  function After(config: Config, attempt: nat, ending: Ending, left: real): Next {
    match ending
    case Answered(text) => Respond(text)
    case TimedOut => if attempt >= config.maxRetries || left <= 0.0 then GiveUpTimeout else Retry
    case Failed(c, _) =>
      if !Retryable(c) then GiveUpError
      else if left <= 0.0 then GiveUpTimeout
      else if attempt >= config.maxRetries then GiveUpError
      else Retry
  }

  /** One attempt: its log entry, the clock when it ended, what follows, and when the next one starts. */
  datatype Attempt = Attempt(entry: Entry, now: real, next: Next, resume: real)

  function Try(config: Config, reply: Reply, deadline: real, attempt: nat, clock: real): Attempt {
    var limit := Min(config.requestTimeout, deadline - clock);
    var ending := Observed(reply, limit);
    var now := clock + Elapsed(reply, limit);
    Attempt(Entry(attempt + 1, clock, ending), now, After(config, attempt, ending, deadline - now),
            now + RetryDelay(config, attempt, reply.draw, Asked(ending), Some(deadline - now)))
  }

  function Prepend(entry: Entry, o: Outcome): Outcome {
    o.(log := [entry] + o.log)
  }

  /** The run of the loop from one attempt on, at one reading of the clock. */
  function RunFrom(config: Config, world: World, deadline: real, attempt: nat, clock: real): Outcome
    decreases config.maxRetries + 1 - attempt
  {
    if attempt > config.maxRetries then Outcome([], None, false, false, clock)
    else if deadline - clock <= 0.0 then Outcome([], None, false, true, clock)
    else
      var t := Try(config, world(attempt), deadline, attempt, clock);
      match t.next
      case Respond(text) => Outcome([t.entry], Some(text), false, false, t.now)
      case GiveUpError => Outcome([t.entry], None, true, false, t.now)
      case GiveUpTimeout => Outcome([t.entry], None, false, true, t.now)
      case Retry => Prepend(t.entry, RunFrom(config, world, deadline, attempt + 1, t.resume))
  }

  /** `log` is what an earlier part of the run wrote, `rest` the run from there on. */
  ghost predicate Continues(whole: Outcome, log: seq<Entry>, rest: Outcome) {
    whole == rest.(log := log + rest.log)
  }

  lemma ContinuesPastRetry(whole: Outcome, log: seq<Entry>, entry: Entry, rest: Outcome)
    requires Continues(whole, log, Prepend(entry, rest))
    ensures Continues(whole, log + [entry], rest)
  {}

  method GenerateWithRetries(config: Config, world: World, start: real, deadline: real) returns (outcome: Outcome)
    ensures outcome == RunFrom(config, world, deadline, 0, start)
  {
    var clock, log, response, harnessError, harnessTimeout := start, [], None, false, false;
    ghost var whole := RunFrom(config, world, deadline, 0, start);
    assert Continues(whole, [], whole);
    var attempt := 0;
    while attempt <= config.maxRetries
      invariant attempt >= 0 && response == None && !harnessError && !harnessTimeout
      invariant Continues(whole, log, RunFrom(config, world, deadline, attempt, clock))
      decreases config.maxRetries + 1 - attempt
    {
      var remaining := deadline - clock;
      if remaining <= 0.0 {
        harnessTimeout := true;
        break;
      }
      ghost var t := Try(config, world(attempt), deadline, attempt, clock);
      ghost var logged := log;
      var limit := Min(config.requestTimeout, remaining);
      var ending, at := Observed(world(attempt), limit), clock;
      clock := clock + Elapsed(world(attempt), limit);
      log := log + [Entry(attempt + 1, at, ending)];
      remaining := deadline - clock;
      match ending {
        case Answered(text) =>
          response := Some(text);
          break;
        case TimedOut =>
          if attempt >= config.maxRetries || remaining <= 0.0 {
            harnessTimeout := true;
            break;
          }
        case Failed(c, _) =>
          if !Retryable(c) {
            harnessError := true;
            break;
          }
          if remaining <= 0.0 {
            harnessTimeout := true;
            break;
          }
          if attempt >= config.maxRetries {
            harnessError := true;
            break;
          }
      }
      clock := clock + RetryDelay(config, attempt, world(attempt).draw, Asked(ending), Some(remaining));
      ContinuesPastRetry(whole, logged, t.entry, RunFrom(config, world, deadline, attempt + 1, clock));
      attempt := attempt + 1;
    }
    outcome := Outcome(log, response, harnessError, harnessTimeout, clock);
  }

  // ------------------------------------------------------------------ what the loop promises

  function Verdicts(o: Outcome): nat {
    (if o.response.Some? then 1 else 0) + (if o.harnessError then 1 else 0) + (if o.harnessTimeout then 1 else 0)
  }

  lemma {:induction false} OneVerdictFrom(config: Config, world: World, deadline: real, attempt: nat, clock: real)
    ensures Verdicts(RunFrom(config, world, deadline, attempt, clock)) == if attempt <= config.maxRetries then 1 else 0
    decreases config.maxRetries + 1 - attempt
  {
    if attempt <= config.maxRetries {
      var t := Try(config, world(attempt), deadline, attempt, clock);
      if t.next.Retry? { OneVerdictFrom(config, world, deadline, attempt + 1, t.resume); }
    }
  }

  /** Exactly one of response, harness error and harness timeout comes out exactly when at least one
      attempt is configured; with a negative retry count none does. */
  lemma ExactlyOneVerdict(config: Config, world: World, start: real, deadline: real)
    ensures Verdicts(RunFrom(config, world, deadline, 0, start)) == 1 <==> config.maxRetries >= 0
  {
    OneVerdictFrom(config, world, deadline, 0, start);
  }

  /** What the attempt log of a run must look like, told from the log alone: one entry a call, numbered
      in order, within the attempts allowed; each call started before the deadline, the first at `clock`
      and each later one when the backoff after its predecessor was over; an entry shows the call's own
      ending exactly when the call took less than the request timeout and less than the time left, and
      else a timeout; every entry but the last is a timeout or a retryable error. */
  ghost predicate ExplainsCalls(
      config: Config, world: World, deadline: real, first: nat, clock: real, log: seq<Entry>) {
    && (log != [] ==> log[0].at == clock && first + |log| <= config.maxRetries + 1)
    && (forall i :: 0 <= i < |log| ==> ExplainsCall(config, world(first + i), deadline, first + i, log[i]))
    && (forall i :: 0 < i < |log| ==> Follows(config, world, deadline, first, log, i))
  }

  ghost predicate ExplainsCall(config: Config, reply: Reply, deadline: real, attempt: nat, entry: Entry) {
    && entry.attempt == attempt + 1
    && entry.at < deadline
    && entry.ending == (if WithinLimits(config, reply, deadline, entry.at) then reply.ending else TimedOut)
  }

  predicate WithinLimits(config: Config, reply: Reply, deadline: real, at: real) {
    reply.duration < config.requestTimeout && reply.duration < deadline - at
  }

  /** Entry `i` is a retry of the one before it. */
  ghost predicate Follows(config: Config, world: World, deadline: real, first: nat, log: seq<Entry>, i: nat)
    requires 0 < i < |log|
  {
    var before, reply := log[i - 1], world(first + i - 1);
    var cut := Max(0.0, Min(config.requestTimeout, deadline - before.at));
    var took := if WithinLimits(config, reply, deadline, before.at) then Max(0.0, reply.duration) else cut;
    var ended := before.at + took;
    var asked :=
      if before.ending.Failed? && before.ending.retryAfter.Some? then before.ending.retryAfter.value else 0.0;
    && WorthRetrying(before.ending)
    && log[i].at == ended + RetryDelay(config, first + i - 1, reply.draw, asked, Some(deadline - ended))
  }

  predicate WorthRetrying(e: Ending) {
    e.TimedOut? || (e.Failed? && e.errorClass in {RetryableTransient, RetryableRateLimit})
  }

  lemma ExplanationExtends(config: Config, world: World, deadline: real, first: nat, clock: real, rest: seq<Entry>)
    requires clock < deadline && first <= config.maxRetries
    requires var t := Try(config, world(first), deadline, first, clock);
             t.next.Retry? && ExplainsCalls(config, world, deadline, first + 1, t.resume, rest)
    ensures ExplainsCalls(config, world, deadline, first, clock,
                          [Try(config, world(first), deadline, first, clock).entry] + rest)
  {
    var log := [Try(config, world(first), deadline, first, clock).entry] + rest;
    forall i | 0 <= i < |log| ensures ExplainsCall(config, world(first + i), deadline, first + i, log[i]) {
      if i > 0 { assert ExplainsCall(config, world(first + 1 + (i - 1)), deadline, first + 1 + (i - 1), rest[i - 1]); }
    }
    forall i | 0 < i < |log| ensures Follows(config, world, deadline, first, log, i) {
      if i > 1 { assert Follows(config, world, deadline, first + 1, rest, i - 1); }
    }
  }

  lemma {:induction false} LogExplainsCalls(config: Config, world: World, deadline: real, attempt: nat, clock: real)
    ensures ExplainsCalls(config, world, deadline, attempt, clock, RunFrom(config, world, deadline, attempt, clock).log)
    decreases config.maxRetries + 1 - attempt
  {
    if attempt <= config.maxRetries && deadline - clock > 0.0 {
      var t := Try(config, world(attempt), deadline, attempt, clock);
      if t.next.Retry? {
        LogExplainsCalls(config, world, deadline, attempt + 1, t.resume);
        ExplanationExtends(config, world, deadline, attempt, clock,
                           RunFrom(config, world, deadline, attempt + 1, t.resume).log);
      }
    }
  }

  predicate FinalError(e: Ending) {
    e.Failed? && e.errorClass !in {RetryableTransient, RetryableRateLimit}
  }

  function Last(o: Outcome): Ending {
    if o.log == [] then TimedOut else o.log[|o.log| - 1].ending
  }

  /** What the verdict means in terms of the log and the clock. */
  ghost predicate ExplainsVerdict(config: Config, deadline: real, attempt: nat, o: Outcome) {
    var exhausted := o.log != [] && attempt + |o.log| == config.maxRetries + 1;
    && (o.response.Some? <==> Last(o).Answered?)
    && (o.response.Some? ==> Last(o).text == o.response.value)
    && (FinalError(Last(o)) ==> o.harnessError)
    && (o.harnessError ==> FinalError(Last(o)) || (Last(o).Failed? && exhausted && o.clock < deadline))
    && (o.harnessTimeout ==> o.clock >= deadline || (Last(o).TimedOut? && exhausted))
  }

  lemma VerdictExtends(config: Config, deadline: real, attempt: nat, entry: Entry, rest: Outcome)
    requires ExplainsVerdict(config, deadline, attempt + 1, rest) && WorthRetrying(entry.ending)
    requires rest.log == [] ==> rest.clock >= deadline
    ensures ExplainsVerdict(config, deadline, attempt, Prepend(entry, rest))
  {}

  lemma SomeCallMade(config: Config, world: World, deadline: real, attempt: nat, clock: real)
    requires attempt <= config.maxRetries
    ensures var o := RunFrom(config, world, deadline, attempt, clock); o.log == [] ==> o.clock >= deadline
  {}

  /** A response is the last call's answer; an error is final, or retryable with no attempt left and
      budget to spare; a timeout means the budget is spent or the last allowed call timed out.  So the
      loop never gives up early on something worth retrying. */
  lemma {:induction false} VerdictExplained(config: Config, world: World, deadline: real, attempt: nat, clock: real)
    requires attempt <= config.maxRetries
    ensures ExplainsVerdict(config, deadline, attempt, RunFrom(config, world, deadline, attempt, clock))
    decreases config.maxRetries + 1 - attempt
  {
    if deadline - clock > 0.0 {
      var t := Try(config, world(attempt), deadline, attempt, clock);
      if t.next.Retry? {
        VerdictExplained(config, world, deadline, attempt + 1, t.resume);
        SomeCallMade(config, world, deadline, attempt + 1, t.resume);
        VerdictExtends(config, deadline, attempt, t.entry, RunFrom(config, world, deadline, attempt + 1, t.resume));
      }
    }
  }

  /** A response is the answer of the last logged call, which took less than the request timeout and less
      than what was left of the budget when it started: an answer that comes later is never returned. */
  lemma AnswerWithinLimits(config: Config, world: World, start: real, deadline: real)
    requires config.maxRetries >= 0
    ensures var o := RunFrom(config, world, deadline, 0, start);
            o.response.Some? ==>
              && o.log != []
              && var entry, reply := o.log[|o.log| - 1], world(|o.log| - 1);
                 && reply.ending == Answered(o.response.value)
                 && reply.duration < config.requestTimeout && entry.at + reply.duration < deadline
  {
    var o := RunFrom(config, world, deadline, 0, start);
    LogExplainsCalls(config, world, deadline, 0, start);
    VerdictExplained(config, world, deadline, 0, start);
    if o.response.Some? {
      var last := |o.log| - 1;
      assert ExplainsCall(config, world(0 + last), deadline, 0 + last, o.log[last]);
    }
  }

  /** Calls and sleeps are clamped to the budget, so the clock never passes the case deadline. */
  lemma {:induction false} ClockWithinDeadline(config: Config, world: World, deadline: real, attempt: nat, clock: real)
    requires Realistic(world)
    ensures clock <= RunFrom(config, world, deadline, attempt, clock).clock <= Max(clock, deadline)
    decreases config.maxRetries + 1 - attempt
  {
    if attempt <= config.maxRetries && deadline - clock > 0.0 {
      var t := Try(config, world(attempt), deadline, attempt, clock);
      if t.next.Retry? { ClockWithinDeadline(config, world, deadline, attempt + 1, t.resume); }
    }
  }

  // ------------------------------------------------------------------ the plain loop

  datatype PolicyResult =
    | Returned(text: string, attempts: int)
    | RaisedTimeout(attempts: int)
    | RaisedError(errorClass: ErrorClass, attempts: int)
    | Unreachable

  function PolicyFrom(config: Config, world: World, attempt: nat): PolicyResult
    decreases config.maxRetries + 1 - attempt
  {
    if attempt > config.maxRetries then Unreachable
    else
      match Observed(world(attempt), config.requestTimeout)
      case Answered(text) => Returned(text, attempt + 1)
      case TimedOut => RaisedTimeout(attempt + 1)
      case Failed(c, _) =>
        if !Retryable(c) || attempt >= config.maxRetries then RaisedError(c, attempt + 1)
        else PolicyFrom(config, world, attempt + 1)
  }

  method CallWithPolicy(config: Config, world: World) returns (result: PolicyResult)
    ensures result == PolicyFrom(config, world, 0)
  {
    var attempt := 0;
    while attempt <= config.maxRetries
      invariant attempt >= 0 && PolicyFrom(config, world, attempt) == PolicyFrom(config, world, 0)
      decreases config.maxRetries + 1 - attempt
    {
      match Observed(world(attempt), config.requestTimeout) {
        case Answered(text) => return Returned(text, attempt + 1);
        case TimedOut => return RaisedTimeout(attempt + 1);
        case Failed(c, _) =>
          if !Retryable(c) || attempt >= config.maxRetries {
            return RaisedError(c, attempt + 1);
          }
      }
      attempt := attempt + 1;
    }
    return Unreachable;
  }

  /** What the plain loop's result says about the calls it made: the last of them is within the attempts
      allowed, an answer or an error came within the request timeout, a timeout is a call that did not end
      within it or ended in one, and every earlier call failed within it with a retryable error. */
  ghost predicate PolicyExplained(config: Config, world: World, attempt: nat, result: PolicyResult) {
    match result
    case Returned(text, n) =>
      && CallsBefore(config, world, attempt, n)
      && world(n - 1).duration < config.requestTimeout && world(n - 1).ending == Answered(text)
    case RaisedError(c, n) =>
      && CallsBefore(config, world, attempt, n)
      && world(n - 1).duration < config.requestTimeout
      && world(n - 1).ending.Failed? && world(n - 1).ending.errorClass == c
      && (FinalError(world(n - 1).ending) || n == config.maxRetries + 1)
    case RaisedTimeout(n) =>
      && CallsBefore(config, world, attempt, n)
      && (world(n - 1).duration >= config.requestTimeout || world(n - 1).ending.TimedOut?)
    case Unreachable => attempt > config.maxRetries
  }

  /** `n` attempts were made in all, and those before the last failed in time with a retryable error. */
  ghost predicate CallsBefore(config: Config, world: World, attempt: nat, n: int) {
    && attempt < n <= config.maxRetries + 1
    && forall i: nat :: attempt <= i < n - 1 ==>
         && world(i).duration < config.requestTimeout
         && world(i).ending.Failed? && WorthRetrying(world(i).ending)
  }

  lemma {:induction false} PolicyResultExplained(config: Config, world: World, attempt: nat)
    ensures PolicyExplained(config, world, attempt, PolicyFrom(config, world, attempt))
    decreases config.maxRetries + 1 - attempt
  {
    if attempt <= config.maxRetries {
      var ending := Observed(world(attempt), config.requestTimeout);
      if ending.Failed? && Retryable(ending.errorClass) && attempt < config.maxRetries {
        PolicyResultExplained(config, world, attempt + 1);
      }
    }
  }

  /** The state the source calls unreachable is reached exactly when no attempt is configured. */
  lemma {:induction false} UnreachableIff(config: Config, world: World, attempt: nat)
    ensures PolicyFrom(config, world, attempt).Unreachable? <==> attempt > config.maxRetries
    decreases config.maxRetries + 1 - attempt
  {
    if attempt < config.maxRetries { UnreachableIff(config, world, attempt + 1); }
  }

  /** The budget plays no part in a run: every call has its full timeout and time is left at the end. */
  ghost predicate BudgetNeverBinds(config: Config, deadline: real, o: Outcome) {
    && o.clock < deadline
    && forall i :: 0 <= i < |o.log| ==> o.log[i].at + config.requestTimeout <= deadline
  }

  /** `slack` covers every wait between attempts: the backoff cap and whatever a server asks for. */
  ghost predicate CoversWaits(config: Config, world: World, slack: real) {
    && slack >= Max(0.0, config.cap)
    && forall i: nat :: i <= config.maxRetries ==> Asked(world(i).ending) <= slack
  }

  function AttemptsLeft(config: Config, attempt: nat): nat {
    if attempt > config.maxRetries then 0 else config.maxRetries + 1 - attempt
  }

  /** Time for so many attempts, each with its full timeout and the longest wait. */
  function TimeFor(config: Config, slack: real, attempts: int): real {
    Times(attempts as real, Max(0.0, config.requestTimeout) + slack)
  }

  lemma TimeForOneMore(config: Config, slack: real, attempts: int)
    ensures TimeFor(config, slack, attempts) ==
            Max(0.0, config.requestTimeout) + slack + TimeFor(config, slack, attempts - 1)
  {
    var each := Max(0.0, config.requestTimeout) + slack;
    assert Times(attempts as real, each) == Times((attempts - 1) as real, each) + each;
  }

  lemma TimeForSome(config: Config, slack: real, attempts: int)
    requires attempts >= 0 && slack >= 0.0
    ensures TimeFor(config, slack, attempts) >= 0.0
  {
    TimesNonNegative(attempts as real, Max(0.0, config.requestTimeout) + slack);
  }

  lemma TryWithinTime(config: Config, reply: Reply, deadline: real, attempt: nat, clock: real, slack: real)
    requires 0.0 <= reply.draw <= 1.0 && 0.0 <= Asked(reply.ending) <= slack && slack >= Max(0.0, config.cap)
    requires clock < deadline
    ensures var t := Try(config, reply, deadline, attempt, clock);
            t.now <= clock + Max(0.0, config.requestTimeout) && t.resume <= t.now + slack
  {
    var t := Try(config, reply, deadline, attempt, clock);
    DelayWithinBudget(config, attempt, reply.draw, Asked(t.entry.ending), Some(deadline - t.now));
  }

  lemma EarlierBudget(config: Config, deadline: real, entry: Entry, rest: Outcome)
    requires BudgetNeverBinds(config, deadline, rest) && entry.at + config.requestTimeout <= deadline
    ensures BudgetNeverBinds(config, deadline, Prepend(entry, rest))
  {
    var log := Prepend(entry, rest).log;
    forall i | 0 <= i < |log| ensures log[i].at + config.requestTimeout <= deadline {
      if i > 0 { assert log[i] == rest.log[i - 1]; }
    }
  }

  /** A case budget with time for every allowed attempt never binds. */
  lemma {:induction false} AmpleBudgetNeverBinds(
      config: Config, world: World, deadline: real, attempt: nat, clock: real, slack: real)
    requires Realistic(world) && CoversWaits(config, world, slack)
    requires clock + TimeFor(config, slack, AttemptsLeft(config, attempt)) < deadline
    ensures BudgetNeverBinds(config, deadline, RunFrom(config, world, deadline, attempt, clock))
    decreases config.maxRetries + 1 - attempt
  {
    var left := AttemptsLeft(config, attempt);
    TimeForSome(config, slack, left);
    if attempt <= config.maxRetries {
      TimeForOneMore(config, slack, left);
      TimeForSome(config, slack, left - 1);
      var t := Try(config, world(attempt), deadline, attempt, clock);
      TryWithinTime(config, world(attempt), deadline, attempt, clock, slack);
      if t.next.Retry? {
        AmpleBudgetNeverBinds(config, world, deadline, attempt + 1, t.resume, slack);
        EarlierBudget(config, deadline, t.entry, RunFrom(config, world, deadline, attempt + 1, t.resume));
      }
    }
  }

  /** What an attempt shows when the budget does not cut it. */
  function Uncut(config: Config, world: World, attempt: nat): Ending {
    if world(attempt).duration < config.requestTimeout then world(attempt).ending else TimedOut
  }

  /** Some attempt before the last allowed one times out, and every one before it fails with an error
      worth retrying. */
  ghost predicate TimesOutEarly(config: Config, world: World, first: nat) {
    exists k: nat :: EarlyTimeoutAt(config, world, first, k)
  }

  ghost predicate EarlyTimeoutAt(config: Config, world: World, first: nat, k: nat) {
    && first <= k < config.maxRetries
    && Uncut(config, world, k).TimedOut?
    && forall j: nat :: first <= j < k ==> Uncut(config, world, j).Failed? && WorthRetrying(Uncut(config, world, j))
  }

  lemma {:induction false} PlainLoopTimesOutEarlyIff(config: Config, world: World, attempt: nat)
    ensures TimesOutEarly(config, world, attempt) <==>
            var policy := PolicyFrom(config, world, attempt);
            policy.RaisedTimeout? && policy.attempts <= config.maxRetries
    decreases config.maxRetries + 1 - attempt
  {
    if attempt <= config.maxRetries {
      var ending := Uncut(config, world, attempt);
      if ending.TimedOut? {
        if attempt < config.maxRetries { assert EarlyTimeoutAt(config, world, attempt, attempt); }
      } else if ending.Failed? && Retryable(ending.errorClass) && attempt < config.maxRetries {
        var next: nat := attempt + 1;
        PlainLoopTimesOutEarlyIff(config, world, next);
        assert PolicyFrom(config, world, attempt) == PolicyFrom(config, world, attempt + 1);
        if k: nat :| EarlyTimeoutAt(config, world, attempt, k) {
          assert EarlyTimeoutAt(config, world, next, k);
        }
        if k: nat :| EarlyTimeoutAt(config, world, next, k) {
          assert EarlyTimeoutAt(config, world, attempt, k);
        }
      } else {
        forall k: nat ensures !EarlyTimeoutAt(config, world, attempt, k) {
          assert k > attempt ==> attempt <= attempt < k;
        }
      }
    }
  }

  /** Same calls, same verdict. */
  ghost predicate SameRun(attempt: nat, policy: PolicyResult, o: Outcome) {
    match policy
    case Returned(text, n) => o.response == Some(text) && attempt + |o.log| == n
    case RaisedError(c, n) => o.harnessError && Last(o).Failed? && Last(o).errorClass == c && attempt + |o.log| == n
    case RaisedTimeout(n) => o.harnessTimeout && attempt + |o.log| == n
    case Unreachable => Verdicts(o) == 0
  }

  lemma SameRunExtends(attempt: nat, policy: PolicyResult, entry: Entry, rest: Outcome)
    requires SameRun(attempt + 1, policy, rest) && rest.log != []
    ensures SameRun(attempt, policy, Prepend(entry, rest))
  {
    assert Last(Prepend(entry, rest)) == Last(rest);
  }

  lemma LaterBudget(config: Config, deadline: real, entry: Entry, rest: Outcome)
    requires BudgetNeverBinds(config, deadline, Prepend(entry, rest))
    ensures BudgetNeverBinds(config, deadline, rest)
    ensures entry.at + config.requestTimeout <= deadline
  {
    var log := Prepend(entry, rest).log;
    assert log[0] == entry;
    forall i | 0 <= i < |rest.log| ensures rest.log[i].at + config.requestTimeout <= deadline {
      assert log[i + 1] == rest.log[i];
    }
  }

  /** With no budget in the way, the executor's loop makes the plain loop's calls to the same verdict,
      except that it goes on where the plain one gives up on an early timeout. */
  ghost predicate FollowsPlainLoop(config: Config, attempt: nat, policy: PolicyResult, o: Outcome) {
    if policy.RaisedTimeout? && policy.attempts <= config.maxRetries then attempt + |o.log| > policy.attempts
    else SameRun(attempt, policy, o)
  }

  lemma {:induction false} ExecutorFollowsPlainLoop(
      config: Config, world: World, deadline: real, attempt: nat, clock: real)
    requires BudgetNeverBinds(config, deadline, RunFrom(config, world, deadline, attempt, clock))
    ensures FollowsPlainLoop(config, attempt, PolicyFrom(config, world, attempt),
                             RunFrom(config, world, deadline, attempt, clock))
    decreases config.maxRetries + 1 - attempt
  {
    if attempt <= config.maxRetries && deadline - clock > 0.0 {
      var t := Try(config, world(attempt), deadline, attempt, clock);
      if t.next.Retry? {
        var rest := RunFrom(config, world, deadline, attempt + 1, t.resume);
        LaterBudget(config, deadline, t.entry, rest);
        SomeCallMade(config, world, deadline, attempt + 1, t.resume);
        if t.entry.ending.Failed? {
          ExecutorFollowsPlainLoop(config, world, deadline, attempt + 1, t.resume);
          var policy := PolicyFrom(config, world, attempt);
          if !(policy.RaisedTimeout? && policy.attempts <= config.maxRetries) {
            SameRunExtends(attempt, policy, t.entry, rest);
          }
        }
      } else {
        LaterBudget(config, deadline, t.entry, RunFrom(config, world, deadline, attempt, clock).(log := []));
      }
    }
  }

  /** The plain loop is documented as bounded like the executor's.  Given a case budget with time for every
      allowed attempt, the two make the same calls to the same verdict exactly when no attempt before the
      last allowed one times out after retryable failures only. */
  lemma LoopsAgreeIff(config: Config, world: World, start: real, deadline: real, slack: real)
    requires Realistic(world) && CoversWaits(config, world, slack)
    requires start + TimeFor(config, slack, AttemptsLeft(config, 0)) < deadline
    ensures SameRun(0, PolicyFrom(config, world, 0), RunFrom(config, world, deadline, 0, start)) <==>
            !TimesOutEarly(config, world, 0)
  {
    AmpleBudgetNeverBinds(config, world, deadline, 0, start, slack);
    ExecutorFollowsPlainLoop(config, world, deadline, 0, start);
    PlainLoopTimesOutEarlyIff(config, world, 0);
  }

  function HangThenAnswer(): World {
    (i: nat) => if i == 0 then Reply(2.0, Answered("late"), 0.0) else Reply(0.5, Answered("yes"), 0.0)
  }

  /** They differ where the first call would answer too late and the second answers in time. */
  lemma LoopsDiffer(config: Config)
    requires config == Config(1, 1.0, 0.0, 0.0)
    ensures PolicyFrom(config, HangThenAnswer(), 0) == RaisedTimeout(1)
    ensures RunFrom(config, HangThenAnswer(), 10.0, 0, 0.0).response == Some("yes")
  {
    var first := Try(config, HangThenAnswer()(0), 10.0, 0, 0.0);
    assert first.now == 1.0 && first.next.Retry?;
    assert Jitter(config, 0, 0.0) == 0.0 && first.resume == 1.0;
    assert Try(config, HangThenAnswer()(1), 10.0, 1, 1.0).next == Respond("yes");
  }
}

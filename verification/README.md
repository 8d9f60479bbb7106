# Verified model of evalanche

evalanche is an evaluation harness for language models: it plans the cases of a run, calls a provider
for each under retries, rate limits and a circuit breaker, stores one generation per case and repeat,
scores and aggregates them, and publishes a report. This project models the parts of it whose
behaviour is hard to see from one function, and proves what they promise.

`dafny verify dfyconfig.toml` checks everything.

## What is modelled

- **Execution and resume** (`WorkerPool.dfy`, `RunExecution.dfy`, `Resume.dfy`, `Shutdown.dfy`,
  `Sequential.dfy`, `Report.dfy`, `Repositories.dfy`). A producer feeds a bounded FIFO queue, workers drain it and leave at a
  sentinel. Every stretch between two awaits is one action of a transition system, so a statement about
  all action sequences is a statement about all interleavings, worker counts, shutdowns, deadlines and
  process deaths. The stored rows and the response cache are maps with the write semantics of their
  tables; the tables themselves are also given as classes updated in place and tied to those maps.
- **`bounded_map`** (`BoundedMap.dfy`) runs on the same pool and is compared with the sequential map.
- **Provider runtime** (`Runtime.dfy`, `ManagedCalls.dfy`, `Attempts.dfy`). Token bucket and circuit
  breaker are classes proved against functions of their history; the managed call composes both with
  the concurrency slots; the retry loops are imperative and take the provider's replies, the jitter
  draws and ideal timers as inputs.
- **Mathematics** (`Ndcg.dfy`, `RougeL.dfy`, `Statistics.dfy`, `Agreement.dfy`, `Pairwise.dfy`). Floats
  are reals; a square root is a non-negative witness; the log2 discount is any positive decreasing
  sequence.
- **Data plane** (`Rescore.dfy`, `Embeddings.dfy`, `Sampling.dfy`). Metrics, digests and the embedding
  provider are parameters.

`Sequences.dfy`, `Reals.dfy` and `Wrappers.dfy` hold shared definitions and lemmas.

## What the code does not do

Properties that turned out false of the code, or of its documentation, are stated with the condition
under which they hold:

- Resuming never repairs a recorded harness failure, because its key counts as completed
  (`Report.ResumeNeverRepairsFailures`, `Report.ResumedRunIsPublishableIff`, and
  `Report.OneFailureNeverPublishes` for an instance). The operator guide
  (`docs/guide.md` lines 1331 and 1343, `docs/operations.md` line 184) advises to fix the backend and
  resume after a coverage loss; that only helps for keys without a row.
- `docs/dataplane.md` lines 89-90 say that the run timeout drains and ends "failed" or "cancelled". The
  code cancels without a drain and records "cancelled", or "completed" when nothing remained
  (`Resume.StatusAfterPass`).
- The written rows of a completed run equal the planned count exactly when `repeats` is not negative or
  there are no cases (`Report.CompletedRunWroteItsPlan`, instance `Report.NegativeRepeatsNeverPublish`).
- The retry loop reaches exactly one verdict exactly when `max_retries >= 0`
  (`AttemptLoop.ExactlyOneVerdict`), and so for the state `_call_with_policy` calls unreachable
  (`AttemptLoop.UnreachableIff`).
- The plain retry loop is documented as bounded like the executor's. Given a case budget with time for
  every allowed attempt, the two make the same calls to the same verdict exactly when no attempt before
  the last allowed one times out after retryable failures only (`AttemptLoop.LoopsAgreeIff`);
  `AttemptLoop.LoopsDiffer` shows a first call that would answer too late.
- A call cut off by its caller's timeout reports nothing to the circuit breaker, so calls that only ever
  end this way never open it (`ManagedCalls.OnlyRaisedCallsOpenTheBreaker`,
  `ManagedCalls.RejectedIffProviderKeepsRaising`).
- A lone waiter of the token bucket is granted after one sleep exactly when the refill rate reaches the
  floor of its delay computation (`TokenBuckets.LoneWaiterGrantedIff`); more than the capacity is never
  granted (`TokenBuckets.OversizedNeverGranted`).
- The NDCG metric divides by zero exactly when judgements exist and none is positive
  (`Ndcg.NdcgInUnitInterval`); the average-precision metric beside it excludes such a case.
- Benjamini-Hochberg computes its order-free rule exactly when the level q is not negative or every
  p-value at or under q / m is also at or under q * n / m, n being the number of those p-values
  (`BenjaminiHochberg.FollowsRuleIff`). Otherwise the order of ties decides
  (`BenjaminiHochberg.NegativeLevelDependsOnTieOrder`). With p-values that are probabilities the
  condition always holds.
- Two slices share a key exactly when one dimension name runs on past an `=` into the other's value
  (`Slicing.KeysCollideIff`); a metric listed twice is counted twice in every group
  (`Rescoring.OverallGroupSize`, `Rescoring.SliceGroupSize`).

## Model

| member | source | states |
|---|---|---|
| WorkerPool.StepKeepsInv | src/evalharness/execution/executor.py:290-348 | every step of producer and workers keeps the queue a block of items followed by sentinels, within its bound, with each taken item held or finished |
| WorkerPool.ExactlyOnePlace | src/evalharness/execution/executor.py:290-348 | every planned item is unproduced, at one queue position, with one worker, or finished, and only one of these |
| WorkerPool.NoItemBehindSentinel | src/evalharness/execution/executor.py:293-299 | no item is ever queued behind a sentinel |
| WorkerPool.EndedMeansDrained | src/evalharness/execution/executor.py:301-348 | when all tasks have ended the queue is empty and exactly the produced items are finished; without a stop, all of them |
| WorkerPool.EachItemRunsOnce | src/evalharness/execution/executor.py:290-348 | on every run that ends without a stop, each planned item is handed to a worker by exactly one step, and is finished |
| WorkerPool.TakenAtMostOnce | src/evalharness/execution/executor.py:301-348 | on every run, stopped or not, no item is handed out twice |
| WorkerPool.SomeTaskCanMove | src/evalharness/execution/executor.py:290-348 | the pool never deadlocks on its bounded queue, with or without a stop |
| WorkerPool.MeasureDecreases | src/evalharness/execution/executor.py:290-348 | a non-negative measure drops on every step, so every run of the pool is finite |
| WorkerPool.QueueStaysShort | src/evalharness/execution/executor.py:290-299 | at most two entries per worker wait in the queue, and below that the producer can always put its item |
| WorkerPool.StoppedProducerPutsNoMore | src/evalharness/execution/executor.py:293-299 | on every run, after a stop the producer puts no further item but the one it is already putting |
| BoundedMap.ReportsOnlyTheSequentialVerdict | src/evalharness/providers/call_policy.py:160-202 | on every interleaving a call reports what the sequential map may report: the values in input order, or an operation's error; the completeness check fires only for an operation that returned None |
| BoundedMap.StuckRunsAreDone | src/evalharness/providers/call_policy.py:160-202 | a run that cannot go on has reported the sequential verdict |
| BoundedMap.NeverStuckWhileRunning | src/evalharness/providers/call_policy.py:170-202 | a running call can always move |
| BoundedMap.RunsAreBounded | src/evalharness/providers/call_policy.py:160-202 | every interleaving is finite |
| RunExecution.PlannedKeysExact | src/evalharness/execution/plan.py:29-36 | the planned keys are cases times repeats, each once |
| RunExecution.PlanExact | src/evalharness/execution/plan.py:29-36 | planning returns, each once, the planned keys without a row |
| RunExecution.NothingRemainsIff | src/evalharness/execution/plan.py:29-36 | nothing remains exactly when every planned key has a row |
| RunExecution.WrittenRows | src/evalharness/execution/case_runner.py:171-260 | a task writes at most one row, at the key of the item it holds, which had none; the row carries the reply the item came to and whether it was cached, or the failure it ended in |
| RunExecution.LaunchedPass | src/evalharness/execution/executor.py:207-208 | a pass starts with exactly the planned keys without a row, all unproduced, and max(1, concurrency) idle workers |
| RunExecution.FailureIsSavedOrLost | src/evalharness/execution/case_runner.py:92-114 | an item can fail at every stage after the look at the stop flag; the failure is saved as a harness-error row and nothing else, or leaves no row |
| RunExecution.StepKeepsInv | src/evalharness/execution/executor.py:200-348 | in every reachable state stored keys lie within cases times repeats, and a recorded "completed" means all are stored |
| Resume.HistoryKeepsInv | src/evalharness/execution/executor.py:200-348 | the same over any number of passes, shutdowns, deadlines and process deaths |
| Resume.StoredDataNeverChanges | src/evalharness/repositories/generations.py:77-91 | a row or cache entry once written never changes or disappears during execution |
| Resume.RemainingAfterPass | src/evalharness/execution/executor.py:226-235 | what a pass leaves is what it did not produce, skipped at shutdown, or could not record |
| Shutdown.RequestStopsAnyPass | src/evalharness/execution/executor.py:293-299 | a running pass can always be asked to stop; the request itself changes no row and no item's place |
| Shutdown.WaitingItemsAreNeverRun | src/evalharness/execution/case_runner.py:70-80 | an item unproduced, queued or not yet looked at when the stop is requested is at no later state of the pass looked up, called, deposited or saved, and has no row |
| Shutdown.RowsAfterStop | src/evalharness/execution/case_runner.py:70-80 | a stopped pass that runs out by itself leaves without a row exactly the items waiting or skipped at the request and those already lost; every other one has its row |
| Shutdown.StoppedPassLeavesTheWaiting | src/evalharness/execution/executor.py:226-235 | those are the keys planned again, and if an item was waiting the pass ends "cancelled" |
| Resume.UndisturbedPassCompletes | src/evalharness/execution/executor.py:226-235 | a pass without shutdown and unrecordable failures stores every key and records "completed" |
| Resume.StatusAfterPass | src/evalharness/execution/executor.py:226-280 | "completed" is recorded exactly when every key is stored; "failed" needs an unrecorded failure; a deadline never gives "failed" |
| Resume.FuelDecreases | src/evalharness/execution/executor.py:200-348 | every launched pass is finite |
| Resume.PassCanMove | src/evalharness/execution/executor.py:282-348 | a running pass can always move by itself, given a reply from the provider |
| Resume.UndisturbedHistoryCompletes | src/evalharness/execution/executor.py:200-348 | an execution that is not cut short can only end with every key stored and "completed" |
| Resume.ResumeIsConfluent | src/evalharness/execution/executor.py:200-348 | when what is recorded for an item is a function of its prompt, any passes, workers, interleavings and interruptions that end with nothing remaining leave the outputs of one sequential pass |
| Resume.CompleteHistoriesAgree | src/evalharness/execution/executor.py:200-348 | any two such histories from one start end with the same outputs |
| Resume.EveryCaseHasItsAnswer | src/evalharness/execution/executor.py:200-348 | under the same hypothesis, when nothing remains every repeat of every case has the reply to that case's own prompt, from the cache or not |
| Sequential.OneWorkerRunsInOrder | src/evalharness/execution/executor.py:200-348 | a pass asked for at most one worker that nothing interferes with ends in exactly the rows and cache of the sequential reference |
| Resume.RunInOrderStoresAll | src/evalharness/execution/case_runner.py:171-209 | the sequential reference stores every key with the answer to its prompt, cached or not |
| Report.CoverageInUnitInterval | src/evalharness/reporting/assemble.py:327-329 | coverage lies in [0, 1] in every reachable state |
| Report.CompletedRunWroteItsPlan | src/evalharness/reporting/assemble.py:375-379 | a completed run has written its planned count, so publishable is coverage at the floor, exactly when repeats is not negative or there are no cases |
| Report.NegativeRepeatsNeverPublish | src/evalharness/repositories/runs.py:70-79 | a completed run with a negative number of repeats is not publishable at any floor |
| Report.PublishableMeansNothingMissing | src/evalharness/reporting/assemble.py:375-379 | a publishable run has a row for every planned key |
| Report.CoverageCountsAnswers | src/evalharness/reporting/assemble.py:327-379 | coverage times cases times repeats is the number of generations with a response, errors and timeouts of the harness both excluded; so a run is publishable exactly when it completed and that number reaches the floor's share |
| Report.ResumeNeverRepairsFailures | src/evalharness/execution/plan.py:29-36 | later passes never lift coverage above the share of keys that had not failed yet |
| Report.OneFailureNeverPublishes | src/evalharness/execution/plan.py:29-36 | a run whose only generation failed in the harness is never publishable, whatever is resumed |
| Report.ResumedRunIsPublishableIff | src/evalharness/reporting/assemble.py:327-379 | a completed resumption without new failures is publishable exactly when the failures it started from leave room for the floor |
| Report.PlannedSetExact | src/evalharness/repositories/runs.py:70-79 | the set of planned keys and its size, against the planned generation count |
| Repositories.GenerationTable.SaveGeneration | src/evalharness/repositories/generations.py:30-91 | insert or ignore on (run, case, repeat), the stored row's id comes back, other runs are untouched |
| Repositories.GenerationTable.GetCompletedKeys | src/evalharness/repositories/generations.py:22-28 | the keys of one run's rows |
| Repositories.ResponseCacheTable.GetCache | src/evalharness/repositories/response_cache.py:19-30 | over any puts and deletes, a read gives the first response put since the key was last deleted, and nothing exactly when no put stands |
| Repositories.ReadsStandingPut | src/evalharness/repositories/response_cache.py:19-38 | the same as a law of the history of puts and deletes |
| Repositories.ResponseCacheTable.PutCache | src/evalharness/repositories/response_cache.py:23-30 | first writer wins |
| Repositories.ResponseCacheTable.DeleteCache | src/evalharness/repositories/response_cache.py:32-38 | removes exactly the named entries |
| Repositories.RunTable.UpdateRunStatus | src/evalharness/repositories/runs.py:59-64 | an unknown run is ignored, a terminal status stamps the run finished |
| TokenBuckets.TokensStayInRange | src/evalharness/providers/runtime.py:41-53 | over every run the bucket holds between nothing and its capacity |
| TokenBuckets.FullAtStart | src/evalharness/providers/runtime.py:34-52 | the first check of a run is granted exactly when it asks for no more than the capacity |
| TokenBuckets.WindowBound | src/evalharness/providers/runtime.py:41-53 | in every interval [s, t] the amounts granted total at most capacity + refill * (t - s) |
| TokenBuckets.OversizedNeverGranted | src/evalharness/providers/runtime.py:49-53 | an amount above the capacity is never granted |
| TokenBuckets.LoneWaiterGrantedIff | src/evalharness/providers/runtime.py:49-53 | a lone waiter is granted on its next check exactly when the refill rate is not below 1e-9 |
| TokenBuckets.TokenBucket.TryAcquire | src/evalharness/providers/runtime.py:44-52 | the locked stretch of acquire refills, takes the amount or computes the delay |
| TokenBuckets.TokenBucket.AcquireAlone | src/evalharness/providers/runtime.py:41-53 | acquire without competitors returns after at most one sleep, exactly as long as the deficit takes to refill |
| CircuitBreakers.BreakerFollowsHistory | src/evalharness/providers/runtime.py:56-109 | failures is the trailing failure run of completions; CLOSED and an unset opened_at each mean it is below the threshold; else opened_at is the last failure's time |
| CircuitBreakers.RejectionFollowsHistory | src/evalharness/providers/runtime.py:64-81 | a call is rejected exactly when the trailing run reaches the threshold and the last failure is more recent than the recovery timeout |
| CircuitBreakers.ThresholdMustBePositive | src/evalharness/providers/runtime.py:57-62 | the reading holds of a fresh breaker exactly for thresholds of at least one |
| CircuitBreakers.CircuitBreaker.BeforeCall | src/evalharness/providers/runtime.py:64-81 | admits or rejects as the history says |
| CircuitBreakers.CircuitBreaker.Succeed | src/evalharness/providers/runtime.py:83-94 | resets the breaker |
| CircuitBreakers.CircuitBreaker.Fail | src/evalharness/providers/runtime.py:96-109 | counts the failure and opens at the threshold or from half-open |
| ManagedCalls.StepKeepsInv | src/evalharness/providers/runtime.py:146-178 | on every interleaving a call pays its request, then its tokens, then reaches the provider; charges equal what the buckets granted; at most `concurrency` calls are with the provider |
| ManagedCalls.ProviderLoadIsBounded | src/evalharness/providers/runtime.py:123-178 | calls that reached the provider, and their estimated tokens, stay within the configured rates over every run |
| ManagedCalls.WindowLoadIsBounded | src/evalharness/providers/runtime.py:123-178 | between any two moments the calls that reach the provider, and their tokens, are at most those already past the limiter and waiting plus what the limit grants in between |
| ManagedCalls.RejectedCallsCostNothing | src/evalharness/providers/runtime.py:146-149 | a rejected call draws on neither bucket, and in every later state it has ended, was charged nothing and never reached the provider |
| ManagedCalls.RejectedIffProviderKeepsRaising | src/evalharness/providers/runtime.py:64-170 | over every run, told from its actions: a call is rejected exactly when the inner calls that raised since the last answer, cancelled ones not counting, number at least the threshold and the last of them is more recent than the recovery timeout |
| ManagedCalls.OnlyRaisedCallsOpenTheBreaker | src/evalharness/providers/runtime.py:158-170 | over every run the breaker is closed exactly while fewer than the threshold of inner calls have raised since the last answer; cancelled calls report nothing |
| ManagedCalls.EndingFreesTheSlot | src/evalharness/providers/runtime.py:158-170 | an answer, an exception and a cancellation each free the slot of a call with the provider |
| ManagedCalls.AdmittedCallCanMove | src/evalharness/providers/runtime.py:146-170 | an admitted call can always go one stage further, at some time, while refills go on, the limits could hold what it asks for, and a slot is free when that is what it waits for |
| AttemptLoop.GenerateWithRetries | src/evalharness/execution/attempts.py:89-209 | the retry loop computes the run that the lemmas below speak of |
| AttemptLoop.ExactlyOneVerdict | src/evalharness/execution/attempts.py:104-209 | exactly one of response, harness error, harness timeout comes out exactly when max_retries is not negative |
| AttemptLoop.LogExplainsCalls | src/evalharness/execution/attempts.py:110-200 | one log entry a call, numbered from 1 up to at most max_retries + 1, each started before the deadline and when the backoff after its predecessor was over; an entry shows the call's own ending exactly when it took less than the request timeout and less than the time left, and else a timeout; only the last can be a success or a final error |
| AttemptLoop.VerdictExplained | src/evalharness/execution/attempts.py:110-200 | a response is the last call's answer; a timeout means the budget is spent or the last allowed call timed out; nothing worth retrying is given up early |
| AttemptLoop.AnswerWithinLimits | src/evalharness/execution/attempts.py:110-145 | a response is the answer of the last call, which took less than the request timeout and ended before the deadline |
| AttemptLoop.ClockWithinDeadline | src/evalharness/execution/attempts.py:110-200 | with ideal timers the clock never passes the case deadline |
| AttemptLoop.DelayWithinBudget | src/evalharness/providers/retry.py:45-61 | with a budget the backoff stays in it and waits as long as drawn and as Retry-After (section 10.2.3 of RFC 9110) asks unless the budget is shorter; without one nothing shortens it; never longer than needed |
| AttemptLoop.BackoffWindowDoubles | src/evalharness/providers/retry.py:32-42 | the jitter is the drawn share of a window that starts at the base and doubles with every attempt up to the cap |
| AttemptLoop.CallWithPolicy | src/evalharness/providers/call_policy.py:47-120 | the plain retry loop computes the run that the next rows explain and compare |
| AttemptLoop.PolicyResultExplained | src/evalharness/providers/call_policy.py:58-120 | an answer or an error came within the request timeout, a timeout is a call that did not end within it or ended in one, and every earlier call failed within it with a retryable error |
| AttemptLoop.UnreachableIff | src/evalharness/providers/call_policy.py:58-120 | the error after the loop is raised exactly when no attempt is configured |
| AttemptLoop.AmpleBudgetNeverBinds | src/evalharness/execution/attempts.py:110-200 | a budget with time for every allowed attempt, its timeout and its longest wait never cuts a call short |
| AttemptLoop.LoopsAgreeIff | src/evalharness/providers/call_policy.py:58-120 | with such a budget both loops make the same calls to the same verdict exactly when no attempt before the last allowed one times out after retryable failures only |
| AttemptLoop.LoopsDiffer | src/evalharness/providers/call_policy.py:67-78 | a first call that would answer too late: the plain loop raises, the executor goes on to the second call's answer |
| Ndcg.NdcgInUnitInterval | src/evalharness/scoring/metrics/retrieval/ndcg.py:36-61 | the metric has a value exactly when some grade is positive; NDCG@10 then lies in [0, 1] |
| Ndcg.IdealDcgIsLargest | src/evalharness/scoring/metrics/retrieval/ndcg.py:36-61 | rearrangement over the top ten: no duplicate-free ranking has a larger DCG than an ideal order |
| Ndcg.NoDistinctDocsGainMore | src/evalharness/scoring/metrics/retrieval/ranking.py:14-29 | no j distinct documents gain more than the j best |
| Ndcg.DescendingRankingScoresOne | src/evalharness/scoring/metrics/retrieval/ndcg.py:36-61 | any gain-descending ranking of the relevant documents scores 1, whatever follows |
| Ndcg.OneExactlyForIdealGains | src/evalharness/scoring/metrics/retrieval/ndcg.py:36-61 | with a strict discount NDCG is 1 exactly when the top ten gains are the ideal ones, position by position |
| Ndcg.CutoffFiguresBounded | src/evalharness/scoring/metrics/retrieval/average_precision.py:24-41 | precision, recall and average precision lie in [0, 1], recall never exceeds the recall ceiling |
| Ndcg.PerfectFiguresIff | src/evalharness/scoring/metrics/retrieval/ndcg.py:41-55 | precision is 1 exactly when relevant documents fill the cutoff, recall exactly when all are within it, average precision exactly when they are the top of the ranking |
| Ndcg.HitsCountDocuments | src/evalharness/scoring/metrics/retrieval/ranking.py:14-29 | hits count distinct relevant documents |
| Ndcg.GainDoubles | src/evalharness/scoring/metrics/retrieval/ndcg.py:53-58 | one grade more gains twice as much and one, and a document without a positive grade gains nothing |
| Ndcg.EachRankAdds | src/evalharness/scoring/metrics/retrieval/ndcg.py:53-56 | each of the first ten ranks adds its discount times its gain to the DCG, and no later rank adds anything |
| Ndcg.ExchangedPairScore | src/evalharness/scoring/metrics/retrieval/ndcg.py:53-61 | two documents of grades 3 and 1 score 1 in this order and (d0 + 7 d1) / (7 d0 + d1) exchanged |
| Ndcg.RankingKeepsFirstMention | src/evalharness/scoring/metrics/retrieval/ranking.py:14-24 | the ranking holds each named document once, in the order of first mention |
| Ndcg.CutoffFiguresCount | src/evalharness/scoring/metrics/retrieval/ndcg.py:39-43 | precision times the cutoff, and recall times the number of relevant documents, is the number of relevant ones among the first |
| Ndcg.CeilingReachedIff | src/evalharness/scoring/metrics/retrieval/ndcg.py:60-60 | recall over the whole ranking reaches the published ceiling exactly when all that is ranked is relevant or all that is relevant is ranked |
| Ndcg.AveragePrecisionByRanks | src/evalharness/scoring/metrics/retrieval/ndcg.py:47-52 | the j-th relevant document, at rank r, adds j / r, and the sum is divided by the number of relevant documents |
| RougeL.LcsLength | src/evalharness/scoring/metrics/overlap/rouge_l.py:68-77 | the two-row loop returns the length of a longest common subsequence |
| RougeL.LcsIsLongest | src/evalharness/scoring/metrics/overlap/rouge_l.py:68-77 | a common subsequence of that length exists and none is longer |
| RougeL.LcsIsSymmetric | src/evalharness/scoring/metrics/overlap/rouge_l.py:68-77 | prediction and reference can be exchanged |
| RougeL.FMeasureAsDice | src/evalharness/scoring/metrics/overlap/rouge_l.py:61-66 | F is twice the overlap over the total length |
| RougeL.RougeLInUnitInterval | src/evalharness/scoring/metrics/overlap/rouge_l.py:61-77 | precision, recall and F lie in [0, 1]; F is 1 exactly for identical non-empty texts |
| RougeL.PerfectFiguresIff | src/evalharness/scoring/metrics/overlap/rouge_l.py:61-77 | precision is 1 exactly when the prediction is a subsequence of the reference, recall the other way round |
| RougeL.ZeroFiguresIff | src/evalharness/scoring/metrics/overlap/rouge_l.py:61-77 | precision, recall and F are each 0 exactly when the texts have no token in common |
| BenjaminiHochberg.Run | src/evalharness/statistics/core.py:86-96 | rejected are the ranks up to the last one that passes; in the sensible case hypothesis i is rejected exactly when some k has p_i and at least k p-values at most q * k / m |
| BenjaminiHochberg.FollowsRuleIff | src/evalharness/statistics/core.py:86-96 | for any order of ties the procedure computes that rule exactly when the level is not negative or the p-values under the first threshold are under the one their number selects |
| BenjaminiHochberg.CountsByRank | src/evalharness/statistics/core.py:86-96 | at least r p-values are at most t exactly when the r-th smallest is |
| BenjaminiHochberg.RejectedIff | src/evalharness/statistics/core.py:86-96 | the rule without a division: some k has m p_i <= k q and at least k p-values with m p <= k q |
| BenjaminiHochberg.LevelEnds | src/evalharness/statistics/core.py:86-96 | at a level q that is not negative, p_i at most q / m is rejected, p_i above q is not, and all are rejected when none exceeds q |
| BenjaminiHochberg.RejectionsGrow | src/evalharness/statistics/core.py:86-96 | raising q or lowering p-values loses no rejection |
| BenjaminiHochberg.CommutesWithPermutation | src/evalharness/statistics/core.py:86-96 | reordering the hypotheses reorders the verdicts, ties included |
| BenjaminiHochberg.NegativeLevelDependsOnTieOrder | src/evalharness/statistics/core.py:86-96 | outside that case both verdicts on two equal p-values are outcomes of the procedure, by the order of the tie, and the rule rejects both |
| Wilson.InvertsTheScoreTest | src/evalharness/statistics/core.py:13-21 | the unclamped interval holds exactly the proportions the score test accepts |
| Wilson.ClampsAreNoOps | src/evalharness/statistics/core.py:13-21 | 0 <= low <= s/n <= high <= 1 before clamping |
| Wilson.Mirrors | src/evalharness/statistics/core.py:13-21 | exchanging successes and failures mirrors the interval about one half |
| Wilson.EndpointsAreMonotone | src/evalharness/statistics/core.py:13-21 | more successes lower neither endpoint |
| OrdinalAgreement.ObservedAtMostTwiceExpected | src/evalharness/judge/agreement.py:45-57 | observed disagreement is at most twice the expected one |
| OrdinalAgreement.ExpectedPositive | src/evalharness/judge/agreement.py:52-57 | two distinct values make the expected disagreement positive, so the guard is dead |
| OrdinalAgreement.AlphaInRange | src/evalharness/judge/agreement.py:45-57 | alpha is defined exactly when two values differ, lies in [-1, 1], and is 1 exactly when all pairs agree |
| OrdinalAgreement.AlphaFormula | src/evalharness/judge/agreement.py:45-57 | the value in closed form from the sums, sums of squares and products of the two raters' ratings |
| OrdinalAgreement.SingleDisagreement | src/evalharness/judge/agreement.py:45-57 | the lower bound -1 is reached |
| NominalAgreement.ExpectedCountsUnequalPairs | src/evalharness/judge/agreement.py:29-42 | expected disagreement is the share of unequal ordered pairs of labels |
| NominalAgreement.ObservedAtMostTwiceExpected | src/evalharness/judge/agreement.py:29-42 | observed disagreement is at most twice the expected one |
| NominalAgreement.ExpectedPositive | src/evalharness/judge/agreement.py:36-42 | two labels make the expected disagreement positive, so the guard is dead |
| NominalAgreement.AlphaInRange | src/evalharness/judge/agreement.py:29-42 | alpha is defined exactly when two labels occur, lies in [-1, 1], and is 1 exactly when all pairs agree |
| NominalAgreement.AlphaFormula | src/evalharness/judge/agreement.py:29-42 | the value in closed form from the sizes of the categories and the number of pairs that disagree |
| NominalAgreement.SingleDisagreement | src/evalharness/judge/agreement.py:29-42 | the lower bound -1 is reached |
| Components.ConnectedComponents | src/evalharness/judge/pairwise.py:71-90 | the search ends and returns the classes of undirected reachability, whatever start nodes are picked |
| Components.Search | src/evalharness/judge/pairwise.py:79-88 | one round finds exactly what the start node reaches |
| Components.BuildAdjacency | src/evalharness/judge/pairwise.py:72-75 | the adjacency of the undirected graph |
| Components.SizesSumToNodes | src/evalharness/judge/pairwise.py:124-125 | component sizes sum to the number of nodes |
| Components.IsolatedIffSingleton | src/evalharness/judge/pairwise.py:126 | isolated models are the singleton components |
| Components.OneComponentHasNoIsolated | src/evalharness/judge/pairwise.py:127-129 | the degree conjunct is implied by the other two |
| PairwiseGraph.ItemVerdict | src/evalharness/judge/pairwise.py:16-68 | an item is decisive exactly when both presentations prefer the same original; exchanging A and B exchanges the verdict |
| PairwiseGraph.BuiltIff | src/evalharness/judge/pairwise.py:42-45 | an item is built exactly from one ordering of each swap position |
| PairwiseGraph.GraphExact | src/evalharness/judge/pairwise.py:102-116 | the models are those of all items, ties included; an edge is a pair that some item decides, once however often it is decided |
| PairwiseGraph.Tally | src/evalharness/judge/pairwise.py:104-116 | the counting loop yields each model's wins and matches |
| PairwiseGraph.TalliesConserve | src/evalharness/judge/pairwise.py:108-116 | wins total the decisive items, matches twice that |
| PairwiseGraph.TalliesCountItems | src/evalharness/judge/pairwise.py:108-116 | a model wins the items that prefer it and plays the decisive items it is part of |
| PairwiseGraph.Degrees | src/evalharness/judge/pairwise.py:118-123 | a model's degree is the number of unique edges touching it |
| PairwiseGraph.AcceptedIff | src/evalharness/judge/pairwise.py:124-129 | the connectivity gate accepts exactly the graphs with at least two models, all reaching each other, and there every model has played |
| PairwiseGraph.Summarise | src/evalharness/judge/pairwise.py:93-144 | refuses exactly the unconnected graphs; sizes are those of the classes, largest first; on an accepted graph the zero win rate is dead and every rate is a share in [0, 1] |
| Slicing.OverallIsNoSlice | src/evalharness/domain/constants.py:5-7 | the key of the whole population is no slice's key |
| Slicing.KeysCollideIff | src/evalharness/scoring/engine.py:35-36 | two slices share a key exactly when one dimension runs on past an `=` into the other's value |
| Slicing.SlicesCanCollide | src/evalharness/scoring/engine.py:35-36 | an instance of such a collision |
| Slicing.RollupDimensions | src/evalharness/scoring/engine.py:54-69 | a dimension is kept exactly when some case carries it and its distinct values are within the limit |
| Slicing.KeyMultiplicity | src/evalharness/scoring/engine.py:135-139 | every case lists the population and each kept slice it carries once, and nothing else |
| Rescoring.ScoreGeneration | src/evalharness/scoring/engine.py:81-93 | the loop over the metrics yields their scores in order, or refuses at the first unknown metric or unsuited case |
| Rescoring.ScoredIff | src/evalharness/scoring/engine.py:81-93 | a generation is scored exactly when every listed metric is registered and accepts its case, and its scores are those of the metrics as listed, one after another |
| Rescoring.GroupsAreSlices | src/evalharness/scoring/engine.py:131-167 | each group is the scores of the generations whose case carries the slice, in generation order |
| Rescoring.GroupsPartition | src/evalharness/scoring/engine.py:131-167 | the groups of a kept dimension carried by every case partition the overall group |
| Rescoring.OverallGroupSize | src/evalharness/scoring/engine.py:88-93 | every generation counts once for each time the metric is listed |
| Rescoring.SliceGroupSize | src/evalharness/scoring/engine.py:88-93 | the same for the carriers of every kept slice |
| Rescoring.ScoringStore.RescoreRun | src/evalharness/scoring/engine.py:95-210 | for every batch size, a stored score stays, a new row holds the first score of its identity with every field, and no other row enters; every group's aggregate overwrites its row; on an error nothing is written |
| Rescoring.RescoreIsIdempotent | src/evalharness/scoring/engine.py:95-210 | a second rescore leaves scores and aggregates as they are |
| Rescoring.SaveAllStores | src/evalharness/repositories/scores.py:21-57 | a stored score is never rewritten, and every score of every generation has a row |
| Rescoring.SaveAllKeepsFirst | src/evalharness/repositories/scores.py:21-57 | a row that was not there holds the first score of its identity, in generation order and then as listed, every field included; no identity without a score enters |
| Rescoring.SavedCount | src/evalharness/scoring/engine.py:128-167 | with metrics that give one score each, the reported count is generations times listed metrics, stored before or not |
| Rescoring.WriteAggregates | src/evalharness/repositories/metric_aggregates.py:20-64 | the rows of the groups are overwritten, all others stay |
| Embeddings.EmbeddingService.Embed | src/evalharness/scoring/embeddings.py:28-48 | sends the missing texts once each in full batches, caches their unit vectors, returns them in input order; it raises exactly for a call that raised, a wrong number of vectors, or the first vector of wrong dimension or no length, and keeps what it stored before that |
| Embeddings.CallKeepsCache | src/evalharness/scoring/embeddings.py:28-48 | a call keeps the cache correct, sends nothing cached and no batch above the batch size |
| Embeddings.SentOnce | src/evalharness/scoring/embeddings.py:28-37 | a call sends each text at most once and only if asked for and not cached; a call that succeeds has sent all of those |
| Embeddings.MissingInOrder | src/evalharness/scoring/embeddings.py:29-35 | texts are sent in the order of their first occurrence |
| Embeddings.CachedTextsAreNeverResent | src/evalharness/scoring/embeddings.py:28-48 | over any calls made one after another, with any faults, a cached text is never sent again |
| Embeddings.EntriesHaveLengthOne | src/evalharness/scoring/embeddings.py:40-47 | over any calls made one after another, with any faults, every entry has the provider's dimension, length one and the direction of its text's vector |
| Sampling.Sample | packages/evaldatasets/src/evaldatasets/materialize.py:231-252 | the records with the smallest digests, exactly `size` of them, strictly ascending by id; the error cases exactly |
| Sampling.SelectedComeFirst | packages/evaldatasets/src/evaldatasets/materialize.py:246-252 | no record left out has a smaller digest than a selected one, nor an equal digest and a smaller id |
| Sampling.LexLeMeans | packages/evaldatasets/src/evaldatasets/materialize.py:251-252 | the text order of digests and ids: a prefix, or smaller at the first difference |
| Sampling.SelectCases | packages/evaldatasets/src/evaldatasets/materialize.py:215-228 | records outside the bounds are dropped first; the sampler's own size check cannot fail after that |
| Sampling.FilterExact | packages/evaldatasets/src/evaldatasets/materialize.py:222-222 | the filter keeps each record that fits as often as it occurs, and no other |
| Sampling.SampleIgnoresOrder | packages/evaldatasets/src/evaldatasets/materialize.py:231-252 | any reordering of the source gives the same sample |
| Sampling.SamplesNest | packages/evaldatasets/src/evaldatasets/materialize.py:231-252 | a smaller sample is contained in a larger one |
| Sampling.RemovingUnselectedChangesNothing | packages/evaldatasets/src/evaldatasets/materialize.py:231-252 | removing unselected records changes nothing |

## Left out

- HTTP adapters, provider registry, command line, settings, logging, tracing and progress display, with the counters that feed it: wiring without a property of its own.
- SQL, sessions and migrations: a table is a map, a committed scope one atomic step, a failed one no step.
- Report rendering, gates, suites, matrix and the loaders: single-branch validation and text.
- Floating-point rounding: arithmetic is over the reals.
- Prompt rendering, canonical JSON and SHA-256: the prompt is the case's text and a digest is an abstract function, injective where the code needs it (`Embeddings`) and arbitrary where it does not (`Sampling`).
- BCa bootstrap, McNemar, effect sizes, sample sizes, Spearman, Cohen's kappa and the metrics that call external scorers: library numerics.
- Two executors on one run at the same time: the repository forbids it; passes follow one another.
- Entries removed from the response cache while a run executes: no pass calls that operation.
- Task cancellation inside `asyncio`: the run deadline and an expired drain are one action that may come at any time and drops all work in flight.
- Worker tasks that end with an exception: `worker` catches every `Exception`, so the flag `worker_failures` is constantly false in the model.
- Attempt logs, token counts and latencies of a stored row: the model keeps its reply and its cached flag.
- RunExecution.WrittenRows: an answered row carries its reply; classifying that reply as passed, refused or truncated is a function of it and not modelled.
- Resume.ResumeIsConfluent: compares outputs only, because the cached flag of a row does depend on the interleaving. A provider or a failure that differs from one attempt at a prompt to the next is outside the hypothesis.
- AttemptLoop.GenerateWithRetries: timers are ideal; a real event loop can wake late.
- PairwiseGraph.Summarise: gives the isolated models as a set, where the code lists them by name.
- Rescoring.ScoringStore.RescoreRun: metrics are total functions once they accept a case; one that raises while scoring is the same as one that refuses.
- Embeddings.CachedTextsAreNeverResent: two `embed` calls that overlap at the await on the provider can both find a text missing and both send it; calls are taken one after another.
- Embeddings.EmbeddingService.Embed: a provider that returns different vectors for one text in two calls is outside the hypothesis that it stands for one vector a text.
- Hit rate and reciprocal rank of a ranking: read off its first relevant rank.
- The managed provider's `embed`: the same steps with another estimate.

# kube-depod: a verified model of the operator's reconcile loops and rate limiter

kube-depod removes annotated Pods according to DepodPolicy resources. This project models its two
reconcile functions, the status protocol they run with the API server, and the token-bucket rate limiter
they share, and proves what those parts guarantee together.

| file | models |
|---|---|
| `RateLimiting.dfy`, `RateLimitBounds.dfy`, `PolicyGenerations.dfy` | the token bucket and the limiter, in place and as values; how much they can grant, also when limits change |
| `ConcurrentBucket.dfy`, `RacyRefills.dfy`, `PolicyMapRace.dfy`, `PolicyMapBudget.dfy` | the same bucket and the policy map under any interleaving of threads |
| `Pods.dfy`, `Crd.dfy`, `Matching.dfy`, `Ttl.dfy` | the data, spec validation, matching and guardrails, TTL arithmetic |
| `Cel.dfy` | the CEL evaluator as a memo table, alone and shared by threads |
| `Entitlement.dfy` | what a removal requires, a second time and with the fields of pod and policy alone; every decision of the loop against it |
| `PodReconcile.dfy`, `PodProperties.dfy`, `TtlWakeups.dfy`, `SharpWakeups.dfy` | `reconcile_pod` as a recursive function, its guarantees, its own wake-ups |
| `PolicyReconcile.dfy`, `MergePatch.dfy`, `StatusUpdater.dfy`, `PolicyProtocol.dfy`, `ProtocolBounds.dfy` | `reconcile_policy`, the status it writes, and the loop of its own watch events and requeues |
| `Operator.dfy`, `OperatorRuns.dfy` | the context object with both reconcile methods; whole runs with any number of interleaved tasks |
| `RemovalBudgets.dfy`, `CacheRuns.dfy` | how many requests a run sends; what the policy cache holds in the course of a run |
| `ParallelRuns.dfy`, `ParallelAgrees.dfy`, `SharpParallelRuns.dfy` | whole runs on several worker threads whose calls to the global limiter overlap |
| `Basics.dfy`, `Wrappers.dfy` | shared facts and the Option and Result types |

Code that changes state is a class whose methods are proved equal to functions on values
(`RateLimiter`, `CelEvaluator`, `StatusRecord`, `Context`); the theorems are about those functions and
about transition systems built from them. Clock readings, API responses, list failures, the reflector's
store and the CEL library's `compile` and `execute` are arguments, so every statement holds for all of
them. `TimeDelta::num_seconds` truncates toward zero while Dafny's division is Euclidean, so truncation is
written out in `Ttl.NumSeconds`. JSON Merge Patch follows section 2 of RFC 7396.

## Where the code and its texts differ

The model follows the code. These promises of comments, log texts or the repository's README do not hold
as written; each comes with what does hold.

- "deletes per minute": sixty seconds can see twice the configured number (`AnySpanBound`, reached by
  `AnySpanBoundIsSharp`; for the requests of a run on one thread `RemovalsInAnySpan`), and with overlapping
  calls once more per thread and window (`ConcurrentBudget`, `ConcurrentBudgetIsSharp`; for the requests of
  a run on several threads `ParallelRemovalBudget`, `ParallelRemovalBudgetIsSharp`).
- "max pods to delete per minute for this policy" (src/crd.rs:133): the bucket is keyed by name and a changed
  limit installs a full one, so a policy that is edited back and forth, or two policies of one name, with two
  positive limits have no bound at all, exactly if the limits differ (`UnlimitedExactlyIfLimitsDiffer`). What
  holds is a budget for each generation of the bucket (`GenerationBudgets`, `GenerationRemovalBudget`).
  Racing threads can each insert a bucket of their own (`NameBudget`, `NameBudgetIsSharp`), which costs no
  more than that over time (`NameBudgetOverTime`).
- "Cache will not include this policy" (src/controller.rs:543, 574): the cache is the valid part of the store
  at the last accepted event of any policy (`CacheOfRun`), and that refresh does not compile expressions. So
  a rejected policy, or an older version of it, is cached exactly if it was in the store and valid then
  (`CachedAfterRunExactly`, `UncompilableCachedExactly`), and may go on removing pods
  (`UncompilablePolicyGetsCached`, `RejectedEditKeepsActing`).
- A When condition that was invalid and is corrected stays InvalidSpec in `validate_and_update_when`
  (`CorrectedWhenStaysInvalid`).
- `gracePeriodSeconds` of a delete is cut to 32 bits (`DeleteGrace`, `LongGraceIsCut`).
- A requeue counts from the end of the run, not from the look at the policy: the wake-up is less than a second
  late for a TTL exactly if some pending TTL's time left, counted from the pod's age in whole seconds at the
  end, reaches no further than `ttl + 1`, and otherwise late by less than that second plus the rest of the run
  (`NoTtlIsDelayed`, `LateWakeup`).
- "to avoid infinite reconciliation loops" (src/controller.rs:628): the controller's own events come to rest
  (`LoopEnds`), but an accepted policy over all namespaces is reconciled every minute while its list request
  fails (src/controller.rs:692-696), and patched every minute if its patch fails as well. Exactly such policies
  can be reconciled without end, and exactly those that do not show their verdict patched without end
  (`EndlessExactly`). What is bounded in every run is the patches that are delivered (`PatchesBoundedByEdits`).
- Conditions of an older status disappear exactly if some patch is delivered (`SingleConditionExactly`,
  without edits `SingleConditionWithoutEdits`), so they can stay next to the right verdict
  (`OldConditionIsKept`). A verdict stays unshown at rest exactly if the patch for the last event was needed
  and failed and no requeue is due; a later event repairs it (`RestWithoutVerdictExactly`).
- The protected namespaces are the six of src/controller.rs:96-106, if the flag is set, and the excluded ones
  (`ProtectedNamespacesExactly`); `default` and `kube-depod`, which comments and the repository's README
  mention, are not among them (`PromisedNamespacesAreExposed`).

## Model

| member | source | states |
|---|---|---|
| RateLimiting.TokenBucket.constructor | src/rate_limiter.rs:16-27 | a new bucket is full and was reset now |
| RateLimiting.TokenBucket.CompareExchangeWeak | src/rate_limiter.rs:47-58 | swaps only if the value is the expected one, and may fail all the same |
| RateLimiting.TokenBucket.Allow | src/rate_limiter.rs:29-63 | run alone, a call refills after sixty seconds and grants exactly when a token is left, however many swaps fail spuriously |
| RateLimiting.RateLimiter.constructor | src/rate_limiter.rs:79-84 | a full global bucket and no policy buckets |
| RateLimiting.RateLimiter.AllowGlobal | src/rate_limiter.rs:86-88 | draws from the global bucket and leaves every policy bucket alone |
| RateLimiting.RateLimiter.InstallLimiter | src/rate_limiter.rs:99-118 | afterwards the name has a bucket with this limit: the old one, or a full one if there was none or its limit differed |
| RateLimiting.RateLimiter.AllowStored | src/rate_limiter.rs:113-113 | draws from the name's bucket and changes no other |
| RateLimiting.RateLimiter.AllowPolicy | src/rate_limiter.rs:93-120 | no positive limit means allowed; otherwise draws from the name's bucket, a full one if there was none or its limit changed; every other bucket is unchanged and none is shared |
| RateLimitBounds.ResetMovesForward | src/rate_limiter.rs:35-42 | a call resets the bucket exactly if sixty seconds have passed since `last_reset`, which never goes back; tokens never exceed the maximum |
| RateLimitBounds.AnySpanBound | src/rate_limiter.rs:29-63 | with a monotone clock the grants in any span of W seconds are at most max * (1 + ceil((W-1)/60)), so 2 * max in sixty seconds |
| RateLimitBounds.AnySpanBoundIsSharp | src/rate_limiter.rs:29-63 | for every rate and span some run reaches that bound |
| RateLimitBounds.GlobalBudget | src/rate_limiter.rs:29-63 | over any run, also with a clock that jumps, global grants up to reading t are at most max * (1 + (t - start)/60) |
| RateLimitBounds.UnlimitedExactly | src/rate_limiter.rs:93-97 | a policy call without a limit of at least one is allowed and leaves no trace; any other draws from a bucket with that limit |
| RateLimitBounds.PolicyBudget | src/rate_limiter.rs:93-120 | the same for a policy name while its limit is steady, counted from the first use that installs a bucket of that limit, whatever bucket was stored before |
| RateLimitBounds.PolicyMapAgreesWithCalls | src/rate_limiter.rs:99-119 | in every run a name has a bucket exactly if it was called with a positive limit, and it enforces the last one |
| RateLimitBounds.PoliciesAreIndependent | src/rate_limiter.rs:72-120 | striking all other calls out of a run changes neither a policy's bucket nor its grants |
| RateLimitBounds.GlobalIsIndependent | src/rate_limiter.rs:72-120 | striking the policy calls out of a run changes neither the global bucket nor its grants |
| PolicyGenerations.GenerationBudgets | src/rate_limiter.rs:99-119 | in every run the metered grants of a name split into bucket generations, each begun by a changed limit and each within one full bucket plus one per minute since; their sum bounds the whole |
| PolicyGenerations.UnlimitedExactlyIfLimitsDiffer | src/rate_limiter.rs:106-111 | any number of calls with two limits in turn are all granted at one clock reading if and only if the limits differ |
| ConcurrentBucket.Conservation | src/rate_limiter.rs:38-59 | in every interleaving, with stale loads and spurious failures, tokens plus grants since the last token store equal the maximum, and grants are at most max * (1 + token stores) |
| ConcurrentBucket.RefillsPerWindow | src/rate_limiter.rs:29-63 | within 60 - d seconds of a refill's store at most N refills happen, that one included, and grants are bounded by N and max |
| ConcurrentBucket.ConcurrentBudget | src/rate_limiter.rs:29-63 | a whole run on N threads grants at most max * (1 + N * number of windows of 60 - d seconds) |
| RacyRefills.SoloCall | src/rate_limiter.rs:29-63 | in every run in which one thread alone goes through a call, the bucket, the grant and the other threads end as the sequential call leaves them |
| RacyRefills.SoloCallEnds | src/rate_limiter.rs:29-63 | every idle thread has such a run |
| RacyRefills.ConcurrentBudgetIsSharp | src/rate_limiter.rs:38-42 | for every N and max and any number of windows some run with instant calls reaches the budget |
| PolicyMapRace.BucketsPerName | src/rate_limiter.rs:99-119 | racing calls for one name with a steady limit create at most one bucket per thread |
| PolicyMapRace.NameBudget | src/rate_limiter.rs:93-120 | N racing threads are granted for one name at most N times what one bucket shared by N threads may grant |
| PolicyMapRace.NameBudgetIsSharp | src/rate_limiter.rs:99-119 | if all threads look before the first inserts, each creates a bucket, and N times the limit can be granted at one clock reading |
| PolicyMapBudget.NameBudgetOverTime | src/rate_limiter.rs:93-120 | if inserts are as prompt as stores, N racing threads are granted over time at most max * (N + N * windows) and (N-1)^2 calls that hold a replaced bucket |
| Crd.ValidSpecs | src/crd.rs:252-323 | validation accepts a spec if and only if it has a trigger, the one parameter its condition type needs and no other, and no negative grace period |
| Crd.RejectionMeaning | src/crd.rs:252-323 | validation reports the first fault of a spec in the order of its checks, and accepts exactly the specs without any; blank means only characters with the White_Space property |
| Crd.MessagesDiffer | src/crd.rs:252-323 | different faults have different messages, so a change of the fault shows in the status |
| Ttl.NumSecondsBounds | src/controller.rs:77-77 | whole seconds are truncated toward zero, symmetrically |
| Ttl.TtlMetExactly | src/controller.rs:74-82 | a TTL of t seconds is met exactly from t + 1 full seconds after creation |
| Ttl.WakeLag | src/controller.rs:84-93 | waking after any delay between one second and the TTL's own requeue stays less than a second behind its firing instant |
| Ttl.AgesAgreeWithinOneSecond | src/engine/cel.rs:183-194 | Builtin TTL met implies CEL `age > ttl` at the same instant; the converse holds one second later |
| Ttl.AgesDisagreeExactly | src/engine/cel.rs:183-194 | the two disagree exactly in CEL's second ttl + 1 while the clock's sub-second part is behind the creation time's |
| Cel.CelEvaluator.constructor | src/engine/cel.rs:18-22 | an empty table |
| Cel.CelEvaluator.Evaluate | src/engine/cel.rs:32-97 | returns what compiling afresh and running would; the table gains the expression exactly if it compiles |
| Cel.CelEvaluator.Validate | src/engine/cel.rs:100-112 | accepts exactly what compiles, and then remembers it |
| Cel.CelEvaluator.ClearCache | src/engine/cel.rs:115-117 | empties the table |
| Entitlement.EvaluationExactly | src/engine/cel.rs:63-97 | what an evaluation answers for every result of executing the expression on the written-out variables (pod, whole epoch seconds, clamped age), and which error it is when a step fails |
| CelConcurrency.CacheIsTransparent | src/engine/cel.rs:32-117 | every interleaving of evaluate, validate and clear keeps each entry the compilation of its key and each result the uncached one |
| CelConcurrency.AcceptedExpressionsNeverFailToCompile | src/engine/cel.rs:100-112 | once any validate accepts an expression, no evaluate of it reports a compilation error |
| CelConcurrency.EveryCallAnsweredOnce | src/engine/cel.rs:32-117 | in every interleaving each call returns exactly one result |
| StatusUpdater.StatusRecord.UpdateCondition | src/status_updater.rs:37-42 | removes the condition of that type and appends the new one; nothing else changes |
| StatusUpdater.StatusRecord.Initialize | src/status_updater.rs:60-64 | leaves Ready alone in the list and stamps the time |
| StatusUpdater.StatusRecord.ValidateAndUpdateWhen | src/status_updater.rs:88-105 | returns the validation result; marks Ready only in an empty list, InvalidSpec on failure |
| StatusUpdater.TypesStayDistinct | src/status_updater.rs:10-106 | no sequence of operations puts two conditions of one type into the list |
| StatusUpdater.LastWriteWins | src/status_updater.rs:37-42 | from an empty list, any updates leave exactly the last one of each type, ordered by when it was made |
| StatusUpdater.CountersCount | src/status_updater.rs:12-57 | the counters count the operations since the last reset, a match also as an evaluation |
| StatusUpdater.StampedExactly | src/status_updater.rs:10-106 | which operations set the time |
| StatusUpdater.ListMeaning | src/status_updater.rs:10-64 | which operations leave the condition list alone, and what the others make of it |
| StatusUpdater.MarksMeaning | src/status_updater.rs:67-82 | the condition each mark leaves last, field by field |
| StatusUpdater.CorrectedWhenStaysInvalid | src/status_updater.rs:88-105 | a When that was invalid and is corrected stays marked InvalidSpec and is not marked Ready |
| MergePatch.Idempotent | src/controller.rs:144-150 | merging a patch a second time changes nothing |
| MergePatch.StatusPatchReplaces | src/crd.rs:155-185 | whatever was stored, a merged status decodes to exactly the one sent; unknown members are kept |
| MergePatch.ObjectPatchReplacesStatus | src/controller.rs:144-150 | the patch changes nothing of the object but its status |
| MergePatch.MissingMembersDefault | src/crd.rs:155-185 | any members of a stored status may be missing; a reader sees their defaults |
| PolicyProtocol.StoredVerdict | src/crd.rs:155-211 | the JSON members of an object's status after its patch: the verdict as only condition, zero counters, no time |
| Entitlement.DecisionMeaning | src/controller.rs:187-342 | the loop acts exactly if the pod is in a selected namespace, has every selected label with its value and an accepted trigger annotation, its TTL is over or its expression gives true or nonzero, its namespace is not sheltered and it is no dry run; likewise when it finds no match, a protected namespace or a dry run |
| Entitlement.UnmetMeaning | src/controller.rs:206-300 | why a policy in scope does not hold: which decisions mean a pending TTL with its time left, a missing parameter, an evaluation error or false |
| Entitlement.AppliesExactly | src/controller.rs:27-72 | scope: absent, empty or containing namespaces; every wanted label pair; an accepted annotation pair |
| Entitlement.ShelteredExactly | src/controller.rs:96-127 | for any limits: the flag with one of the six names, or the excluded list whatever the flag is |
| PodProperties.ProtectedNamespacesExactly | src/controller.rs:96-127 | a namespace is out of reach of every valid policy with a given flag and excluded list if and only if the flag is set and it is one of six names, or it is excluded |
| PodProperties.PromisedNamespacesAreExposed | src/crd.rs:140-145 | `default` and `kube-depod` are not protected |
| PodProperties.AttemptsInOrder | src/controller.rs:187-489 | attempts follow list order; all but the last are failed requests, at most one succeeds and it is last; without an early return every entitled policy was tried; a denial ends the run with a requeue in ten seconds, a success with waiting, an unserializable eviction with an error, and nothing else does |
| PodProperties.AttemptsJustified | src/controller.rs:187-487 | every attempt is by a listed policy that entitles it, and a request of that policy's kind goes out only on two grants |
| PodProperties.RequeueIsShortestTtl | src/controller.rs:215-243 | a completed loop requeues after the minimum of the times left of exactly the pending TTLs, at least a second, else the resync interval, else waits |
| PodProperties.OutcomeExactly | src/controller.rs:356-514 | every run returns a requeue in ten seconds if its last attempt was denied, an error if its body did not serialize, waiting if it succeeded, and otherwise what the pending TTLs and the resync interval call for |
| PodProperties.LookedAtFirst | src/controller.rs:187-489 | the policies looked at are the first ones, up to and including the attempt that ends the run, or all; the rest makes no difference |
| PodProperties.ScanCounts | src/controller.rs:212-296 | one match is counted for each policy looked at that applies, one error for each that cannot be evaluated and each failed request |
| PodProperties.DeleteGrace | src/controller.rs:371-378 | a delete carries no grace period if the policy sets none and otherwise its low 32 bits, so the policy's own if and only if it fits |
| PodProperties.LongGraceIsCut | src/controller.rs:371-378 | a grace period of 2^32 seconds is sent as none at all |
| TtlWakeups.NoTtlIsDelayed | src/controller.rs:491-496 | a wake-up at the minimum after the run's end passes a pending TTL's first firing instant by less than a second plus the time since that policy was looked at; by less than a second exactly if the whole-second age at the end plus the time left of some pending policy is at most ttl + 1 |
| TtlWakeups.LateWakeup | src/controller.rs:386-389 | a failed delete between two policies makes the wake-up as late as it was slow, without bound |
| TtlWakeups.TtlWakeupsEnd | src/controller.rs:215-243 | the TTL branch is taken at most twice per distinct TTL, plus once if the clock started behind the creation time |
| SharpWakeups.TtlWakeupsEndIsSharp | src/controller.rs:215-243 | for any number of TTLs some wake-ups, none sooner than requested, reach that bound |
| TtlWakeups.NoTtlLeft | src/controller.rs:491-513 | when a completed run does not take it, no TTL is pending |
| PolicyReconcile.JudgeMeaning | src/controller.rs:541-599 | a policy is good if and only if it is valid and, for CEL, its expression compiles; otherwise which failure comes first, with the compiler's text |
| PolicyReconcile.WrittenIsShown | src/controller.rs:541-644 | the status that is written holds just the verdict, and needs no further patch |
| PolicyReconcile.PatchNeededExactly | src/controller.rs:548-637 | no patch is sent if and only if some condition agrees with the one to be written in type, status and message, or reason for Ready |
| PolicyReconcile.PatchGoesTo | src/controller.rs:155-172 | the namespace a patch goes to: the policy's own, else the only one it selects, else `default` |
| PolicyReconcile.CacheKeepsOrder | src/controller.rs:604-618 | the cache holds the valid policies in store order, each as often as stored |
| PolicyReconcile.TouchSetAgreesWithMatching | src/controller.rs:648-808 | whichever list requests fail, an accepted policy's run touches a pod as often as it is listed if `reconcile_pod` would count it as a match, and no other; a rejected one's touches none; when it requeues |
| PolicyReconcile.EachMatchingPodOnce | src/controller.rs:648-804 | with distinct names exactly once, unless the request that would list it fails |
| PolicyProtocol.StepIsRun | src/controller.rs:692-696 | a step of the protocol sends what a run of the reconcile function sends, and is due again exactly when that requeues |
| ProtocolBounds.LoopEnds | src/controller.rs:541-696 | without edits, n queued events, however stale, lead to at most 3 steps for each of them and for each failed list of all pods, and without such failures to at most 2n patches |
| ProtocolBounds.LandedWithinRoom | src/controller.rs:541-696 | in any run, requeued or not, every patch sent is delivered or lost, and the delivered ones are bounded by the queue and the edits |
| ProtocolBounds.PatchesBoundedByEdits | src/controller.rs:541-696 | so patches are at most 2n plus the lost ones without edits, with a bound in terms of the edits otherwise |
| ProtocolBounds.EndlessExactly | src/controller.rs:692-696 | without edits a new object can be reconciled without end if and only if its policy is accepted and has no namespaces listed, and patched without end if and only if it also does not show its verdict |
| PolicyProtocol.Converges | src/controller.rs:132-153 | if the last patch is not lost, an object that started without status, or with one the operator wrote, has once no event is left exactly one condition, the verdict on its current spec, whatever was edited, coalesced, requeued or lost on the way |
| PolicyProtocol.OperatorConverges | src/controller.rs:534-644 | the same from an object's creation, for the operator's own verdicts |
| PolicyProtocol.SingleConditionExactly | src/controller.rs:132-153 | after any run an object found with a status has exactly one condition if and only if a patch was delivered in it or there was one to begin with |
| PolicyProtocol.SingleConditionWithoutEdits | src/controller.rs:548-554 | without edits: if and only if the verdict was missing or stood alone |
| PolicyProtocol.OldConditionIsKept | src/controller.rs:629-637 | an object at rest with two conditions |
| PolicyProtocol.RestWithoutVerdictExactly | src/controller.rs:558-565 | every run without an event left ended by reconciling the current snapshot, and leaves the verdict unshown if and only if that needed a patch which failed; it is left so for good if and only if also no requeue is due |
| Operator.Context.constructor | src/main.rs:62-76 | the operator starts with an empty cache and zero counters |
| Operator.Context.Check | src/controller.rs:187-329 | decides on one policy as the specification does, and acts exactly if the pod and policy entitle it |
| Operator.Context.TryToRemove | src/controller.rs:332-487 | draws from both limits and sends the request only if both grant |
| Operator.Context.Proceed | src/controller.rs:222-487 | after the check, the loop's variables are those of the specification's next step |
| Operator.Context.VisitPolicy | src/controller.rs:187-489 | one iteration of the loop is one step of the specification |
| Operator.Context.ReconcilePod | src/controller.rs:175-514 | result, metrics, limiter and attempts are those of the recursive specification, and the result is the one the last new attempt or the pending TTLs call for |
| Operator.Context.UpdatePolicyStatus | src/controller.rs:132-153 | sends a fresh status holding only the condition, to the policy's namespace and name |
| Operator.Context.JudgeSpec | src/controller.rs:541-599 | the verdict: validation first, then compilation of a CEL expression |
| Operator.Context.TouchPerNamespace | src/controller.rs:744-804 | a list request that fails skips only its own namespace |
| Operator.Context.TouchPods | src/controller.rs:648-804 | touches the matching pods of each list that succeeds; fails only with the single list over all namespaces |
| Operator.Context.ReconcilePolicy | src/controller.rs:534-808 | patch, cache, touches and result are those of the specification |
| OperatorRuns.RemovalSafety | src/controller.rs:187-487 | in every reachable state, with any number of interleaved tasks, every attempt and request is by a valid policy that entitled it in terms of the resources' fields, and justified by the limiter's grants; the cache is the valid part of the store at the last refresh; each task is one evaluated pod, deletions and rate limits stay within evaluated pods, with errors within matches, and agree with the log |
| OperatorRuns.AttemptsOfTask | src/controller.rs:183-187 | what a task adds to the log is for its pod, by a policy of the list it loaded |
| OperatorRuns.TaskLoadedCache | src/controller.rs:183-187 | that list is the policy cache as it was when the task began |
| OperatorRuns.MissingParametersNeverMet | src/controller.rs:239-243 | the arms for a missing TTL or expression are unreachable in any run |
| OperatorRuns.UninterruptedTask | src/controller.rs:175-514 | whenever a task whose steps follow each other without any other has finished, it and the shared state are what the specification, and so the method, makes of them |
| OperatorRuns.UninterruptedTaskEnds | src/controller.rs:175-514 | such a run exists for all readings |
| RemovalBudgets.RemovalBudget | src/controller.rs:342-361 | if calls to the limiter do not overlap, requests up to reading t are at most rate * (1 + (t - start)/60), in whatever order tasks look at their policies |
| RemovalBudgets.PolicyRemovalBudget | src/controller.rs:342-361 | and, under the same proviso, per policy name with a steady limit, counted from its first attempt |
| RemovalBudgets.GenerationRemovalBudget | src/controller.rs:342-361 | under the same proviso, whatever limits change, the requests of a name under a positive limit are within the sum of its generations' budgets |
| RemovalBudgets.RemovalsInAnySpan | src/rate_limiter.rs:29-63 | under the same proviso, if the clock does not go back, a run sends at most rate * (1 + ceil((W-1)/60)) requests in any W seconds |
| ParallelRuns.ParallelRemovalBudget | src/controller.rs:342-361 | with N workers whose calls to the global limiter overlap step by step, every attempt is still justified and every request has two grants, and requests are at most rate * (1 + N * windows of 60 - d seconds) |
| ParallelAgrees.PlainMovesAgree | src/controller.rs:183-183 | a move that touches no call does what the step of the run without overlap does |
| ParallelAgrees.SkipAgrees | src/controller.rs:187-342 | and so does looking at a policy that is not acted on |
| ParallelAgrees.AttemptAgrees | src/controller.rs:342-487 | an attempt during which no other worker moves leaves tasks, log and global bucket as the sequential step |
| SharpParallelRuns.Simulation | src/controller.rs:342-361 | every run of the shared bucket is that of some run of the operator, with one request for each grant |
| SharpParallelRuns.ParallelRemovalBudgetIsSharp | src/controller.rs:342-361 | for every rate, N and number of windows some run with instant calls makes that many requests |
| CacheRuns.CacheOfRun | src/controller.rs:601-620 | in every run the cache is the valid part of the store at the last accepted policy event, and empty before the first |
| CacheRuns.CachedAfterRunExactly | src/controller.rs:541-620 | a policy, or a version of it, is cached after a run if and only if it was in the store and valid at that event |
| CacheRuns.UncompilableCachedExactly | src/controller.rs:568-599 | a policy whose expression does not compile is cached right after its rejection if and only if it was in the store at the last event accepted before |
| CacheRuns.UncompilablePolicyGetsCached | src/controller.rs:568-620 | such a run from the start |
| CacheRuns.RejectedEditKeepsActing | src/controller.rs:541-566 | a run from the start in which a policy edited into a rejected one still removes a pod as it was |

## Left out

- The Kubernetes client, watchers, HTTP server, tokio runtime, logging, Prometheus text, configuration and shutdown: plumbing. API calls are outcomes (reply, failure, non-success eviction status, a body that does not serialize).
- Parsing and executing CEL: library code; `compile`, `execute` and the building of variables are arbitrary deterministic functions.
- RemovalBudgets.RemovalBudget: calls to the limiter do not overlap, and a request and its reply are one step (a reply touches only counters and its own task). Overlapping calls to the global limiter are in ParallelRuns, which leaves out metrics.
- RemovalBudgets.PolicyRemovalBudget: overlapping calls to a policy's limiter are in PolicyMapRace and PolicyMapBudget, which are not composed with the reconcile loops; ParallelRuns lets the policy limiter answer anything.
- RemovalBudgets.GenerationRemovalBudget: as PolicyRemovalBudget.
- RemovalBudgets.RemovalsInAnySpan: as RemovalBudget; with overlapping calls only whole runs and single windows (ConcurrentBucket.RefillsPerWindow) are bounded.
- PolicyMapRace.NameBudget: one name with a steady limit; racing calls whose limits differ have no bound, just as sequential ones.
- ConcurrentBucket.ConcurrentBudget: assumes sequentially consistent loads of `last_reset` and at most d seconds from a call's clock reading to its store; Conservation needs neither.
- Integer widths: counters and readings are unbounded (no u64 wrap), and `ttl_seconds - age` is assumed to fit i64; the one narrowing cast that matters, `g as u32`, is written out. A clock before 1970, where the limiter panics, is not modelled.
- Operator.Context.TouchPods: a touch is an attempt; whether the PATCH of the pod succeeds is not modelled, and the order of concurrent touches is fixed to list order.
- PolicyProtocol.Converges: the stored status is taken to be absent or well-formed, as the resource's schema demands; the first status is the one the operator writes, other writers of the status are not modelled. Deletion of the object is not modelled.
- PolicyProtocol.OperatorConverges: snapshots carry their namespace, as watch events do; the fallback of `get_policy_namespace` for objects without one is modelled but has no theorem.
- Reading resources from JSON: a missing `protectSystemNamespaces` is read as false (src/crd.rs:144-145), although its comment calls true the default.
- Time stamps in conditions are opaque strings; the check before an update ignores them.
- `error_policy_pod` (requeue after sixty seconds) would only add a constant; `error_policy_policy` is never called, since `reconcile_policy` returns no error.

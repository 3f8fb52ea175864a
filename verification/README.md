# Verified model of the CSR API's stateful algorithms

The service is mostly request handling, but a handful of its components keep
state over long runs and promise something about all of them: the fixed-window
rate limiter, the crawl scheduler with its circuit breaker, the billing ledger,
the company and organization deduplications, the retraction cascade, the ranking
of companies for a program, and the Telegram long-poll loop. This project models
those components in Dafny and proves what every run of them keeps.

Each component has the same two layers. Step functions on plain values say what
one request, SQL statement or transaction does, and lemmas about runs of steps
state the properties. Classes with the source's fields and methods then carry
the loops and statements of the source, and each method is proved to compute
exactly the step function. Clocks, generated keys, network and database outcomes
are parameters; a database transaction is one step; tables are maps.

| file | component |
|---|---|
| RateLimiter.dfy, RateLimiterEviction.dfy | the limiter as runs of requests and sweeps: bounds, eviction, Retry-After |
| RateLimiterInterleaved.dfy | lookup and charge separated where the store's lock is released |
| RateLimiterStore.dfy | the window and store objects |
| CrawlerTargets.dfy, CrawlerSchedules.dfy | one crawling target as a state machine: breaker, health, re-registration; its schedule in hours |
| CrawlerRepository.dfy | the table's queries and updates, and the batch health check |
| CrawlerLiveness.dfy | no due target is starved |
| HostInterleaving.dfy | round-robin over hosts |
| CrawlerDispatcher.dfy | the dispatch cycle: spacing, rescheduling, link to liveness |
| Billing.dfy, BillingService.dfy | ledger invariant, price and duration, redelivery; the service methods |
| CompanyMerge.dfy, CompanyMergeFailures.dfy, CompanyMergers.dfy | the admin merge and the dot merge, what stops them, and the programs |
| OrgNames.dfy, OrgKeys.dfy, OrgIngest.dfy | the fuzzy name key, what it ignores, and the ingest that relies on it |
| Retraction.dfy | the batch loop, alone and with several workers skipping locked rows |
| ProgramMatching.dfy | scoring, exchange sort and cut |
| TelegramPolling.dfy | the offset protocol |
| Common.dfy | shared datatypes, time units, counting facts |

`dafny verify dfyconfig.toml` checks everything.

## Where the code differs from what is said about it

- The limiter's comment promises at most `limit` requests inside the window
  duration. Per sliding interval the code admits up to twice that, and the bound
  is reached (`SlidingBoundIsTight`); with coinciding clock readings it is one
  lower, and reached too (`InstantSlidingBound`, `InstantBoundIsTight`).
- A request reads the clock once when it opens a window and again when it is
  charged. Evicting stale windows goes unnoticed exactly when those two readings
  agree (`ReopeningUnobservableIff`, `ReopeningCanBeNoticed`).
- The store's lock is released between lookup and charge. The bound for a key
  then holds for the admissions charged to the window the table names; a request
  that still holds an evicted window comes on top (`KeyBound`,
  `DisplacedChargeBreaksIff`, `KeyBoundFailsWhenDisplaced`).
- Retry-After is rounded down, and a window ends strictly after its duration, so
  waiting exactly that long is enough only in the last second
  (`RetryAfterSufficesIff`, `RetryAfterCanFallShort`).
- The breaker's comment speaks of five non-429 failures. The counter counts 429s
  too (`NextFailureTripsIff`, `RateLimitsCountTowardsTheThreshold`).
- "Reset all" skips a tripped target whose last callback was a success
  (`ResetAllReachesTrippedIff`, `ResetAllCanMissTripped`).
- Re-registering a URL that a failure callback disabled activates it without
  making it due; a callback or, as usual, the next health check does
  (`ReregistrationTakesEffectIff`, `HealthCheckBringsBack`).
- A health check writes what it decided from an earlier snapshot. One that
  selected a target before it tripped can switch it on again
  (`TrippedComesBackIff`, `LateCheckRevives`).
- The admin deduplication cannot complete while companies of one name have ESG
  profiles of the same year, or a duplicate has a proposal with milestones or an
  impact report (`AdminMergeCompletesIff`, `SameYearStopsTheScript`,
  `PinnedProposalStopsTheScript`). The dot merge never merges two companies that
  both have a CSR profile (`NoFailuresIff`, `ProfiledPairStays`).
- The schema calls webhook processing idempotent. A redelivery changes nothing
  but payment type and times (`RedeliveriesKeepTheLedger`), yet it does move the
  period (`RedeliveryIsIdempotentIff`), and redelivering an old monthly order can
  cut a yearly period short (`LaterSettlementShortensIff`, `MonthlyCutsYearShort`).
- The dot merge reports transactions as merged companies, too many as soon as a
  dotted row has two canonical ones (`ReportedCountIsExactIff`,
  `ReportedCountCanBeTooLarge`).
- A retraction worker can finish while rows it skipped are rolled back elsewhere
  and stay (`LeftoversAreAbandoned`, `SkippedRowsCanBeLeft`).
- The comment on the organization key says that "LAZ Solo Peduli" and
  "SOLOPEDULI (LAZ Provinsi)" share one. Keys agree exactly when the distinctive
  words do (`SameKeyIffSameWords`), and a glued spelling is another word
  (`GluedSpellingDiffers`).

## Model

| member | source | states |
|---|---|---|
| RateLimiter.HistoryIsChained | internal/middleware/rate_limiter.go:58-92 | over every run with sweeps anywhere, a key's admissions fall inside their window, are numbered consecutively in it, respect their own limit, and successive windows start more than the duration apart |
| RateLimiter.SlidingBound | internal/middleware/rate_limiter.go:28-92 | any closed interval as long as the window holds at most twice the limit for one key, for windows of at most 15 minutes |
| RateLimiter.MoreThanLimitMeetsTwoWindows | internal/middleware/rate_limiter.go:69-92 | an interval with more admissions of a key than the limit meets two of its windows |
| RateLimiter.AdmissionsSpread | internal/middleware/rate_limiter.go:69-92 | any 2 * limit + 1 consecutive admissions of a chained history spread over more than the window |
| RateLimiter.MixedLimitsBound | cmd/api/main.go:119-125 | on a store shared by limiters of different limits, requests whose limit is at most L are admitted at most L times per window |
| RateLimiter.OrdinalCounts | internal/middleware/rate_limiter.go:76-91 | the k-th admission of a window was charged against a limit of at least k |
| RateLimiter.RefusedIff | internal/middleware/rate_limiter.go:69-92 | over every run, a request is refused if and only if the last window of its key is still running and has admitted as many requests as this request's limit |
| RateLimiter.KeysAreIndependent | internal/middleware/rate_limiter.go:53-67 | what other keys do leaves a key's window and history as they are |
| RateLimiter.ForgottenAfterFifteenMinutes | internal/middleware/rate_limiter.go:31-40 | a sweep forgets exactly the windows more than 15 minutes old |
| RateLimiterEviction.EvictionUnobservable | internal/middleware/rate_limiter.go:28-42 | the janitor changes no answer of a run in which every reopened window was opened and charged consistently |
| RateLimiterEviction.ReopeningUnobservableIff | internal/middleware/rate_limiter.go:59-76 | a reopening stays unnoticed by every continuation whose requests have coinciding readings if and only if its own two clock readings coincide or lie more than the window apart |
| RateLimiterEviction.ReopeningCanBeNoticed | internal/middleware/rate_limiter.go:59-76 | a request, a sweep and a reopening whose readings lie a nanosecond apart: later answers differ from those without the janitor |
| RateLimiterEviction.SlidingBoundIsTight | internal/middleware/rate_limiter.go:47-76 | for every limit some run, with readings at most a nanosecond apart, admits 2 * limit requests within one window length |
| RateLimiterEviction.InstantSlidingBound | internal/middleware/rate_limiter.go:58-92 | when the two readings of every request coincide and limits are positive, the bound is 2 * limit - 1 |
| RateLimiterEviction.InstantBoundIsTight | internal/middleware/rate_limiter.go:58-92 | and some such run reaches it, for every positive limit |
| RateLimiterEviction.RetryAfterSufficesIff | internal/middleware/rate_limiter.go:76-83 | retrying after exactly Retry-After is admitted if and only if under a second was left; one second more always is; the answer is the whole seconds left, at least one |
| RateLimiterEviction.RetryAfterCanFallShort | internal/middleware/rate_limiter.go:76-83 | a request refused on a window opened just now is refused again after exactly the Retry-After of 60 seconds |
| RateLimiterInterleaved.ObjectBound | internal/middleware/rate_limiter.go:58-92 | with lookup and charge interleaved arbitrarily, each window object still has a chained history and the sliding bound |
| RateLimiterInterleaved.KeyBound | internal/middleware/rate_limiter.go:58-92 | over every interleaving, the admissions charged to the window the table names at the time form a chained history; all admissions of the key in one window length are at most twice the limit plus those charged to displaced windows |
| RateLimiterInterleaved.KeyBoundWithoutDisplacement | internal/middleware/rate_limiter.go:58-92 | while every charge uses the window the table names, the key has a chained history and the sliding bound of the atomic limiter |
| RateLimiterInterleaved.DisplacedChargeBreaksIff | internal/middleware/rate_limiter.go:67-76 | the first charge on a displaced window breaks the history if and only if its limit is positive and the table names a used window of the key that is still running |
| RateLimiterInterleaved.LookupThenPayIsRequest | internal/middleware/rate_limiter.go:58-92 | uninterrupted, the two halves are one request of the atomic limiter |
| RateLimiterInterleaved.UninterruptedRunIsAtomic | internal/middleware/rate_limiter.go:58-92 | a whole run without interruptions is a run of the atomic limiter: same windows, same histories |
| RateLimiterInterleaved.CleanIsSweep | internal/middleware/rate_limiter.go:31-40 | cleaning the split store is a sweep of the atomic one |
| RateLimiterInterleaved.KeyBoundFailsWhenDisplaced | internal/middleware/rate_limiter.go:67-69 | with limit 1, a request holding an evicted window makes three admissions fit one window length, where the atomic limiter allows two |
| RateLimiterStores.TenantWindow.Charged | internal/middleware/rate_limiter.go:69-92 | the code under the window's lock computes the charge and its answer |
| RateLimiterStores.RateLimiterStore.Lookup | internal/middleware/rate_limiter.go:58-67 | finds the key's window or opens one now |
| RateLimiterStores.RateLimiterStore.RateLimit | internal/middleware/rate_limiter.go:125-169 | one request of either limiter is one step of the model on the window of its own id, or of the fallback when it has none; no other window changes |
| RateLimiterStores.RateLimiterStore.CleanUp | internal/middleware/rate_limiter.go:107-121 | one tick of the janitor removes exactly the windows older than 15 minutes |
| CrawlerTargets.BreakerRefinesHistory | internal/repository/crawler_repo.go:106-157 | over every history of callbacks, resets, re-registrations, dispatches and health checks: the counter is the one the history leaves; a target is inactive exactly when it was never activated or an event since the last activation trips |
| CrawlerTargets.FailureRunCounts | internal/queue/url_health_check_worker.go:104-126 | that counter is the number of failures, by callback or health check, not cleared since by a success, reset or healthy finding, provided each health check wrote from a counter that was still current |
| CrawlerTargets.HealthIsLastReport | internal/repository/crawler_repo.go:107-141 | health is what the last callback, reset or health check says, and disabled exactly when that is a failure that tripped |
| CrawlerTargets.PureRateLimitingNeverTrips | internal/repository/crawler_repo.go:138-155 | a history whose failures are all 429, reported by callbacks or health checks, never trips, and the next 429 backs off by the counter |
| CrawlerTargets.NextFailureTripsIff | internal/repository/crawler_repo.go:138-145 | after any history, a failure trips if and only if it is 404 or 410, or not 429 while the counter, 429s and health checks included, is at least four |
| CrawlerTargets.RateLimitsCountTowardsTheThreshold | internal/repository/crawler_repo.go:125-145 | four 429s and one 500 disable a target |
| CrawlerTargets.TrippedStaysOut | internal/repository/crawler_repo.go:30-30 | after a trip no callback or dispatch makes the target due again, and no health check selects it any more |
| CrawlerTargets.TrippedComesBackIff | internal/queue/url_health_check_worker.go:46-53 | a health check that selected the row before the trip may still write after it: active again if and only if one that did left it active and nothing tripped since |
| CrawlerTargets.LateCheckRevives | internal/queue/url_health_check_worker.go:126-139 | a check that selected the target before a 404 and writes after it makes the target due |
| CrawlerTargets.ReregistrationTakesEffectIff | internal/repository/crawler_repo.go:342-345 | a tripped and re-registered target is due again exactly when its time has come, nothing tripped since it was last activated, and a callback or health check came since or the trip was itself a health check's |
| CrawlerTargets.HealthCheckBringsBack | internal/queue/url_health_check_worker.go:46-53 | a dead link re-registered is not due until the next health check finds it healthy |
| CrawlerTargets.ResetAllReachesTrippedIff | internal/repository/crawler_repo.go:457-466 | after any history, the reset of all failing rows reaches a tripped target exactly when its last callback or check was not a success, or had a status of at least 400 |
| CrawlerTargets.ResetAllCanMissTripped | internal/repository/crawler_repo.go:457-466 | a 404 followed by a success of status 200 leaves an inactive target that the reset does not select |
| CrawlerSchedules.DueAfterInterval | internal/repository/crawler_repo.go:90-97 | a dispatched target is due again after exactly its interval in hours |
| CrawlerSchedules.NextRunIsLastSchedule | internal/repository/crawler_repo.go:144-155 | over every history the next run is what the last dispatch, reset or 429 wrote: the interval, at once, or 30 minutes, 2, 6 or 24 hours by the counter |
| CrawlerSchedules.NewTargetIsReady | internal/repository/crawler_repo.go:334-341 | a registered URL is due at once if active, is checked for health at once, and has the asked interval or a day |
| CrawlerSchedules.ResetIsDueAtOnce | internal/repository/crawler_repo.go:449-464 | a reset target is healthy and due at once, whatever was wrong with it |
| CrawlerSchedules.IdentityIsKept | internal/repository/crawler_repo.go:90-157 | no event changes URL or interval |
| CrawlerSchedules.CheckedAfterTwelveHours | internal/queue/url_health_check_worker.go:46-53 | over every history an active target is selected for the health check if it has no status, was never dispatched, or was last dispatched more than twelve hours ago |
| CrawlerSchedules.CheckSwitchesOffIff | internal/queue/url_health_check_worker.go:104-124 | a check switches its target off if and only if the link is dead, or degraded otherwise than by a 429 as the third failure |
| CrawlerRepositories.CrawlerRepository.GetDueTargets | internal/repository/crawler_repo.go:24-54 | the answer is duplicate-free, due, oldest first, within the limit, and skips no due row unless it is full of rows at least as old |
| CrawlerRepositories.CrawlerRepository.UpdateTargetNextRun | internal/repository/crawler_repo.go:90-103 | the row is due its interval in hours from now and counts as dispatched now; nothing else changes |
| CrawlerRepositories.CrawlerRepository.RecordSuccess | internal/repository/crawler_repo.go:106-121 | the success update of one row |
| CrawlerRepositories.CrawlerRepository.RecordFailure | internal/repository/crawler_repo.go:124-164 | the failure update of one row with its three CASE expressions |
| CrawlerRepositories.CrawlerRepository.CreateTarget | internal/repository/crawler_repo.go:328-371 | inserts a healthy row with its interval or a day, due now, active as asked; or only activates the row of a known URL; URLs stay unique |
| CrawlerRepositories.CrawlerRepository.ResetCrawlerErrors | internal/repository/crawler_repo.go:436-474 | resets one row or all failing rows and counts them |
| CrawlerRepositories.CrawlerRepository.CheckTarget | internal/queue/url_health_check_worker.go:104-153 | the finding and the counter read by the query are turned into health, counter, active flag and next run of the row, whatever became of it since; no other row changes; counted when it switches off a target that was not dead |
| CrawlerRepositories.CrawlerRepository.HandleURLHealthCheck | internal/queue/url_health_check_worker.go:88-166 | exactly the targets before the cancellation are rewritten, each from its own row and finding unless that write fails; every other row is unchanged; the count is the number of those targets switched off |
| CrawlerRepositories.NewlyOffMeans | internal/queue/url_health_check_worker.go:122-124 | a check is counted exactly when the row's health was not DEAD and the check leaves it inactive |
| CrawlerRepositories.ResetFailingMeans | internal/repository/crawler_repo.go:457-466 | every row with a status of at least 400 or a health other than HEALTHY becomes healthy, active and due now; every other row stays as it is |
| CrawlerLiveness.ActShrinksRivals | internal/repository/crawler_repo.go:24-35 | no admissible write adds a target ordered at or before the watched one, and a rescheduled one leaves |
| CrawlerLiveness.RegistrationAddsRow | internal/repository/crawler_repo.go:334-341 | a registration under a new id adds a row due at once if active, and touches no other |
| CrawlerLiveness.CycleDropsRank | internal/queue/crawler_dispatcher_worker.go:84-148 | a cycle that passes a due target over has a full batch and takes as many rivals away as it has successful dispatches, whatever else is written meanwhile |
| CrawlerLiveness.SuccessesBringTheTurn | internal/queue/crawler_dispatcher_worker.go:84-148 | a due target is in a batch at the latest in the cycle before which the successful dispatches have left it fewer than fifty rivals, whatever fails |
| CrawlerLiveness.DueTargetIsDispatched | internal/queue/crawler_dispatcher_worker.go:84-148 | when all dispatches succeed, a due target with r rivals is in one of the first r / 50 + 1 batches |
| CrawlerLiveness.FailedDispatchesStarve | internal/queue/crawler_dispatcher_worker.go:132-138 | a full batch whose dispatches fail stays a valid answer of the due query for ever |
| CrawlerLiveness.PassedOverIff | internal/repository/crawler_repo.go:24-35 | the due query can pass a due target over if and only if it has at least fifty rivals |
| HostInterleaving.InterleavedKeepsHosts | internal/queue/crawler_dispatcher_worker.go:53-78 | for every host the output holds that host's targets in input order, and the output is a permutation of the input |
| HostInterleaving.PrefixCounts | internal/queue/crawler_dispatcher_worker.go:69-76 | after n outputs every host has been emitted up to the round and bucket the next output comes from |
| HostInterleaving.PrefixIsBalanced | internal/queue/crawler_dispatcher_worker.go:69-76 | in every prefix a host that trails another by two or more is exhausted |
| HostInterleaving.AdjacentOnlyAtTheEnd | internal/queue/crawler_dispatcher_worker.go:69-76 | two adjacent outputs share a host only when every later one has it too |
| HostInterleaving.HostsByFirstAppearance | internal/queue/crawler_dispatcher_worker.go:50-59 | the hosts take their turns in the order of their first targets |
| HostInterleaving.GroupByHost | internal/queue/crawler_dispatcher_worker.go:50-59 | the buckets hold each host's targets in order, the keys the hosts by first appearance |
| HostInterleaving.LongestBucket | internal/queue/crawler_dispatcher_worker.go:62-67 | the number of rounds is the longest bucket's length |
| HostInterleaving.InterleaveTargetsByHost | internal/queue/crawler_dispatcher_worker.go:45-79 | the loops, with the shortcut for one target, compute the round-robin that the lemmas describe |
| CrawlerDispatchers.CrawlerDispatcher.DispatchAll | internal/queue/crawler_dispatcher_worker.go:99-148 | every dispatch starts at least three seconds after the recorded completion of each earlier success on its host, and waits only for that; the targets are dispatched in order up to a cancellation; exactly the stored successes are rescheduled |
| CrawlerDispatchers.CrawlerDispatcher.HandleDispatchCrawlingTask | internal/queue/crawler_dispatcher_worker.go:81-152 | the cycle dispatches an interleaving of at most fifty due targets with that spacing, each with its row's URL, host and interval; every stored success is due its interval in hours after completion, and every other row is unchanged |
| CrawlerDispatchers.RescheduledMeans | internal/queue/crawler_dispatcher_worker.go:131-145 | what a cycle on different targets leaves of the table, row by row, in hours |
| CrawlerDispatchers.CycleServes | internal/queue/crawler_dispatcher_worker.go:99-145 | with any mix of successes, failures and cancellation, the cycle's writes reschedule its stored successes, and these are that many different targets of the due batch, although the loop ran over the interleaved list |
| CrawlerDispatchers.CyclePassesOver | internal/queue/crawler_dispatcher_worker.go:81-152 | a cycle on positive intervals that does not select a due target is one of those the liveness theorem counts |
| Billing.LedgerStaysBalanced | internal/service/subscription_service.go:75-240 | over every run each payment has its own invoice of the same organization and amount, is settled exactly when it is paid, and then has a subscription whose length fits its cycle |
| Billing.EmptyLedgerIsBalanced | internal/service/subscription_service.go:75-240 | the invariant holds from empty tables on |
| Billing.SettleKeepsBalance | internal/repository/subscription_repo.go:277-334 | a settlement keeps the invariant |
| Billing.CheckoutKeepsBalance | internal/service/subscription_service.go:75-197 | a checkout keeps the invariant, also when only its invoice was written |
| Billing.CheckoutCharges | internal/service/subscription_service.go:75-188 | a checkout goes through exactly when the requested plan or PRO exists, its organization does, and the generated keys are new; it charges the yearly price for a yearly cycle and the monthly price otherwise, monthly being the default |
| Billing.SettlementTouchesItsOrder | internal/repository/subscription_repo.go:277-334 | a settlement reports success exactly when it is committed, and changes only its own payment, invoice and organization |
| Billing.LookingStartsTrialOnce | internal/repository/subscription_repo.go:115-148 | looking at a missing subscription starts thirty days of PRO; looking at an existing one changes nothing |
| Billing.SubscriptionLastsUntilSettlement | internal/repository/subscription_repo.go:115-180 | over every run in which no order of an organization settles, its subscription and tier stay as they are |
| Billing.OrdersAreKept | internal/repository/subscription_repo.go:182-238 | no run changes the parties, amount, plan or cycle of an order |
| Billing.PriceAndDurationAgree | internal/service/subscription_service.go:89-107 | an order settled after any run, price changes included, yields 365 days exactly when it was charged the yearly price of its checkout, and 30 days otherwise |
| Billing.RedeliveryOnlyMovesTimes | internal/repository/subscription_repo.go:292-321 | redelivery in succession changes only payment type, payment and period times, and moves the period end by the time between the deliveries |
| Billing.RedeliveriesKeepTheLedger | internal/repository/subscription_repo.go:277-334 | however often a settled order is delivered again in succession, failed deliveries included, the ledger without payment type and times stays the same and the period never ends earlier |
| Billing.RedeliveryIsIdempotentIff | db/migrations/000033_add_subscription_and_midtrans_tables.up.sql:67-67 | redelivery changes nothing if and only if type and both clock readings are the same |
| Billing.LaterSettlementShortensIff | internal/repository/subscription_repo.go:306-321 | a second settlement of an organization moves its period end back if and only if a yearly one is followed within 335 days by one that is not |
| Billing.MonthlyCutsYearShort | internal/repository/subscription_repo.go:306-321 | two checkouts of one organization, yearly and monthly, settled in that order: the period end falls from 365 to 30 days |
| BillingService.SubscriptionService.CreateInvoice | internal/repository/subscription_repo.go:182-195 | inserts unless key or number is taken or the organization or plan is missing |
| BillingService.SubscriptionService.CreatePaymentTransaction | internal/repository/subscription_repo.go:229-238 | inserts unless the order id is taken or the invoice or organization is missing |
| BillingService.SubscriptionService.Checkout | internal/service/subscription_service.go:75-197 | the two writes, their failures and the default cycle and plan compute the checkout step |
| BillingService.SubscriptionService.SettlementStatements | internal/repository/subscription_repo.go:284-333 | the statements in turn succeed exactly when every row exists and none faults, and then have settled the order |
| BillingService.SubscriptionService.SettlePaymentAndActivateSubscription | internal/repository/subscription_repo.go:277-334 | a fault at any statement leaves every table as it was; otherwise the order is settled |
| BillingService.SubscriptionService.ProcessMidtransWebhook | internal/service/subscription_service.go:199-225 | only a logged, authentic success settles; a delivery that could not be logged does nothing; a logged one leaves one line, with its final status unless that write is lost |
| BillingService.SubscriptionService.ProcessFaspayWebhook | internal/service/subscription_service.go:227-240 | settles if the delivery could be logged, and logs the outcome unless that write is lost |
| BillingService.SubscriptionService.UpsertTenantSubscription | internal/repository/subscription_repo.go:150-180 | replaces the organization's one subscription, and its tier unless that write is lost |
| BillingService.SubscriptionService.GetTenantSubscription | internal/repository/subscription_repo.go:115-148 | answers an existing subscription and changes nothing; otherwise starts thirty days of PRO, if that plan and the organization exist |
| CompanyMerge.RedirectionConserves | internal/handler/admin.go:642-647 | redirecting and deleting loses exactly the references of unmoved tables to a duplicate |
| CompanyMerge.AdminMergeConserves | internal/handler/admin.go:623-649 | every moved reference survives and points to a live, best-ranked company of the same normalized name; an unmoved one is lost exactly when its company was a duplicate |
| CompanyMerge.AdminMergeKeepsBest | internal/handler/admin.go:626-640 | exactly one unchanged row per normalized name survives, and it leads the ranking |
| CompanyMerge.AdminMergeKeepsListed | internal/handler/admin.go:630-637 | of the rows of one name the survivor has a ticker if any has, among those is listed or state-owned if any is, and among those is the oldest |
| CompanyMerge.AdminMergeMoves | internal/handler/admin.go:642-647 | references of signals, programs, targets and ESG profiles end at the master of their company's name; others survive exactly with their company |
| CompanyMerge.AdminMergeCompletesIff | internal/handler/admin.go:642-647 | all statements of the script pass if and only if no two companies of the same normalized name have ESG profiles of the same year and no duplicate has a proposal that milestones or impact reports pin |
| CompanyMerge.SameYearStopsTheScript | db/migrations/000016_create_esg_profiles_and_material_topics_tables.up.sql:19-19 | two companies "A" with an ESG profile each for 2024 stop it |
| CompanyMerge.PinnedProposalStopsTheScript | db_improve/000011_partnership_milestones.up.sql:27-28 | a pinned proposal of the younger of two companies "A" stops it although the years are apart |
| CompanyMerge.AdminMergeIsIdempotent | internal/handler/admin.go:623-649 | a second run changes nothing, whatever ties it breaks |
| CompanyMerge.DotMergeDeletes | cmd/merge_duplicates/main.go:69-122 | exactly the duplicates of committed pairs are deleted, never a canonical row; survivors keep name and filled columns |
| CompanyMerge.DotMergeConserves | cmd/merge_duplicates/main.go:79-110 | every reference of a moved table survives and points to a live company of the same name up to trailing dots |
| CompanyMerge.StemIs | cmd/merge_duplicates/main.go:45-45 | a stem is the name without its trailing dots |
| CompanyMerge.OnlyCopiesVanish | cmd/merge_duplicates/main.go:43-49 | a company disappears only as the dotted, not older copy of one that stays, whichever transactions fail |
| CompanyMerge.NoCopyIsLeft | cmd/merge_duplicates/main.go:43-49 | without failures no such copy is left |
| CompanyMerge.PairMerges | cmd/merge_duplicates/main.go:94-110 | the canonical row keeps its columns and takes the duplicate's for those it has not; all other rows stay as they are |
| CompanyMerge.PairMoves | cmd/merge_duplicates/main.go:79-92 | references of targets, signals, profiles, programs and key persons move to the canonical row; those of other tables go with the duplicate |
| CompanyMerge.DotMergeFills | cmd/merge_duplicates/main.go:94-107 | no column filled in a removed duplicate, the ticker included, is lost |
| CompanyMerge.PairsLeftAre | cmd/merge_duplicates/main.go:37-50 | afterwards the pair query finds exactly the pairs whose duplicate no transaction has removed |
| CompanyMerge.DotMergeLeavesNoPair | cmd/merge_duplicates/main.go:37-50 | without failures the pair query finds nothing afterwards |
| CompanyMergeFailures.NoFailuresIff | cmd/merge_duplicates/main.go:79-115 | without faults from outside, no transaction fails if and only if no two CSR profiles end at one company and no duplicate has a pinned proposal |
| CompanyMergeFailures.ProfiledPairStays | db/migrations/000012_create_company_csr_profiles_table.up.sql:5-5 | "A" and "A." with a CSR profile each: the pair fails on every run and the tables stay as they are |
| CompanyMerge.ReportedCountIsExactIff | cmd/merge_duplicates/main.go:37-124 | without failures, the reported count is the number of companies that vanished from the table if and only if no dotted row has two qualifying undotted rows, and otherwise too large |
| CompanyMerge.ReportedCountWithFailures | cmd/merge_duplicates/main.go:68-124 | whichever transactions fail, the count is never too small, and exact on such tables |
| CompanyMerge.ReportedCountCanBeTooLarge | cmd/merge_duplicates/main.go:117-124 | of two rows "A" and one "A." two merged companies are reported and one vanishes |
| CompanyMergers.CompanyStore.FirstValues | internal/handler/admin.go:626-640 | picks a leading row of every normalized name |
| CompanyMergers.CompanyStore.TriggerDeduplication | internal/handler/admin.go:618-660 | the script computes the admin merge of that choice, or changes nothing; it completes exactly when no same-named companies share an ESG year and no duplicate has a pinned proposal |
| CompanyMergers.CompanyStore.MergeOne | cmd/merge_duplicates/main.go:73-120 | one transaction computes one pair's merge, or nothing: it fails on a fault, when both companies have a CSR profile, or when the duplicate has a pinned proposal |
| CompanyMergers.CompanyStore.MergeDuplicates | cmd/merge_duplicates/main.go:68-122 | the loop merges and counts exactly the pairs that neither a fault nor the tables at that point make fail |
| OrgNames.NameKeyIsIdempotent | internal/handler/ai_agent.go:853-876 | the key of a key is the key |
| OrgNames.SameKeyIffSameWords | internal/handler/ai_agent.go:849-876 | two names share a key if and only if they have the same distinctive words, in any order |
| OrgNames.GluedSpellingDiffers | internal/handler/ai_agent.go:849-876 | "LAZ Solo Peduli" and "SOLOPEDULI (LAZ Provinsi)" have different keys |
| OrgNames.TokensAreWords | internal/handler/ai_agent.go:866-875 | a key's tokens are alphanumeric, longer than two, no stop words, and sorted |
| OrgNames.OrgNameKey | internal/handler/ai_agent.go:853-876 | the loops terminate, the stripping one because the text gets shorter, and compute the key |
| OrgKeys.AlikeNamesShareKey | internal/handler/ai_agent.go:854-865 | a key ignores case and which separating characters stand between the words |
| OrgKeys.GroupDoesNotMatter | internal/handler/ai_agent.go:856-865 | what stands in the first parentheses does not matter to a key |
| OrgKeys.WordChangesKeyIff | internal/handler/ai_agent.go:841-875 | one more word changes the key unless it is one of the twenty-two stop words or has at most two letters |
| OrgKeys.LettersAndDigitsMakeWords | internal/handler/ai_agent.go:839-839 | lower-case letters and digits make words |
| OrgKeys.VariantsShareKey | internal/handler/ai_agent.go:849-852 | "Rumah Zakat" and "Rumah Zakat Indonesia" share a key |
| OrgKeys.TrimIs | internal/handler/ai_agent.go:720-741 | trimming takes white space off both ends and nothing else |
| OrgKeys.SqueezedHasSingleBlanks | internal/handler/ai_agent.go:867-867 | squeezing leaves no two blanks in a row |
| OrgKeys.SqueezedKeepsWords | internal/handler/ai_agent.go:867-867 | and leaves every word as it was |
| OrgIngest.RunsStayDistinct | internal/handler/ai_agent.go:743-774 | over every run of ingests from an empty table, names are distinct whatever their case, and so are non-empty keys; holds for any case folding and any key function |
| OrgIngest.ContactsNeverChange | internal/handler/ai_agent.go:777-785 | a row, its name and its non-empty contacts survive every later ingest |
| OrgIngest.ContactsAreFirstBrought | internal/handler/ai_agent.go:777-785 | over every run, each contact of a row is the first non-empty one that any ingest of that organization brought |
| OrgIngest.ExactMatchWins | internal/handler/ai_agent.go:743-756 | the same name in other case is preferred to the same key, and an insert means that neither exists |
| OrgIngest.FindsIsDetermined | internal/handler/ai_agent.go:747-756 | of a table without duplicates the two lookups can answer only one way |
| OrgIngest.ReingestIsIdempotent | internal/handler/ai_agent.go:743-785 | ingesting a request twice in succession is ingesting it once |
| OrgIngest.OrganizationStore.FindExistingOrgByFuzzyName | internal/handler/ai_agent.go:881-898 | finds a row with the same non-empty key if there is one |
| OrgIngest.OrganizationStore.IngestOrganization | internal/handler/ai_agent.go:712-795 | exact match first, then key match, then insert of the trimmed request; each empty contact of a found row takes the request's own, each other contact stays |
| Retraction.SignalStore.ProcessRetractionCascade | internal/queue/retraction_worker.go:36-90 | the loop terminates; without a failing batch it retracts exactly the matching, unretracted, unlocked signals, with low relevance and no alert; with one it has retracted that many full batches of a hundred; either way it answers the number retracted and leaves every other row alone |
| Retraction.SignalStore.SelectBatch | internal/queue/retraction_worker.go:47-51 | takes available rows, all of them or a hundred |
| Retraction.TotalsAddUp | internal/queue/retraction_worker.go:45-78 | over every interleaving of workers each retracted row has one owner and the counted totals add up to the rows retracted |
| Retraction.OwnersAreFinal | internal/queue/retraction_worker.go:45-60 | a row once retracted is never retracted by another worker |
| Retraction.LeftoversAreAbandoned | internal/queue/retraction_worker.go:45-90 | over every interleaving, rollbacks included: once a worker has finished well and none holds rows, what is left is exactly the rows of batches rolled back after that worker's last select that nobody retook |
| Retraction.AllRetractedWhenDone | internal/queue/retraction_worker.go:80-90 | nothing that matched is left if no transaction failed after some finished worker's last select |
| Retraction.SkippedRowsCanBeLeft | internal/queue/retraction_worker.go:51-66 | with a failing transaction a worker can finish normally while rows it skipped stay unretracted |
| ProgramMatching.HighlyRecommendedIff | internal/repository/ai_agent_repo.go:732-771 | scores lie between 45 and 100 in steps of five, and the top grade is reached in exactly three ways |
| ProgramMatching.ScoreIsSum | internal/repository/ai_agent_repo.go:729-771 | a score is 45 and what focus, place and tier add to it; grades start at 70 and 85 |
| ProgramMatching.MentionedIsHit | internal/repository/ai_agent_repo.go:730-742 | a category or keyword that occurs in name, sector, category or any alias is a hit |
| ProgramMatching.HitIff | internal/repository/ai_agent_repo.go:730-742 | and nothing else is, up to the blanks between those columns |
| ProgramMatching.LocationHitIff | internal/repository/ai_agent_repo.go:744-748 | a given location is met by the headquarters, the word "national", or the first tier |
| ProgramMatching.ContainsIff | internal/repository/ai_agent_repo.go:731-737 | a text contains a part exactly when it is something, the part, and something |
| ProgramMatching.GradesFollowScores | internal/repository/ai_agent_repo.go:766-771 | nothing cut off has a better grade than anything kept |
| ProgramMatching.ScoreCompany | internal/repository/ai_agent_repo.go:732-771 | the additions, the keyword loop and the cap compute score and grade |
| ProgramMatching.ExchangeSort | internal/repository/ai_agent_repo.go:797-803 | sorts in place: descending, and a permutation |
| ProgramMatching.RankAndCut | internal/repository/ai_agent_repo.go:797-807 | keeps a descending top of the candidates that nothing dropped beats |
| ProgramMatching.MatchCompaniesForProgram | internal/repository/ai_agent_repo.go:697-816 | the answer is the top of the scored rows, as many as a limit from 1 to 20 allows, and ten for any other limit |
| TelegramPolling.AnswerContinues | openclaw/telegram_receiver.js:140-140 | asking from the offset, the server continues exactly after the last attempted update |
| TelegramPolling.RoundHandsOver | openclaw/telegram_receiver.js:1249-1262 | a round hands over its answer up to and including the update whose handler throws, or all of it |
| TelegramPolling.OffsetIsGreatest | openclaw/telegram_receiver.js:1250-1252 | the offset is the greatest id seen, in whatever order updates come |
| TelegramPolling.RunStaysInStep | openclaw/telegram_receiver.js:1246-1265 | over every run the attempted updates are a prefix of the stream, so ids strictly increase, none comes twice and none is skipped |
| TelegramPolling.OnlyThrownUpdatesAreLost | openclaw/telegram_receiver.js:1247-1262 | each round that threw loses one update; every other update up to the offset was attempted |
| TelegramPolling.QuietRoundCatchesUp | openclaw/telegram_receiver.js:1248-1259 | a complete answer without a throw leaves nothing unattempted |
| TelegramPolling.TelegramReceiver.HandleBatch | openclaw/telegram_receiver.js:1249-1262 | advances the offset before each handler and stops at the first that throws |
| TelegramPolling.TelegramReceiver.StartTelegramReceiver | openclaw/telegram_receiver.js:1246-1265 | the polling loop computes the run |

## Left out

- HandlePollPendingTasks: it turns a polled status into the same success and failure callbacks, which the breaker's histories already contain in any order.
- The order and limit of the health check's query: its results hold for whichever rows are chosen.
- Faults from outside in the dot merge, which proposals are pinned, and the reporting years: parameters.
- References that a delete sets to NULL instead of removing the row: both count as lost.
- Crawling log rows, task ids, error texts and update timestamps: no later step reads them.
- HTTP handling, authentication, signature checks and gateway calls: the webhook methods take their verdicts as parameters.
- extractHost, case folding and trimming of company names, and the text match of a claim: parameters of the model; the proofs hold for every choice.
- Names outside ASCII: OrgNames lower-cases and trims as for ASCII names. The results on runs of ingests hold for any lower-casing and any key function.
- The phone verifier: an ingest request carries the number it produced, or none.
- Deleted organizations, admin edits and ingests running at the same time: the ingest results are about sequential ingests.
- Database read errors in the ingest lookups: both lookups are taken to answer.
- Different window durations on one store: a run has one duration, as the limiters of cmd/api/main.go have.
- Real-valued rounding: scores are integers because every summand is, and amounts are only copied.
- Several plans matching one id or code: plans are keyed by their unique code.
- Surrogate ids of subscriptions and payments: those tables are keyed by their unique columns, the organization and the order id.
- Contact persons, pending edits and command parsing of the Telegram bot: a handler either returns or throws.

# Redundant pipeline cleaner: verified model of the cancellation core

This project models the part of the GitLab redundant-pipeline cleaner that
makes decisions. Two pieces of Go code are modelled:

- `CancelRedundantPipelinesByMR` in `internal/gitlab/client.go`. It lists the
  pipelines of a merge request and drops the terminal ones (statuses `success`,
  `failed`, `canceled`, `skipped`, `scheduled`). It sorts the rest newest first.
  On an `"update"` it keeps the newest one, and on any other action it keeps
  none. Every remaining active pipeline is then cancelled, each cancel wrapped
  in `Retry(3, 4s, …)`.
- `Retry` in `internal/utils/utils.go`. It calls an operation up to
  `maxAttempts` times. After each failure it sleeps and doubles the delay.

Modules:

- `Utils` (`utils.dfy`) holds the retry loop as a method (`Retry`). It is proved
  equal to a reference function (`RetryRun`), defined from the first
  successful attempt (`FirstSuccess`) and the backoff schedule (`Schedule`).
  The retried operation is an oracle `fn: nat -> bool`, where `fn(k)` says
  whether the k-th call succeeds. Sleeps are recorded as a sequence of
  durations, not performed.
- `Pipelines` (`pipelines.dfy`) holds the data (`Pipeline`, the excluded
  statuses) and the selection policy as functions. These are the filter
  `Active`, a reference sort `SortDesc` (insertion sort, newest first), the
  reslice `ChooseRedundant` and their composition `SelectRedundant`. The
  lemmas about them state the selection properties.
- `Gitlab` (`gitlab.dfy`) holds the function itself as a method. It has the
  filter loop, an in-place sort of an array, and the cancel loop that calls
  `Utils.Retry` once per pipeline. Its postcondition ties the outcome to
  `SelectRedundant` and to `CancelAll`, the per-pipeline record of Retry
  runs. The GitLab API is replaced by two oracles. The first is the result
  of listing the pipelines, a `FetchResult`. The second is `cancel(id)(k)`,
  whether the k-th cancel request for pipeline `id` succeeds.

Durations are natural numbers in the unit of the initial delay (seconds for
the cancel loop, whose initial delay is 4).

The code and the design description disagree in two places; the model
follows the code:

- An always-failing `Retry` sleeps after every failed attempt, including the
  last one (`internal/utils/utils.go:21`). With 3 attempts and delay 4 it
  sleeps `[4, 8, 16]`, not twice. See `Utils.RetryAlwaysFails`.
- Listing the pipelines is a single unpaginated call
  (`internal/gitlab/client.go:39`). The fetch is an abstract result here, so
  no page aggregation is modelled.

## Model

| member | source | states |
|---|---|---|
| `Utils.Retry` | internal/utils/utils.go:9-25 | the loop's return value, call count and sleep sequence are exactly those of the reference run `RetryRun` |
| `Utils.FirstSuccess` | internal/utils/utils.go:13-17 | a found attempt lies within 1..maxAttempts and its call succeeds |
| `Utils.FirstSuccessIsLeast` | internal/utils/utils.go:13-17 | the search returns k exactly when k is in range, call k succeeds, and every earlier call fails |
| `Utils.FirstSuccessNone` | internal/utils/utils.go:13-24 | the search finds nothing exactly when every call in range fails |
| `Utils.ScheduleAt` | internal/utils/utils.go:11-22 | the i-th sleep (from 0) lasts initialDelay * 2^i |
| `Utils.ScheduleDoubles` | internal/utils/utils.go:21-22 | each sleep after the first is twice the one before |
| `Utils.RetryCallsBounded` | internal/utils/utils.go:13-14 | the operation is called at most maxAttempts times, and never when maxAttempts is negative |
| `Utils.RetrySucceedsAtFirstSuccess` | internal/utils/utils.go:13-22 | if call k is the first success, Retry returns nil after k calls and k-1 sleeps of initialDelay * 2^i |
| `Utils.RetryExhausted` | internal/utils/utils.go:13-24 | if every call fails, Retry returns the error after maxAttempts calls and maxAttempts sleeps, the last failure included |
| `Utils.RetryNilIffSomeSuccess` | internal/utils/utils.go:13-24 | Retry returns nil if and only if some attempt in 1..maxAttempts succeeds |
| `Utils.RetryNoAttempts` | internal/utils/utils.go:13-24 | with maxAttempts <= 0 there are no calls, no sleeps, and the error is returned |
| `Utils.RetryFailTwiceThenSucceed` | internal/utils/utils.go:13-22 | 3 attempts, delay 4, fail-fail-succeed: nil after 3 calls with sleeps [4, 8] |
| `Utils.RetryAlwaysFails` | internal/utils/utils.go:13-24 | 3 attempts, delay 4, always failing: the error after 3 calls with sleeps [4, 8, 16] |
| `Pipelines.ActiveMembers` | internal/gitlab/client.go:57-71 | a pipeline survives filtering if and only if it was fetched and its status is not one of the five excluded ones, so unknown statuses count as active |
| `Pipelines.ActiveDistinct` | internal/gitlab/client.go:66-71 | filtering keeps ids distinct |
| `Pipelines.SortDescIsDescending` | internal/gitlab/client.go:74-76 | the reference sort orders by id, newest first |
| `Pipelines.SortDescStrictlyDescending` | internal/gitlab/client.go:74-76 | with distinct ids the sorted order is strictly descending |
| `Pipelines.SortedPermutationUnique` | internal/gitlab/client.go:74-76 | any newest-first permutation of the active pipelines equals the reference sort, so the order sort.Slice produces is determined when ids are distinct |
| `Pipelines.MaxId` | internal/gitlab/client.go:79-82 | the newest id bounds every id in the list and belongs to one of its pipelines |
| `Pipelines.SortedHeadIsNewest` | internal/gitlab/client.go:74-81 | the first pipeline after sorting has the largest id, the one an update keeps |
| `Pipelines.SelectedAreFetchedAndActive` | internal/gitlab/client.go:57-86 | every selected pipeline was fetched and is not terminal |
| `Pipelines.AllTerminalSelectsNothing` | internal/gitlab/client.go:57-86 | if every fetched pipeline is terminal, nothing is selected, whatever the action |
| `Pipelines.NonUpdateSelectsAllActive` | internal/gitlab/client.go:66-86 | for any action other than "update", a pipeline is selected if and only if it is fetched and active, and the selection is a permutation of the active list |
| `Pipelines.SelectionStrictlyDescending` | internal/gitlab/client.go:74-86 | with distinct ids the selection is in strictly descending id order |
| `Pipelines.UpdateWithFewActiveSelectsNothing` | internal/gitlab/client.go:79-82 | on "update" with 0 or 1 active pipelines nothing is selected |
| `Pipelines.UpdateSelectsAllButNewest` | internal/gitlab/client.go:79-82 | on "update" with n >= 2 active pipelines, n-1 are selected: exactly the active ones whose id is below the maximum |
| `Pipelines.UpdateScenario` | internal/gitlab/client.go:57-82 | [10 success, 11 running, 12 pending] on "update" selects only 11 |
| `Pipelines.CloseScenario` | internal/gitlab/client.go:57-86 | [1 running, 2 canceled] on "close" selects only 1 |
| `Gitlab.FilterActive` | internal/gitlab/client.go:66-71 | the filter loop returns exactly `Active` of the fetched list |
| `Gitlab.SortByIdDesc` | internal/gitlab/client.go:74-76 | the array ends newest first and is a permutation of what it held |
| `Gitlab.SortedActive` | internal/gitlab/client.go:66-76 | filtering then sorting in place yields exactly the reference newest-first order of the active pipelines |
| `Gitlab.CancelEach` | internal/gitlab/client.go:88-102 | the cancel loop makes exactly one Retry(3, 4) per redundant pipeline, in order, whatever each one returns |
| `Gitlab.CancelRedundantPipelinesByMR` | internal/gitlab/client.go:48-104 | a fetch error returns that error and makes no cancel; otherwise the result is nil and the attempts are one Retry(3, 4) per selected pipeline, in selection order |
| `Gitlab.CancelAllOnePerPipeline` | internal/gitlab/client.go:88-102 | the i-th Retry is for the i-th redundant pipeline and makes between 1 and 3 cancel calls |
| `Gitlab.CancelTargetsIgnoreOutcomes` | internal/gitlab/client.go:88-102 | which pipeline each Retry targets does not depend on how earlier cancels went |
| `Gitlab.UpdateEndToEnd` | internal/gitlab/client.go:48-104 | "update" with [10 success, 11 running, 12 pending] makes one Retry, for pipeline 11 |
| `Gitlab.CloseEndToEnd` | internal/gitlab/client.go:48-104 | "close" with [1 running, 2 canceled] makes one Retry, for pipeline 1 |

## Left out

- Gitlab.CancelRedundantPipelinesByMR: requires pairwise distinct pipeline ids. `sort.Slice` is not stable, so the order among equal ids is unspecified.
- Gitlab.SortByIdDesc: a selection sort stands in for `sort.Slice`. Only the library's contract (sorted by the comparator, a permutation) is modelled, not its algorithm.
- Utils.Retry: durations are unbounded naturals. The overflow of `time.Duration` (int64 nanoseconds) under repeated doubling is not modelled, and neither is a negative initial delay.
- The 80-second grace sleep before listing pipelines (`internal/gitlab/client.go:50`). It is real time with no effect on the decisions.
- `ListPipelinesByMR`, `NewGitlabClient` and every go-gitlab call. They are foreign library calls; the listing is the `FetchResult` oracle and cancelling is the `cancel` oracle. The `GitlabClient` struct has no state the core updates, so it is not modelled as a class.
- The text of errors and all logging (`Printf`). The fetch error keeps only the merge request id and the cause.
- The HTTP handler, its goroutine dispatch and the 202 response (`internal/handlers/webhook.go`). This is concurrency and net/http plumbing.
- The token check (`internal/middleware/auth.go`), configuration loading (`internal/config/config.go`) and server start-up (`cmd/main.go`). These are I/O at the boundary.
- `WithListOptions` (`internal/gitlab/utils.go`). Nothing in the code calls it.

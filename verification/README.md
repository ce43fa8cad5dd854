# merge-ready: a model of the daemon and the prompt, with proofs

merge-ready shows the merge state of a branch's pull requests in a shell prompt. A daemon keeps a cache of rendered
outputs, refreshes it on a schedule that slows down when the GitHub quota runs low, and answers prompt queries over
a socket. This project models the parts of it that hold state or transform text, and proves what they promise.

| file | models |
|---|---|
| `Numbers.dfy` | `u64`/`u32` with saturating operators |
| `Sequences.dfy` | facts about sequences that several files use |
| `RefreshMode.dfy` | the refresh mode shared by rendering and scheduling |
| `RateLimit.dfy` | the rate-limit snapshot and its bottleneck |
| `CacheEntry.dfy` | cache entries, the store, events, effects and time predicates |
| `RefreshPolicy.dfy` | refresh intervals and their scaling by the remaining quota |
| `Transitions.dfy` | the four store transitions, as methods proved against functions of the old store |
| `DaemonRuns.dfy` | runs of any length: the entry invariant, the refresh lock, the spacing of scheduled refreshes, expiry |
| `DaemonTicks.dfy` | runs: which entries a tick must drop and refresh |
| `DaemonCold.dfy` | runs: slowing down for entries nobody asks about |
| `DaemonAnswers.dfy` | runs: what clients are answered, and for how long a completed output is |
| `DaemonBackoff.dfy` | runs: the rate-limit backoff |
| `DaemonExamples.dfy` | two concrete runs under the shipped configuration |
| `DaemonActor.dfy` | the actor that owns the store, as a class whose ghost `history` is a run, and the request handler |
| `FormatParser.dfy` | the format-string parser |
| `Variables.dfy` | the two `$name` scanners |
| `Rendering.dfy` | compilation and evaluation of formats |
| `LogRotation.dfy` | the size-rotating log writer |
| `PromptOutput.dfy` | the terminal sanitizer |
| `PromptClient.dfy` | the chunked reply reader |
| `Startup.dfy` | start-up under the file lock and shutdown, for any number of processes |
| `StatusGrouping.dfy` | grouping of pull requests by status |
| `Prompt.dfy` | the rendered prompt and the lines of the watch table |
| `CiAggregation.dfy` | the CI state from the latest run of each check |

Modelling choices:

- An `Instant` is a number of nanoseconds since the earliest representable one; a `SystemTime` one since an epoch.
  Both come with the events, where the source reads its clocks.
- A hash map is walked by removing arbitrary keys, so what is proved holds for every iteration order.
- A run (`IsRun`) is a sequence of steps, each with its event, its effects and the store before and after. A
  completion may carry any id at any time, because a refresh derives its id again from its directory
  (src/contexts/daemon/infrastructure/daemon_server.rs:183); it can be lost or land on another entry.
- Theorems that need a clock that never runs backwards say so (`Clocked`). The times of the events need not be in
  order even then: a query and a completion read the clock when the actor handles them
  (src/contexts/daemon/infrastructure/request_handler.rs:99-100 and 126-127), a tick and an observation before they
  are queued (scheduler.rs:36, rate_limit_fetcher.rs:35). So a query or a completion is no earlier than anything
  handled before it, and the ticks, of which the next waits for the last to be handled, are ordered among themselves;
  nothing else is assumed.
- Where a contract is stated through a function of the model, a theorem says in plain terms what that function gives:
  `ScaledIntervalIsPlain`, `TickRefreshesIff`, `ObservationSets`, `ReferenceReplaced`, `StyledShown`, `StateByOutcome`,
  `EvaluatedShowsIff`, `SanitizeByCharacter` and others.
- Style parsing and ANSI painting are two arbitrary functions (`Styling`); decoding a reply line is an arbitrary
  function of the line.

Where the code and its documentation disagree, the model follows the code:

- src/contexts/daemon/domain/cache/entry.rs:11 describes a retry of a first load that timed out. A tick skips every
  entry without output (transition.rs:197), so `PendingRetry` is unreachable (`ReachableWellKept`) and a lost refresh
  of such an entry is never retried (`LostEmptyRefreshNotRetried`). That is any first load, and any refresh after a
  completion with an empty output, as for a default branch or once all pull requests are closed: the run of
  `ClosedBranchStaysLocked`. A timed-out lock is freed exactly when the entry has an output (`TimedOutLockIsFreedIff`).
- entry.rs:164 says a query that makes an entry warm again resets its count of cold refreshes. A query answered
  fresh does not (`ColdCountResetIff`; a run under the shipped intervals is in `FreshQueryKeepsColdCount`).
- src/contexts/daemon/domain/rate_limit_snapshot.rs:7 promises a ratio of at most 10000; `RatioWithinScaleIff` says
  when it is, and 5001 calls left of 5000 give 10002 (`RatioCanExceedScale`).
- src_prompt/main.rs:26-35 promises that only colour sequences survive among the control characters. The code keeps
  whatever stands between `ESC [` and the first final byte when that is `m`, line breaks included (`LineBreakKept`);
  `PromisedIff` says when the promise is kept.

Three properties one would expect hold only under a condition, which is proved exact:

- Waiting for the bottleneck's reset waits for every exhausted resource: a resource with neither quota nor limit
  counts as exhausted and yet as full (`BottleneckCoversExhaustedIff`, with `ExhaustedWithoutLimitMissed` for a case).
- Less quota never shortens an interval: the bottleneck can move to a resource that resets sooner
  (`LessQuotaNeverShortensIff`, with `LessQuotaCanShorten` for a case under the shipped intervals).
- The CI state does not depend on the order of the contexts: the first of several runs with one time stamp counts
  (`OrderIsIrrelevantIff`, with `TieOrderMatters` for a case).

Two more are about the daemon as a whole:

- A new entry is backdated so that it is stale at once (entry.rs:111). When the clock leaves no room for that, the
  next query is answered with an empty string instead of "? loading"; `AnswersAgreeIffRoom` gives the exact
  condition.
- restart.rs:12 cleans up from two places: the connection that handles a stop request
  (src/contexts/daemon/infrastructure/connection.rs:63-67) and the end of the server loop
  (daemon_server.rs:104-111). A daemon that reaches both can remove the files of its successor;
  `SafeIffSingleCleanup` says start-up is safe in every run exactly when no daemon does. `SafeIffHarmless` tells the
  runs with repeated clean-ups apart: all their states are safe, and stay so whatever the processes do short of
  cleaning up once more, exactly when no repeated removal hits a process that still needs the file.

## Model

| member | source | states |
|---|---|---|
| RateLimit.RatioBpBrackets | src/contexts/daemon/domain/rate_limit_snapshot.rs:9-14 | the ratio is the floor of ten thousand times the remaining quota over the limit; without a limit it is full |
| RateLimit.RatioWithinScaleIff | src/contexts/daemon/domain/rate_limit_snapshot.rs:7-14 | the documented bound of 10000 holds exactly unless the remaining quota exceeds the limit by a whole basis point |
| RateLimit.BottleneckResetIsLatest | src/contexts/daemon/domain/rate_limit_snapshot.rs:50-59 | the chosen reset is the latest among the resources with the smallest ratio |
| RateLimit.BottleneckCoversExhaustedIff | src/contexts/daemon/domain/rate_limit_snapshot.rs:45-65 | waiting for the bottleneck waits for an exhausted resource exactly when that has a limit, or the other is at full ratio or resets no earlier |
| RefreshPolicies.BudgetNumeratorExact | src/contexts/daemon/domain/refresh_policy.rs:231-234 | the chain of saturating products is the true product, clamped once |
| RefreshPolicies.BudgetGuardIsDead | src/contexts/daemon/domain/refresh_policy.rs:227-241 | the denominator never saturates and is never zero |
| RefreshPolicies.BudgetTermBrackets | src/contexts/daemon/domain/refresh_policy.rs:220-243 | the term is the floor of the true quotient whenever the true numerator fits in 64 bits |
| RefreshPolicies.SchedulerBudgetFits | src/contexts/daemon/domain/refresh_policy.rs:150-164 | with at most 25 billion calls a cycle the numerator fits |
| RefreshPolicies.RatioTermExact | src/contexts/daemon/domain/refresh_policy.rs:199-209 | the ratio term is the base plus alpha times the base times the square of the share that is gone, clamped once; with nothing left the base plus alpha times the base |
| RefreshPolicies.RatioTermBounds | src/contexts/daemon/domain/refresh_policy.rs:199-209 | the ratio term lies between the base and the base plus alpha times the base |
| RefreshPolicies.ScaledIntervalLowerBounds | src/contexts/daemon/domain/refresh_policy.rs:134-173 | scaling never shortens the base interval; exhausted resources wait the late cold interval; terminal entries wait for ever |
| RefreshPolicies.ScaledIntervalIsPlain | src/contexts/daemon/domain/refresh_policy.rs:134-191 | the saturating computation is the plain one, with the base interval, alpha and weight by refresh mode, age of the last query and cold count, 95 percent of the smaller quota, and at most an hour |
| RefreshPolicies.LessQuotaNeverShortensIff | src/contexts/daemon/domain/refresh_policy.rs:134-173 | less quota shortens no interval, whatever the policy, entry, cost and clocks, exactly when the bottleneck's reset does not move earlier, or its ratio was full, or its reset lay in the first second |
| RefreshPolicies.EqualResetsLessQuota | src/contexts/daemon/domain/refresh_policy.rs:134-173 | with equal reset times less quota never shortens an interval |
| RefreshPolicies.OlderQueryNeverShortens | src/contexts/daemon/domain/refresh_policy.rs:75-95 | with ordered intervals, an entry's interval never shrinks as its last query gets older |
| Transitions.OnQuery | src/contexts/daemon/domain/cache/transition.rs:39-113 | the algorithm gives the new entry, the answer and the refresh the queried entry's state calls for, and touches no other entry |
| Transitions.ColdCountResetIff | src/contexts/daemon/domain/cache/transition.rs:48-74 | a query of a cold entry resets its cold count exactly when the entry is not fresh |
| Transitions.TotalRefreshCost | src/contexts/daemon/domain/cache/transition.rs:235-249 | in any iteration order the saturating total is the clamped true sum |
| Transitions.OnSchedulerTick | src/contexts/daemon/domain/cache/transition.rs:158-233 | in any iteration order the store is the pointwise image of the survivors and every owed effect is listed exactly once |
| DaemonTicks.TickRefreshesIff | src/contexts/daemon/domain/cache/transition.rs:195-230 | a tick outside a backoff refreshes an entry that is not idle exactly when it has an output, is not terminal, holds no lock younger than the timeout, and was fetched its plain interval ago |
| DaemonTicks.NextTickRefreshIff | src/contexts/daemon/domain/cache/transition.rs:208-229 | after a completion with an output, with nothing started since, a tick outside a backoff starts a refresh exactly when the interval has passed, unless the completion was terminal or the entry is idle |
| DaemonTicks.IdleEntryDroppedIff | src/contexts/daemon/domain/cache/transition.rs:179-188 | a tick outside a backoff drops exactly the entries not queried for the maximum age |
| DaemonTicks.TickChanges | src/contexts/daemon/domain/cache/transition.rs:164-230 | what a tick changes in an entry it keeps: the lock, retaken by a refresh and given up after the timeout, and the count of cold refreshes; nothing else |
| DaemonTicks.QueryChanges | src/contexts/daemon/domain/cache/transition.rs:39-113 | what a query changes, by whether the entry is stale, locked, cold and terminal: its answer, the refresh it starts, and every field of its entry; nothing else |
| DaemonTicks.LastQueriedIs | src/contexts/daemon/domain/cache/entry.rs:113-199 | an entry remembers the time of the last query for it in the run |
| DaemonTicks.EntryCost | src/contexts/daemon/domain/cache/transition.rs:235-249 | an entry that ticks refresh costs one call for each pull request and one more, every other nothing |
| DaemonTicks.UnknownQueried | src/contexts/daemon/domain/cache/entry.rs:113-136 | a query for an unknown id makes a loading, locked, warm entry with its directory and branch, backdated when the clock has room, answers "? loading" and starts a refresh |
| DaemonRuns.TickEffectsExact | src/contexts/daemon/domain/cache/transition.rs:176-230 | nothing is listed twice; an expired id disappears and is not refreshed; a refreshed id keeps its own directory |
| DaemonRuns.TickIgnoresMapOrder | src/contexts/daemon/domain/cache/transition.rs:158-233 | two ticks from one store agree on the store and on the effects up to order |
| DaemonRuns.ReachableWellKept | src/contexts/daemon/domain/cache/entry.rs:113-199 | on every reachable store: never waiting for a retry; loading means no output and warm; a lock time exists exactly while refreshing; refreshing is never terminal; the last query is known |
| DaemonRuns.RefreshLock | src/contexts/daemon/domain/cache/transition.rs:61-109 | between two refreshes of one id there is a completion, an expiry, or the lock timeout |
| DaemonRuns.TimedOutLockIsFreedIff | src/contexts/daemon/domain/cache/transition.rs:195-207 | a tick outside a backoff that finds a lock timed out refreshes the entry, or unlocks it for the next query, exactly when the entry has an output |
| DaemonRuns.LostEmptyRefreshNotRetried | src/contexts/daemon/domain/cache/transition.rs:195-207 | a refresh of an entry without output, first load or not, is never retried by a tick or a query before it completes or the entry is dropped |
| DaemonExamples.ClosedBranchStaysLocked | src/contexts/daemon/domain/cache/transition.rs:195-207 | a run under the shipped intervals: all pull requests closed, reopened by a query, the refresh lost, and neither the tick after the timeout nor the next query starts another |
| DaemonRuns.TickSpacing | src/contexts/daemon/domain/cache/transition.rs:195-230 | two scheduled refreshes of one id are at least the lock timeout or the shortest interval apart, whatever happens between |
| DaemonRuns.TickCountBound | src/contexts/daemon/domain/cache/transition.rs:195-230 | hence their number in any window is bounded |
| DaemonRuns.ExpiryNeedsIdle | src/contexts/daemon/domain/cache/transition.rs:179-188 | an entry is dropped only after the maximum age without a query for it |
| DaemonCold.ColdCountGrows | src/contexts/daemon/domain/cache/transition.rs:219-222 | from the first scheduled refresh of a cold entry on, the cold count keeps up with the refreshes while nobody asks for it |
| DaemonCold.ColdSlowsDown | src/contexts/daemon/domain/refresh_policy.rs:106-112 | after as many cold refreshes as the early limit the next waits the late interval, or the lock timeout when shorter |
| DaemonExamples.FreshQueryKeepsColdCount | src/contexts/daemon/domain/cache/transition.rs:48-59 | a run under the shipped intervals whose last query finds a cold entry fresh and leaves its cold count at one |
| DaemonAnswers.CompletionIsServed | src/contexts/daemon/domain/cache/transition.rs:125-142 | until the next completion or the expiry of the entry every query is answered with the completed output, whatever happens to other entries |
| DaemonAnswers.NextRefreshIff | src/contexts/daemon/domain/refresh_policy.rs:97-104 | the first refresh after a completion is started by a query exactly when the time to live is over, or for a terminal entry the warm interval, which makes it warm again; never by a tick for a terminal entry |
| DaemonAnswers.RoomSuffices | src/contexts/daemon/domain/cache/transition.rs:48-110 | every query of a run is answered with the latest completed output, "? loading" before the first, and refreshes run in the directory first asked from |
| DaemonAnswers.AnswersAgreeIffRoom | src/contexts/daemon/domain/cache/entry.rs:113-136 | that holds for all runs from a given time on exactly when the clock has room to backdate new entries |
| DaemonBackoff.QuietTick | src/contexts/daemon/domain/cache/transition.rs:164-174 | a tick before the end of the backoff changes nothing and emits nothing |
| DaemonBackoff.ObservationSets | src/contexts/daemon/domain/cache/transition.rs:262-318 | an observation is stored; it sets the backoff to the bottleneck's reset plus 1.5 seconds exactly when a resource is exhausted or below 5.01 percent and that reset is not past, and announces it exactly when it changes |
| DaemonBackoff.BackoffChanges | src/contexts/daemon/domain/cache/transition.rs:262-318 | the backoff changes only by a tick not before its end or by an exhausted or at most 5 percent observation whose reset is ahead; it is announced exactly when an observation changes it |
| DaemonBackoff.BackoffWindowIsQuiet | src/contexts/daemon/domain/cache/transition.rs:164-174 | after an announced backoff every tick before its end is quiet, unless another is announced first |
| DaemonBackoff.SameSnapshotAgain | src/contexts/daemon/domain/cache/transition.rs:276-318 | seeing the same snapshot later, both clocks advanced equally, the reset still ahead and no tick of a later time in between, announces nothing |
| DaemonActors.EffectsToActionResult | src/contexts/daemon/infrastructure/request_handler.rs:139-163 | the reply carries the last output and the last refresh among the effects |
| DaemonActors.ActionAnswersView | src/contexts/daemon/infrastructure/request_handler.rs:139-163 | a query's reply is its answer, with a refresh exactly when one is started |
| DaemonActors.DaemonStateActor.Process | src/contexts/daemon/infrastructure/request_handler.rs:23-89 | a query or an update is one step of the run; with a clock that fits, a query's reply is the answer the run determines; a stop, a status and a listing leave the store alone, and the listing has the lines of every entry |
| DaemonActors.ListedIff | src/contexts/daemon/infrastructure/request_handler/mapping.rs:4-56 | in any iteration order a line is listed exactly when it shows an entry's directory, branch, age and one of its pull requests, or its output when it has none |
| DaemonActors.DaemonStateActor.HandleTick | src/contexts/daemon/infrastructure/daemon_state_actor.rs:114-131 | a tick command is one step of the run |
| DaemonActors.DaemonStateActor.ApplyRateLimit | src/contexts/daemon/infrastructure/daemon_state_actor.rs:132-137 | a rate-limit command is one step of the run |
| FormatParser.ParseSegments | src/contexts/evaluation/domain/format_parser.rs:58-136 | the loop computes the parse |
| FormatParser.ParsePrints | src/contexts/evaluation/domain/format_parser.rs:58-130 | printing the parse of any string gives the string back |
| FormatParser.ParseWellFormed | src/contexts/evaluation/domain/format_parser.rs:58-130 | no parse has an empty text, adjacent texts or markup hidden in a text; contents stop at their first delimiter; conditionals hold plain text |
| FormatParser.ParseIff | src/contexts/evaluation/domain/format_parser.rs:52-130 | the parse is the only well-formed list of segments that prints as the format |
| FormatParser.ParseInjective | src/contexts/evaluation/domain/format_parser.rs:58-130 | two formats with the same parse are equal |
| Variables.ExtractVarNames | src/contexts/evaluation/domain/display_config/render.rs:71-89 | appends the names of the longest `$name` references, in order |
| Variables.SubstituteVars | src/contexts/evaluation/domain/display_config/render.rs:92-128 | replaces each bound reference once and copies everything else |
| Variables.ReferenceReplaced | src/contexts/evaluation/domain/display_config/render.rs:71-128 | the longest run of letters, digits and underscores after a `$` is replaced once by its first binding, stays when it has none, and what follows is read on its own |
| Variables.LiteralCopied | src/contexts/evaluation/domain/display_config/render.rs:107-125 | text without `$`, and a `$` that starts no name, are copied |
| Variables.SubstituteDependsOnNames | src/contexts/evaluation/domain/display_config/render.rs:71-128 | substitution depends only on the names the other scanner finds |
| Variables.UnboundUnchanged | src/contexts/evaluation/domain/display_config/render.rs:91-128 | a text none of whose names is bound is unchanged |
| Rendering.CollectVarRefs | src/contexts/evaluation/domain/display_config/render.rs:59-69 | the loop collects every reference of the tree in order |
| Rendering.RefsInOrder | src/contexts/evaluation/domain/display_config/render.rs:58-89 | the references of a format are those of its text, those inside its first markup and those of the rest, in that order |
| Rendering.ConditionalEmptyIff | src/contexts/evaluation/domain/display_config/render.rs:40-56 | a parsed conditional renders to nothing exactly when no variable it references has a non-empty value |
| Rendering.CompilePreservesMeaning | src/contexts/evaluation/domain/format_parser.rs:30-50 | compiling once and evaluating equals reading the format on every render |
| Rendering.StyledShown | src/contexts/evaluation/domain/display_config/render.rs:32-42 | after any text, a styled piece shows its content painted in its style, and then the rest |
| Rendering.ConditionalShown | src/contexts/evaluation/domain/display_config/render.rs:40-56 | after any text, a conditional shows its inside exactly when a variable it references has a value that is not empty, and then the rest |
| Rendering.ShippedStatus | src/contexts/evaluation/domain/display_config/defaults.rs:4 | with the shipped format a status shows its symbol, its label and, when there are any, its numbers |
| Rendering.CompiledShape | src/contexts/evaluation/domain/format_parser.rs:39-50 | conditionals hold at most one text and styled content holds nothing styled |
| Rendering.RenderTokenReadsFormat | src/contexts/evaluation/domain/display_config/render.rs:11-17 | a rendered token is what its format says for its symbol, label and pull-request numbers |
| LogRotation.FileSystem.RotateFiles | src/contexts/evaluation/infrastructure/logger.rs:156-171 | every backup moves up by one, the oldest is gone, the active file becomes the first backup |
| LogRotation.RotatingLogWriter.Open | src/contexts/evaluation/infrastructure/logger.rs:94-106 | opening keeps the files found, rotating once when the active one is over the limit |
| LogRotation.RotatingLogWriter.Rotate | src/contexts/evaluation/infrastructure/logger.rs:114-122 | drops the oldest file and starts an empty one |
| LogRotation.RotatingLogWriter.Write | src/contexts/evaluation/infrastructure/logger.rs:126-145 | the accepted bytes go whole into one file; the exact number of rotations; one oldest file dropped for each; size tracked and within the limit; backups made by writes fit or hold one write |
| LogRotation.KeptIsSuffix | src/contexts/evaluation/infrastructure/logger.rs:86-171 | the files, oldest first, are a suffix of everything ever logged |
| PromptOutput.SanitizeOutput | src_prompt/main.rs:37-73 | the two nested loops compute the sanitized string |
| PromptOutput.SanitizeByCharacter | src_prompt/main.rs:37-80 | what becomes of a printable character, a control character, a lone ESC, a sequence that ends in `m` or otherwise, and one that does not end |
| PromptOutput.UnchangedIffClean | src_prompt/main.rs:23-73 | exactly the concatenations of allowed characters and colour sequences come out unchanged |
| PromptOutput.SanitizeIdempotent | src_prompt/main.rs:23-73 | every output is such a concatenation, so sanitizing twice is sanitizing once |
| PromptOutput.CleanPrefixPasses | src_prompt/main.rs:43-59 | a clean beginning passes through and does not affect what follows |
| PromptOutput.PromisedIff | src_prompt/main.rs:23-73 | the output holds nothing but allowed characters and colour sequences exactly when every kept sequence has parameter bytes, then intermediate bytes, then `m` |
| PromptOutput.OutputIsSubsequence | src_prompt/main.rs:37-73 | nothing is added or reordered |
| PromptOutput.WithoutEscape | src_prompt/main.rs:66-80 | a string without ESC loses its control characters and nothing else |
| PromptClient.ReadResponse | src_prompt/main.rs:152-182 | however the stream is cut into reads, the reply is the one the whole stream carries, and less than one chunk is read beyond the limit |
| PromptClient.ResponseByNewline | src_prompt/main.rs:143-182 | the reply in terms of the first newline, the cap and the way the stream ends |
| Startup.EndsBy | src/contexts/daemon/infrastructure/socket_listener.rs:49-112 | how a process comes to each of its four ends, and what it leaves behind |
| Startup.OneListener | src/contexts/daemon/infrastructure/socket_listener.rs:43-82 | from binding until clean-up a process listens alone and the socket path leads to it |
| Startup.TurnedAwayIff | src/contexts/daemon/infrastructure/socket_listener.rs:49-59 | a starter is turned away exactly when the daemon whose pid it read serves or is shutting down, and goes on only when nobody is published |
| Startup.ServingIsSeen | src/contexts/daemon/infrastructure/socket_listener.rs:49-55 | while a daemon serves, a starter reads its pid and is turned away |
| Startup.BindNeverBusy | src/contexts/daemon/infrastructure/socket_listener.rs:56-70 | under the lock the socket path is free when a starter binds |
| Startup.NoStaleFileBlocks | src/contexts/daemon/infrastructure/socket_listener.rs:50-82 | whatever crashes left behind, a new starter can still come to serve |
| Startup.SafeIffSingleCleanup | src/contexts/daemon/infrastructure/restart.rs:10-17 | at most one process serves, named by the pid file, in every reachable state exactly when no daemon cleans up twice |
| Startup.SafeIffHarmless | src/contexts/daemon/infrastructure/restart.rs:10-17 | a run with repeated clean-ups is safe in every state, and stays so whatever the processes do until one cleans up again, exactly when no repeated removal takes the socket of a process that listens or the pid file of one that is published |
| Startup.SecondCleanupBreaks | src/contexts/daemon/infrastructure/connection.rs:63-67 | with a second clean-up two daemons can serve at once |
| Startup.BusyAddress | src/contexts/daemon/infrastructure/socket_listener.rs:85-112 | a starter that finds the address in use eleven times gives up, as another daemon is running |
| Startup.BindWithRetry | src/contexts/daemon/infrastructure/socket_listener.rs:85-112 | the first attempt that does not find the address in use decides; otherwise it gives up after one more than the retry limit |
| StatusGrouping.GivenShows | src/contexts/evaluation/domain/prompt/pull_request/state.rs:23-46 | a state that evaluation gives shows at least one status and none twice |
| StatusGrouping.EvaluatedShowsIff | src/contexts/evaluation/application/prompt/display_item.rs:23-60 | which of the twelve statuses an evaluated pull request shows, by its branch, its checks, its reviews and whether it is ready |
| StatusGrouping.GroupByDisplayItem | src/contexts/evaluation/interface/prompt.rs:107-119 | one group for each status in first-seen order, with exactly its pull requests in input order |
| StatusGrouping.GroupsAreTheInverse | src/contexts/evaluation/interface/prompt.rs:102-119 | group keys are distinct and a pull request is in a group exactly when it has that status |
| StatusGrouping.GroupingConserves | src/contexts/evaluation/interface/prompt.rs:102-119 | groups and rows hold the same pairs, counted |
| StatusGrouping.EveryPullRequestAppears | src/contexts/evaluation/interface/prompt.rs:43-119 | every pull request appears in a group of one of its statuses, and every group is strictly ascending |
| Prompts.Render | src/contexts/evaluation/interface/prompt.rs:21-105 | the text, the refresh mode and one watch line for each pull request by number, for every kind of prompt and for an error |
| Prompts.ModeIff | src/contexts/evaluation/interface/prompt.rs:44-63 | the mode is hot exactly while a pull request is not evaluated or has a check running, terminal exactly when none is open |
| Prompts.TwoPullRequests | src/contexts/evaluation/interface/prompt.rs:65-84 | two pull requests show a shared status once with both numbers, the lower first, and different ones one after the other |
| Prompts.DecimalReads | src/contexts/evaluation/interface/prompt.rs:121-127 | the numbers are written in decimal without a leading zero |
| Prompts.SinglePullRequest | src/contexts/evaluation/interface/prompt.rs:43-92 | the prompt of a single pull request is its watch line |
| Prompts.PrNumbersInjective | src/contexts/evaluation/interface/prompt.rs:121-127 | the numbers of a group can be read back from their text |
| Prompts.TextsReadFormats | src/contexts/evaluation/interface/prompt.rs:64-100 | both texts are what the formats say, although those were compiled when the configuration was loaded |
| Prompts.OtherTextsReadFormats | src/contexts/evaluation/interface/prompt.rs:33-91 | so are the text without a pull request and that of an error |
| CiAggregation.CiFromNode | src/contexts/evaluation/infrastructure/gh.rs:125-147 | in any iteration order the result is the most urgent state among the latest run of each check |
| CiAggregation.StateByOutcome | src/contexts/evaluation/infrastructure/gh/schema.rs:157-180 | failed as soon as the latest run of some check failed, timed out, could not start or was cancelled; else in need of action as soon as one asks for it; else running while one is not done |
| CiAggregation.LaterCounts | src/contexts/evaluation/infrastructure/gh.rs:133-143 | of two contexts of one check the later alone counts, the first on equal time stamps; contexts of two checks both count |
| CiAggregation.OrderIsIrrelevantIff | src/contexts/evaluation/infrastructure/gh.rs:133-143 | the result is the same for every order, and then depends only on which contexts there are, exactly when for every most recent run that can decide it some check is as urgent whichever of its tied runs counts |
| CiAggregation.UnknownIsIrrelevant | src/contexts/evaluation/infrastructure/gh.rs:136 | a context of an unknown kind changes nothing |

## Left out

- Sockets, tokio tasks and channels, signals, the socket watcher, subprocesses and GitHub fetching; of the actor only the order of its commands is kept.
- Percent-encoding, error classification and configuration parsing, which work on one value at a time.
- The watch table; of it only the listing the daemon sends is modelled.
- The stop of daemons of other versions, and time-outs while waiting for them.
- JSON and TOML decoding, style strings, colour tables and ANSI painting, which stay arbitrary functions.
- Moving the entries out of the store and back (`take_entries`), which only saves a copy.
- Startup.Act: the steps of one process are atomic transitions of a shared state rather than a class, because the processes interleave.
- LogRotation.RotatingLogWriter.Write: file operations other than a short write are taken to succeed, and one process writes the log.
- Overflow of `Instant` additions, which would stop the daemon; instants are unbounded above.

# Verified model of pr-reviewer-ai

A Dafny model of the parts of pr-reviewer-ai that are state machines or text
transformations, with proofs of what they promise. The modules follow the source:

| file | what it models |
|---|---|
| `SlidingWindow.dfy`, `RateLimiter.dfy` | the sliding-window rate limiter: the Redis script, the wrapper with its failure modes, the routes and headers |
| `EventKey.dfy`, `DedupGate.dfy`, `Polling.dfy` | the background worker: its dedup key, its memory of handled events, and polling with overlapping windows |
| `Hunks.dfy`, `Compression.dfy` | splitting a unified diff into hunks and shrinking it for a prompt |
| `DiffFiles.dfy`, `Pagination.dfy` | printing a merge request's file diffs, fetching them page by page, and reading the added lines back |
| `Libraries.dfy` | the list of libraries a diff uses, and the in-place dedupe |
| `Session.dfy`, `SessionInterleaving.dfy`, `SessionFreshness.dfy`, `SessionRuns.dfy` | the Redis session cache in front of the user tables: handlers one at a time with expiry inside them, requests overlapping query by query, what the cache then holds against the store, and runs that go wrong |
| `Registry.dfy`, `Pipeline.dfy` | provider failover with daily quotas under concurrency; the parallel analyses and their merge |
| `Sanitizer.dfy` | replacing custom terms before a prompt leaves the process |
| `Text.dfy`, `Decimal.dfy`, `Updates.dfy` | the string functions and number printing the others need, and values that change by updates |

Conventions. A Go string is a sequence of bytes, so one `char` stands for one byte.
Objects whose methods update fields are classes (`Limiter`, `Worker`, `Server`,
`Registry`, `ParallelResult`, `Sanitizer`); their methods are proved equal to functions
on values, and the theorems over whole runs are about those functions. Clock readings,
replies of other systems, cache expiry and the visiting order of Go maps are parameters.
Retry-After is the header of section 10.2.3 of RFC 9110, and a denial is the status 429 of
section 4 of RFC 6585.

Where the code and its documentation differ, the model follows the code:

- `README.md` of the repository says that the worker tracks a `last_event_id` to process each
  event exactly once. The code keeps a map of recent keys instead; `Polling.ExactlyOnce`
  gives conditions under which that is exactly once, and `Polling.HandlingBoundIsTight`
  shows that the handling bound cannot be relaxed.
- The comment at `internal/cache/session.go:141` wants no incomplete hash to be created;
  `SessionFreshness.BareExactlyWhenUpdateFoundHashGone` says exactly when one is there, be it
  after an expiry or after a logout.
- The comment at `internal/llm/sanitizer.go:68` announces `[REDACTED]`; the code inserts
  `[PROPRIETARY]`.
- The provider's `FetchDiff` is meant to read all pages; `Pagination.FetchEndsExactlyOnOnePage`
  shows that it never ends when there is more than one.

Properties that do not hold of the code in full are stated with their exact condition, and a
lemma with a concrete input or run shows that the other side is reached:

| property | holds exactly when | fails in |
|---|---|---|
| a reply's count is the size of the set | `RateLimiter.CountIsOffExactlyWhenNameIsTaken` | `RateLimiter.ClockSteppingBackOverwrites` |
| a dedup key names one event | `EventKey.AmbiguousExactlyWhenFencedNumber` | `EventKey.TwoEventsShareAKey` |
| compression keeps every changed line | `Compression.AllChangesPreservedExactlyWhenNoMarker` | `Compression.IncrementIsLost` |
| added lines are conserved | `DiffFiles.LinesConservedExactlyWhenNoClash` | `DiffFiles.ShadowedLineIsLost` |
| no library is lost | `Libraries.LostExactlyWhenLeafMissing` | `Libraries.LibraryWithNewlineIsLost` |
| the stored credentials are served, one request at a time | `Session.ServedConfigIsStored` | `Session.StaleAfterReRegistration` |
| the same, whatever overlaps | `SessionFreshness.ServedConfigIsStoredExactlyWhenNotOvertaken` | `SessionRuns.LateLoginIsReached` |
| a served token and URL were stored together | `SessionFreshness.PairWasStoredTogetherExactlyWhenUrlWasKept` | `SessionRuns.ReadsCanMixRegistrations`, `SessionRuns.MixedPairIsReached` |
| no hash is without credentials | `SessionFreshness.BareExactlyWhenUpdateFoundHashGone` | `Session.IncompleteHashIsReached`, `SessionRuns.BareHashIsReachedByLogout` |
| reviews run for the stored project, whatever overlaps | `SessionFreshness.ReviewIsStoredExactlyWhenNotOvertaken` | `SessionRuns.LostUpdateIsReached` |
| the merge does not depend on scheduling | `Pipeline.RunDeterministicExactlyWithoutRepeats` | `Pipeline.RepeatedTaskDependsOnOrder` |
| a term is eliminated | `Sanitizer.EliminatedExactlyWhenItCannotSurvive` | `Sanitizer.BracketedTermCanSurvive` |
| a list of terms is, those before the last being apart from the placeholder | `Sanitizer.LastTermDecides` | `Sanitizer.ListWithSurvivorFails` |
| the fallback prompt shows no term anew | `Sanitizer.SomeFallbackShowsExactly` | `Sanitizer.TaskIsShown` |

## Model

| member | source | states |
|---|---|---|
| SlidingWindow.GreedyIsSafe | internal/ratelimit/limiter.go:57-71 | over any non-decreasing run of requests, every instant (not only request times) sees at most `limit` admissions in the window ending there |
| SlidingWindow.DeniedExactlyWhenFull | internal/ratelimit/limiter.go:60-71 | a request is denied exactly when the window ending at it already holds `limit` admissions |
| SlidingWindow.GreedyIsOptimal | internal/ratelimit/limiter.go:51-72 | no other choice of requests that keeps the limit in every window admits more of them, in any prefix of the run |
| RateLimiter.NamesAreDistinct | internal/ratelimit/limiter.go:64-66 | with a clock that never steps back no two admissions of a key's whole history share a sorted-set member, same-millisecond ones included |
| RateLimiter.ScriptRefines | internal/ratelimit/limiter.go:51-72 | one execution of the script on a set holding the live history takes the plain rule's decision, returns the exact count and leaves exactly the new live history |
| RateLimiter.LapseIsTransparent | internal/ratelimit/limiter.go:67 | a key dropped at its PEXPIRE time held no admission that could still count |
| RateLimiter.RunRefines | internal/ratelimit/limiter.go:51-72 | over any run, with keys lapsing whenever they may, every reply is the one the plain rule prescribes, count included |
| RateLimiter.ScriptIsSafeAndOptimal | internal/ratelimit/limiter.go:51-72 | the script's own verdicts over a run keep the limit in every window and admit at least as many requests as any rival choice, in every prefix |
| RateLimiter.ExpiryChangesNothing | internal/ratelimit/limiter.go:67 | two runs with the same request times and different key expiries give the same replies |
| RateLimiter.CountIsOffExactlyWhenNameIsTaken | internal/ratelimit/limiter.go:57-71 | over any run, with clock readings in any order and the key dropped at any time, a reply's count is not the size of the set exactly when the request is admitted and a still live admission of the same millisecond had been given that count |
| RateLimiter.ClockSteppingBackOverwrites | internal/ratelimit/limiter.go:63-68 | a concrete run in which the clock steps back: a reply counts 3 while the set holds 2 |
| RateLimiter.RemainingIsExact | internal/server/middleware.go:209-219 | after any reply, precisely as many further requests of the same millisecond are admitted as the Remaining header says |
| RateLimiter.RetryAfterSuffices | internal/ratelimit/limiter.go:136-140 | waiting the Retry-After time after a denial, with no admission in between, is enough; it lies in [window, window + 1 s) |
| RateLimiter.RouteLetsThrough | internal/server/middleware.go:125-189 | over any run of one key, whichever calls fail and whether or not their scripts ran, exactly these requests reach the handler: the answered ones that find fewer than `limit` admissions in the window among the scripts run before, and on a route that fails open those whose call failed |
| RateLimiter.RouteBound | internal/server/middleware.go:125-189 | with every call answered or failing, by timeout or by another error, after the script ran or without it, fail-closed routes never let more than `limit` through in a window, and fail-open routes at most as many more as calls got no reply |
| RateLimiter.AnsweredCall | internal/ratelimit/limiter.go:132-147 | an answered call carries no error and the caller's limit; it admits exactly when fewer than `limit` admissions are in the window, counts them exactly, and asks for a wait of nothing exactly when it admits, else of the window rounded up to seconds |
| RateLimiter.WaitingAsToldSuffices | internal/ratelimit/limiter.go:136-147 | after a denial a request made once the wait named in the result is over is admitted, if nothing was admitted in between, however many were denied |
| RateLimiter.ResultCountsDown | internal/server/middleware.go:209-219 | exactly as many requests of the same millisecond are admitted next as the result's limit exceeds its count |
| RateLimiter.FailedCall | internal/ratelimit/limiter.go:120-130 | the result and error of each of the three branches, and that the bucket changes only if the script ran |
| RateLimiter.PassesExactly | internal/server/middleware.go:125-189 | an answered request reaches its handler exactly when admitted, one whose call failed exactly on a route that fails open |
| RateLimiter.KeysDoNotCollide | internal/ratelimit/limiter.go:30-36 | auth and API keys, spelt out, never coincide, and equal keys mean equal identifiers |
| RateLimiter.Limiter.RunScript | internal/ratelimit/limiter.go:51-72 | the in-place script: reply and new bucket are those of the modelled execution, no other key changes |
| RateLimiter.Limiter.Allow | internal/ratelimit/limiter.go:101-148 | result, error and new bucket for every fate of the call, the failing ones written out: a reply, or a timeout or other error with the script run or not; no other bucket changes |
| RateLimiter.Limiter.AllowAuthIP | internal/ratelimit/limiter.go:156-158 | limit 5 in 900 s per address; a wait of 900 s with a denial and of nothing else; every failed call is an error and no admission; all API buckets and other addresses are untouched |
| RateLimiter.Limiter.AllowAPI | internal/ratelimit/limiter.go:162-164 | limit 100 in 60 s per identifier; a wait of 60 s with a denial and of nothing else; a timeout admits without an error; all auth buckets and other identifiers are untouched |
| EventKey.KeyInjective | internal/agent/worker.go:118 | events whose action and title hold no colon have equal keys exactly when they are equal, whatever the bodies |
| EventKey.AmbiguousExactlyWhenFencedNumber | internal/agent/worker.go:118 | an event with a colon-free action shares its key with a different such event exactly when its title holds `:n` before a colon or the end, or its body holds `n:` at the start or after a colon |
| EventKey.TwoEventsShareAKey | internal/agent/worker.go:118 | two different comments whose keys are equal |
| DedupGate.MemoryMirrorsHistory | internal/agent/worker.go:120-134 | over any run in time order the map holds exactly the keys dispatched within ten minutes of the latest dispatch, each with its dispatch time |
| DedupGate.PassesExactlyWhenForgotten | internal/agent/worker.go:120-134 | an event passes exactly when its key was never dispatched or some dispatch came more than ten minutes after the key's last one; the present time plays no part |
| DedupGate.EntriesAreRecent | internal/agent/worker.go:126-133 | after a dispatch every entry is at most ten minutes old |
| DedupGate.OneDispatchWithinKeep | internal/agent/worker.go:116-134 | all appearances of a key within ten minutes give one dispatch together, whatever else is handled |
| DedupGate.Worker.CleanUp | internal/agent/worker.go:126-132 | the loop deletes exactly the entries older than ten minutes |
| DedupGate.Worker.HandleEvent | internal/agent/worker.go:116-164 | the new map, which holds the new key and of the old ones those not more than 600 000 000 000 ns old; a duplicate exactly when its key is in the map; otherwise a review is asked for exactly by a comment whose body holds "review", and actions other than comments, openings and updates are ignored |
| DedupGate.Worker.HandleAll | internal/agent/worker.go:110-112 | handling a batch is the fold of the gate over it |
| Polling.FetchRecentEvents | internal/git/gitlab.go:72-131 | the k-th result carries the action, title and IID of the k-th listing created at or after `since`, and the note's body exactly when the target is a note; no result exactly when one of them has no note, whose identifiers are dereferenced |
| Polling.ExactlyOnce | internal/agent/worker.go:90-134 | over any run in time order, however long, an event with a key of its own passes the gate exactly once, if a poll follows it within five minutes, the polls within five minutes of it list it, and what is selected under its key is handled within five minutes of the poll |
| Polling.ExactlyOnceByContent | internal/agent/worker.go:90-134 | the same for an event whose listed action, title, IID and text no other selected event of its user shares, without a fenced number in title and text: nothing is assumed about keys |
| Polling.CommentsDifferingInTextBothPass | internal/git/gitlab.go:109-121 | two comments on one merge request that differ in their text alone have different keys and are both dispatched, each once |
| Polling.HandlingBoundIsTight | internal/agent/worker.go:98-134 | one nanosecond beyond the handling bound an event can pass twice |
| Hunks.ParseHunks | internal/llm/rag_imports.go:315-339 | the loop yields the recursively specified hunks |
| Hunks.HunksPartition | internal/llm/rag_imports.go:306-339 | the full contents of the hunks, joined, are the input from its first `@@ ` line on, and no hunk body holds such a line |
| Hunks.HeaderStarts | internal/llm/rag_imports.go:320 | a line opens a hunk exactly when it starts with two at signs and a blank |
| Hunks.ParseInvertsFlatten | internal/llm/rag_imports.go:306-339 | parsing the printed form of well-formed hunks gives them back |
| Hunks.ParseIsStable | internal/llm/rag_imports.go:306-339 | parsing what the parser kept gives the same hunks |
| Hunks.FuncNameIsTrimmedTail | internal/llm/rag_imports.go:326-330 | in a header `@@ range @@ tail` the function name is the trimmed tail; without a second marker there is none |
| Compression.SmartDiffPreprocessing | internal/llm/rag_imports.go:246-273 | every hunk with one of the 26 words in its header or a line, in any mix of case, whole, and of the others the name line, the header and the changed lines; joined, cut to the budget, never longer than 4·maxTokens + 44 bytes |
| Compression.CompressHunks | internal/llm/rag_imports.go:250-260 | the loop gives, hunk by hunk in order, a sensitive hunk whole and of any other the name line, the header and the changed lines that do not start with three signs |
| Compression.RiskyExactlyWhenSensitive | internal/llm/rag_imports.go:341-357 | searching the joined hunk in lower case finds a keyword exactly when its header or one of its lines holds one of the 26 words in some mix of case |
| Compression.DeltaPreserved | internal/llm/rag_imports.go:246-304 | unless cut, the output has the hunk headers and the changed lines of the input from its first hunk on (changed lines starting with three signs aside), in the same order, for every way of telling sensitive hunks |
| Compression.CutKeepsFirstChanges | internal/llm/rag_imports.go:262-273 | when the text is cut, the headers and changed lines of its whole lines are still the first ones of the input; one line cut short and the notice follow |
| Compression.AllChangesPreservedExactlyWhenNoMarker | internal/llm/rag_imports.go:291-304 | all lines starting with + or - survive exactly when no hunk outside the sensitive ones has such a line starting with +++ or --- |
| Compression.IncrementIsLost | internal/llm/rag_imports.go:291-304 | a hunk that only adds `++i` is not sensitive, and compression drops its only changed line |
| Compression.RiskyVerbatim | internal/llm/rag_imports.go:252-260 | a sensitive hunk comes through whole between the outputs of its neighbours |
| Compression.PromptDiff | internal/llm/rag_imports.go:213-217 | diffs within 8000 tokens go out unchanged, others compressed, never more than 32044 bytes |
| DiffFiles.ParseDiffFiles | internal/llm/rag_imports.go:116-142 | the loop yields the specified map |
| DiffFiles.PrintParseRoundTrip | internal/gitlab/merge_requests.go:77-83 | reading printed diffs back gives each named path its added lines, the last diff of a path winning |
| DiffFiles.PrintedNext | internal/gitlab/merge_requests.go:77-83 | the printed text spelt out: each file adds its `--- a/` line, its `+++ b/` line and its body, every one of them ended by a newline |
| DiffFiles.DistinctPathsRoundTrip | internal/llm/rag_imports.go:116-142 | parsing printed diffs with distinct paths, every named file with additions is found under its path with exactly its added lines, and no other |
| DiffFiles.LinesConservedExactlyWhenNoClash | internal/agent/reviewer.go:88-97 | the parsed files hold as many lines as the analyser counts as added exactly when no diff with additions lacks a path or is shadowed by a later one |
| DiffFiles.ShadowedLineIsLost | internal/agent/reviewer.go:88-97 | two diffs of one path: two lines are counted as added and one is read back |
| DiffFiles.Analyse | internal/agent/reviewer.go:88-97 | the counters are the numbers of added and removed lines |
| DiffFiles.SignDecides | internal/agent/reviewer.go:90-97 | a line counts as added or removed exactly when it starts with the sign and not with three of them |
| Pagination.GetDiff | internal/gitlab/merge_requests.go:40-67 | following the next-page links ends and collects all items of all pages in order |
| Pagination.GetDiffUnified | internal/gitlab/merge_requests.go:71-84 | the text is the printed form of all pages' items |
| Pagination.FetchEndsExactlyOnOnePage | internal/git/gitlab.go:38-55 | the provider's loop, which never turns the page, ends exactly on single-page listings, and then agrees with GetDiffUnified |
| Pagination.FetchRepeatsFirstPage | internal/git/gitlab.go:38-55 | on longer listings its buffer after k rounds is the first page k times |
| Libraries.Dedupe | internal/llm/rag_imports.go:545-559 | in place: the front becomes the first occurrences of the trimmed non-empty strings, the rest of the array is as it was |
| Libraries.FirstOccurrencesAreASet | internal/llm/rag_imports.go:545-559 | nothing missing, nothing repeated |
| Libraries.TruncatedHasThreeSegments | internal/llm/rag_imports.go:148-154 | at most three segments remain and truncating again changes nothing |
| Libraries.TruncatedIsPrefix | internal/llm/rag_imports.go:148-154 | truncation takes a prefix of the path |
| Libraries.TruncatedToThree | internal/llm/rag_imports.go:148-154 | of a path with more than three segments exactly the first three stay, a shorter one is kept |
| Libraries.FlattenLibraries | internal/llm/rag_imports.go:187-197 | the nested loops give the first occurrences of the truncated libraries |
| Libraries.IntersectWithDiff | internal/llm/rag_imports.go:160-170 | the loop keeps the libraries the diff mentions, in order |
| Libraries.ActiveLibraries | internal/llm/rag_imports.go:182-200 | the list handed on is the mentioned part of the flattened list, for any visit of the files |
| Libraries.MentionsExactlyByLeaf | internal/llm/rag_imports.go:163-165 | matching the full path adds nothing to matching the leaf name |
| Libraries.ParsedTextIsFromDiff | internal/llm/rag_imports.go:116-142 | every newline-free part of a parsed file's text occurs in the diff |
| Libraries.NoLibraryLost | internal/llm/rag_imports.go:182-200 | if extractors give substrings of the text and leaf names hold no newline, the intersection keeps the whole list |
| Libraries.LostExactlyWhenLeafMissing | internal/llm/rag_imports.go:160-170 | in general a library is lost exactly when its leaf name does not occur in the diff |
| Libraries.LibraryWithNewlineIsLost | internal/llm/rag_imports.go:160-200 | a Go file that adds an import path broken over two lines between its quotes: the pattern for quoted paths gives one library, with a newline in its leaf, and the intersection drops it |
| Libraries.VisitOrderDoesNotMatter | internal/llm/rag_imports.go:187-197 | the flattened list is the same multiset whichever way the map of files is visited |
| Session.RunIsConsistent | internal/cache/session.go:138-151 | over any run of register, login, logout, project update and expiry, also inside an update, every cached project is the stored one, cached users have token rows, and hashes are whole or hold no credentials |
| Session.ReviewProjectIsStored | internal/server/server.go:220-236 | after any run a review resolves the project the store alone would give, whenever the session expires |
| Session.ReviewWithoutProject | internal/server/server.go:220-236 | over any run in which a user sets no project, a review of that user runs for the project it names itself; naming none it is refused |
| Session.UpdatedProjectIsReviewed | internal/server/server.go:295-321 | a project set by its user is the one reviews then run for, with the session expiring before, inside or after the update |
| Session.RegistrationIsStored | internal/repository/postgres/token_repo.go:31-66 | a registration is what the store then serves for its user; the project, all other users and the cache stay as they were |
| Session.RequestStoresItsFields | internal/auth/service.go:65-100 | a request whose fields are a user name, password and token between blanks and a URL with slashes after it between blanks is refused, changing nothing, exactly when one of these is empty or GitLab refuses; else the store serves exactly this token, URL and GitLab id to the user of that name |
| Session.EveryRequestHasFields | internal/auth/service.go:66-69 | every request has fields of this form |
| Session.ServedConfigIsStored | internal/server/server.go:183-206 | after any run the stored credentials are served exactly when no registration has overtaken the session since it was last written or gone, or the session expires before one of the three reads |
| Session.StaleAfterReRegistration | internal/server/server.go:97-115 | the run register, log in, register with other credentials: the first ones are served while the second are stored |
| Session.IncompleteHashIsReached | internal/cache/session.go:138-151 | a run from the empty system in which the session expires between an update's existence test and its write, and a hash with the project alone and no TTL is left |
| Session.Server.HandleRegister | internal/server/server.go:97-115 | the new store and cache for every request and whether it is answered as created |
| Session.Server.RegisterUser | internal/repository/postgres/token_repo.go:33-66 | find-then-create-or-update of the user and the token row |
| Session.Server.UpsertToken | internal/repository/postgres/token_repo.go:142-167 | token and URL replaced or a row created; the project of an existing row is kept |
| Session.Server.HandleLogin | internal/server/server.go:131-162 | the session is written from the store's values when token and URL are readable |
| Session.Server.HandleLogout | internal/server/server.go:170-179 | exactly the user's session goes |
| Session.Server.HandleUpdateProject | internal/server/server.go:295-321 | store and cache after the update, with expiry before and between its cache commands; non-positive projects are refused |
| Session.Server.ResolveProject | internal/server/server.go:220-231 | the project used and the cache left, with the session expiring before the read or not |
| Session.Server.GetUserGitConfig | internal/server/server.go:183-206 | the configuration served with expiry before any of the three reads |
| SessionInterleaving.ConfigIsOwned | internal/server/server.go:183-206 | however requests overlap, query by query, and whenever the up to six reads happen, a served token and URL are each that of an earlier accepted registration by this user, found among the moves |
| SessionFreshness.ProjectIsStoredExactlyWhenNotOvertaken | internal/server/server.go:295-321 | over any interleaving of queries the project in the cache is the stored one exactly when the user's last update, if it named another project, was stored before the request that last wrote the cache had read or stored its project |
| SessionFreshness.ReviewIsStoredExactlyWhenNotOvertaken | internal/server/server.go:220-231 | so a review that names no project, reading the cache and later the store anywhere in a run, runs for the project stored at its second read unless it found an overtaken one in the cache |
| SessionFreshness.CredentialsAreStoredExactlyWhenNotOvertaken | internal/server/server.go:147-161 | over any interleaving the cached token is the stored one exactly when the user's last registration since the login read it, if any, registered the same; so are the URL and the GitLab id, each since its own read |
| SessionFreshness.ServedConfigIsStoredExactlyWhenNotOvertaken | internal/server/server.go:183-206 | so the stored configuration is served exactly when none of the cached credentials has been overtaken, or the session expires before one of the reads |
| SessionFreshness.PairWasStoredTogetherExactlyWhenUrlWasKept | internal/server/server.go:183-206 | wherever the up to six reads happen, the served URL was stored when the served token was read exactly when the user's last registration between the readings of the two, if any, kept the URL |
| SessionFreshness.BareExactlyWhenUpdateFoundHashGone | internal/cache/session.go:138-151 | over any interleaving the cache holds a hash without credentials exactly when an update that had tested for the session found it gone at its write and neither a login's write nor a logout of the user came since; such a hash has no TTL |
| SessionInterleaving.LoginAlone | internal/server/server.go:131-162 | the queries of a login, made without interruption, are the login of serial runs |
| SessionInterleaving.UpdateAlone | internal/cache/session.go:138-151 | so are those of an update, with the session expiring before its test and before its write |
| SessionRuns.UpdateDuringLoginIsLost | internal/server/server.go:147-161 | from any state, an update between a login's reads and its write leaves reviews running for the old project |
| SessionRuns.LostUpdateIsReached | internal/server/server.go:147-161 | a run from the empty system in which that happens |
| SessionRuns.LogoutLeavesBareHash | internal/server/server.go:170-179 | from any state with a session, a logout between an update's test and its write leaves a hash with the project alone, though nothing expired |
| SessionRuns.BareHashIsReachedByLogout | internal/server/server.go:170-179 | a run from the empty system in which that happens |
| SessionRuns.MixedPairIsCached | internal/server/server.go:147-161 | a registration between a login's reads of token and URL puts the old token beside the new URL into the cache, from where both are served |
| SessionRuns.MixedPairIsReached | internal/server/server.go:147-161 | a run from the empty system in which that happens |
| SessionRuns.LateLoginServesOld | internal/server/server.go:147-161 | a registration between a login's reads and its write: the old credentials are served while the new ones are stored |
| SessionRuns.LateLoginIsReached | internal/server/server.go:147-161 | a run from the empty system in which that happens |
| SessionRuns.ReadsCanMixRegistrations | internal/server/server.go:186-191 | separate reads around a second registration and login serve the token of the one with the URL of the other |
| Registry.Registry.Attempt | internal/llm/registry.go:71-94 | records, answer and calls of the failover loop |
| Registry.Registry.Active | internal/llm/registry.go:58-68 | exactly the providers whose record is missing or 24 hours old, in order |
| Registry.AttemptCallsExactlyWhenDue | internal/llm/registry.go:71-105 | with the clock moving between checks and marks: an attempt calls, in order, exactly the positions it reaches whose provider has no mark or one at least 86 400 000 000 000 ns before the check, its own earlier marks included; the one call that is no quota hit gives the answer, without one all are reported exhausted; and the last marks are left in the records |
| Registry.AttemptMeetsPromise | internal/llm/registry.go:71-94 | with the clock still: the first provider, not exhausted and not listed earlier, whose call is no quota hit decides; calls go to such providers up to it and to no other, and exactly those before it are marked |
| Registry.AllExhaustedExactlyWhenNoneActive | internal/llm/registry.go:58-94 | an attempt reports all providers exhausted exactly when it leaves none active |
| Registry.NoneActiveMeansNoCall | internal/llm/registry.go:58-94 | with none active an attempt gives up without a call and without changing a record |
| Registry.CalledExactlyOutsideWindow | internal/llm/registry.go:71-127 | in any interleaving of attempts, a provider whose record was read is called exactly when no mark made before the read, by any attempt, is less than 24 h old |
| Registry.RecordsNeverGoBack | internal/llm/registry.go:122-127 | no move of any attempt shortens a provider's window |
| Registry.AttemptAlone | internal/llm/registry.go:71-127 | the moves of an attempt that no other interrupts, from any state and any position on, call what the loop calls, leave the records it leaves and end the attempt |
| Registry.StartedAttemptAlone | internal/llm/registry.go:71-127 | the same for a whole attempt |
| Pipeline.Orchestrate | internal/llm/orchestrator.go:11-40 | the known tasks of the plan in order, or all four |
| Pipeline.ChosenTasksAreTasks | internal/llm/orchestrator.go:20-37 | something is always run, and only known tasks are: those of the plan if it has any, else the four in their fixed order |
| Pipeline.ValidTasksInOrder | internal/llm/orchestrator.go:27-32 | the known tasks of a plan keep its order and their repeats |
| Pipeline.ConfluentExactlyWithoutConflict | internal/llm/pipeline.go:55-111 | every order of completion merges to the same result exactly when no two successful runs of one task differ |
| Pipeline.DeterministicExactlyWithoutRepeats | internal/llm/pipeline.go:67-103 | a list of known tasks merges alike in every order of completion, whatever the analyses return, exactly when no task is listed twice |
| Pipeline.ParallelResult.Complete | internal/llm/pipeline.go:69-101 | a success writes its own field, a failure nothing |
| Pipeline.Run | internal/llm/pipeline.go:31-119 | the tasks that were chosen, the context that the reply gives (the parsed one if it is valid, the raw reply if not, the dependency list without a reply, none when cancelled), and in each of the four fields what a successful run of its own task returned, if there was one |
| Pipeline.RunDeterministicExactlyWithoutRepeats | internal/llm/pipeline.go:31-119 | plan and results settle the outcome of a run, in whatever order the analyses complete, exactly when the chosen list has no repeat |
| Pipeline.RepeatedTaskDependsOnOrder | internal/llm/pipeline.go:67-103 | with the review listed twice the one that completes last is reported |
| Pipeline.FailsExactlyWhenCancelledAndAllFailed | internal/llm/pipeline.go:34-43 | a run fails exactly when it was cancelled before its first stage and every task failed |
| Sanitizer.Sanitizer.AddCustomTerms | internal/llm/sanitizer.go:71-74 | terms are appended in order |
| Sanitizer.Sanitizer.Sanitize | internal/llm/sanitizer.go:77-87 | the rules, then the terms one after the other |
| Sanitizer.ReplaceKeepsTheRest | internal/llm/sanitizer.go:83-85 | the result is the text with the placeholder between the same pieces that the term separates: nothing else is changed, dropped or moved |
| Sanitizer.PiecesLackTerm | internal/llm/sanitizer.go:83-85 | none of these pieces holds the term |
| Sanitizer.EmptyTermKeepsText | internal/llm/sanitizer.go:83-85 | the empty term puts the placeholder at both ends and between all letters, and every letter stays in its order |
| Sanitizer.ReplaceEliminates | internal/llm/sanitizer.go:83-85 | replacing a term that cannot survive leaves no occurrence of it |
| Sanitizer.ReplaceCreatesNothing | internal/llm/sanitizer.go:83-85 | no replacement, of whatever term, creates a term that meets no edge of the placeholder and is no part of it |
| Sanitizer.EliminatedExactlyWhenItCannotSurvive | internal/llm/sanitizer.go:82-86 | any one term is eliminated from every text exactly when it is no part of `[PROPRIETARY]`, does not start like its end, and agrees with its start nowhere that a text can bring before a match |
| Sanitizer.MeetingIsNotSurviving | internal/llm/sanitizer.go:83-85 | `[[` ends like the placeholder starts and is eliminated all the same |
| Sanitizer.BracketFreeIsApart | internal/llm/sanitizer.go:83-85 | a term without brackets meets no edge of the placeholder |
| Sanitizer.EliminatesExactlyWhenNotInPlaceholder | internal/llm/sanitizer.go:82-86 | a list of terms that meet no edge of the placeholder, with brackets or not, is eliminated from every text exactly when none of them is part of it |
| Sanitizer.LastTermDecides | internal/llm/sanitizer.go:82-86 | a list whose terms before the last meet no edge of the placeholder and are no part of it is eliminated exactly when the last one is eliminated from every text that holds none of the others |
| Sanitizer.ListWithLastThatCannotSurvive | internal/llm/sanitizer.go:82-86 | so such a list may end with any term that cannot survive alone, whatever edge it meets |
| Sanitizer.ListFailsOnFreeSurvivor | internal/llm/sanitizer.go:82-86 | for any terms: a text without the earlier ones from which the last is not eliminated makes the list fail |
| Sanitizer.ListWithSurvivorFails | internal/llm/sanitizer.go:82-86 | such a list, of two terms |
| Sanitizer.LaterTermCanFormEarlier | internal/llm/sanitizer.go:82-86 | a list in which the placeholder of a later term forms an earlier one anew, though each alone would be eliminated |
| Sanitizer.BracketedTermCanSurvive | internal/llm/sanitizer.go:82-86 | a term with a bracket that a placeholder and its neighbour form anew |
| Sanitizer.SanitizedClient.Complete | internal/llm/sanitizer.go:109-115 | both prompts are handed on sanitized |
| Sanitizer.SanitizedClient.Analyze | internal/llm/sanitizer.go:118-131 | the two texts handed on to a registry, and the system and user prompt of the fallback |
| Sanitizer.SomeFallbackShowsExactly | internal/llm/sanitizer.go:126-130 | some pair of texts that lack a term makes the fallback prompt show it exactly when the term is part of that prompt's labels or meets an edge of theirs |
| Sanitizer.FallbackShowsExactlyLabels | internal/llm/sanitizer.go:126-130 | for given texts that lack a term, the fallback prompt shows it exactly when it is part of a label or lies across a seam of label and text; a term without a newline never lies across one |
| Sanitizer.TaskIsShown | internal/llm/sanitizer.go:126-130 | the term `Task` shows in every fallback prompt |

## Left out

- RateLimiter.Member: prints numbers in full, while Lua's concatenation keeps 14 significant digits; the two agree for times below 10^14 ms (year 5138).
- RateLimiter.ScriptRefines: asks for a positive window, as both callers pass.
- Polling.ExactlyOnce: takes as given that the polls within five minutes of the event list it, though only the first page of 50 events is requested, and that GitLab's clock and the worker's agree.
- Polling.FetchRecentEvents: fields that the dedup key does not use (target type, noteable ID, branch) are dropped.
- Compression.IsRisky: lower-cases ASCII letters only.
- Text.TrimSpace: trims ASCII white space only.
- Compression.DeltaPreserved: says nothing about which file a hunk belongs to; file headers between hunks are dropped with the context.
- Sanitizer.LastTermDecides: a term before the last that meets an edge of the placeholder is not covered, because a later placeholder can form it anew, as in LaterTermCanFormEarlier; each such term alone is.
- Sanitizer.EliminatesExactlyWhenNotInPlaceholder: speaks of lists of terms that meet no edge; LastTermDecides lets the last one meet edges.
- SessionFreshness.ProjectIsStoredExactlyWhenNotOvertaken: the HSET and EXPIRE of a login's pipeline are one write.
- Registry.AttemptMeetsPromise: reads the attempt at one instant; AttemptCallsExactlyWhenDue is the reading with a moving clock.
- Session.Server.HandleLogin: password hashing and the JWT; a login step is one whose password was accepted.
- The regular-expression extractors, the standard-library filter and the built-in redaction rules enter as parameters.
- The ciphers enter as an inverse pair; Redis failures other than those of the rate limiter are not modelled for the cache.
- HTTP routing, JSON, prompts, Markdown, providers' APIs, the ORM code under `ent/`, configuration and wiring.
- Posting and logging of reviews, which the source has commented out.
- The nested read lock in `Registry.Active`: taken as one atomic read, with no claim about deadlock.

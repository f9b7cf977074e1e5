# GoFr verification

A Dafny model of the parts of GoFr that hold hard state, concurrency or "the fast form equals the slow
form" claims, with machine-checked proofs. `dafny verify dfyconfig.toml` checks everything.

| files | what they cover |
|---|---|
| `Options`, `Strings` | what the other modules share: optional values, splitting and joining |
| `RegexpSyntax`, `RegexpExact`, `RouteTemplate`, `RouteIndex`, `RouteMatcher` | the trie route index against a linear scan of the route table |
| `PathClean`, `MiddlewareChain` | request-path normalisation, the memoised middleware chain |
| `FloatReading`, `MigrationProtocol`, `MigrationSafety`, `MigrationLocks`, `MigrationRepeats`, `MigrationHistory`, `MigrationRunner`, `MigrationReads`, `MigrationPaging` | distributed migrations: leases, exclusion, version order, waiting, clean-up, repeated versions, what a pod's run amounts to, reading back |
| `HealthProbe`, `HealthMaps` | the health endpoint: rounds, timeout, cache, and who may hold which map |
| `GraphQLTypes` | output-type mapping over cyclic schemas |
| `StreamProtocol`, `StreamFraming`, `StreamDelivery` | the streaming responder's goroutines, its bytes on the wire, and what a client reads |
| `CronSchedule`, `CronText`, `CronGrammar`, `CronFiring`, `CronWritten`, `CronStop` | cron text to integer sets, which texts are accepted, when a job fires, stopping |
| `ToolArgs` | tool arguments to path and query, for every map iteration order |

## Modelling decisions

- Concurrent parts are state machines: a step is one atomic statement, critical section or channel
  operation; `Run` and `End` quantify over every finite schedule.
- A route is its template, the regexp gorilla/mux compiles from it (`RouteTemplate.PathRegexp`), and a
  `Match` function about which one thing is taken from mux: a match implies that the path regexp accepts
  the path, in its plain or escaped form according to the route's router. Regexps are syntax trees with a positional semantics, so anchors
  and word boundaries mean what they mean; case folding covers the ASCII letters.
- Lock rows and version records are shared maps with one clock. Every pod has its own chain of backends
  and its own keys. A backend hands recorded versions back exactly or, as Elasticsearch does, as 64-bit
  floats. A run is *timely* when no row a live holder counts on has expired: the lease
  assumption the refresh loops exist for. Nothing is assumed about what was recorded before the run.
- `path.Clean`, `url.PathEscape`, `singleflight`, `sync.WaitGroup` and Elasticsearch's `search_after` are
  taken at their documented meaning. Strings are sequences of characters.

## Where the code stops short, and exactly when

Each of these is proved, with the exact condition under which the code does what one would expect of it.

- **A slash inside braces.** `pathSegments` splits the raw template, so `/x/{p:[^/]+}` is indexed under
  three segments and never found. On every path an indexable pattern accepts, the template lines up if
  and only if no braces hold a slash (`RouteTemplate.IndexableLinesUp`). For every request the index serves
  the scan's winner if and only if the winner is not in the trie or its template fits the path in its plain
  or its escaped form (`RouteMatcher.AgreesIffPlaceable`); a winner without such a slash always does
  (`RouteMatcher.IndexAgreesWithScan`), and where the two forms are the same no other does
  (`RouteMatcher.AgreesIffNotMisplaced`). `RouteMatcher.SlashInBracesIsMissed` is a two-route table served
  wrongly.
- **Unrooted paths.** `../a` is normalised to `/../a`, which is not clean. Normalising gives a clean,
  stable path if and only if the path is rooted or never climbs above its start (`PathClean.NormalizesIff`).
- **Exclusion without a locker.** Backends whose `lock` only delegates protect nothing. Two pods exclude
  each other in every timely run if and only if their chains share a locking backend
  (`MigrationLocks.ExclusionIffShared`).
- **Versions that run again.** After one pod recorded a version, another that sees the backend can still
  execute it if and only if the two share no locking backend or that backend hands the version back lower
  than it is (`MigrationRepeats.RepeatedIff`). The same goes for lower versions (`MigrationRepeats.FollowsIff`,
  `MigrationRepeats.OutOfOrderIff`). `MigrationRepeats.RoundedRunsTwice` is a run of two pods that lock
  properly and execute 2^53 + 1 twice, because Elasticsearch hands it back as 2^53.
- **Unlock stops early.** `unlock` leaves a row behind if and only if the row's own deletion never took
  effect, or an earlier locking backend on the chain had lost its row or reported an error
  (`MigrationLocks.ReleasedExactly`). `MigrationLocks.LeftBehind` is a run that ends so, with a fresh row
  nobody holds any more.
- **Elasticsearch versions are read as floats.** Every stored version is read back, once and in order, if
  and only if each survives a 64-bit float and no full page of unreadable documents stands before a
  readable one (`MigrationPaging.ReadsAllIff`). Of documents GoFr wrote, what is read is exactly what each
  is rounded to (`MigrationPaging.ReadsWhatPodsRead`). 2^53 + 1 comes back lower and is due again
  (`MigrationPaging.RunsAgain`); 2^53 + 3 comes back higher, and 2^53 + 4 then looks applied and neither runs
  nor is reported (`MigrationPaging.LooksApplied`).
- **The health cache's TTL** bounds a report's age when it is looked up, not when it is handed out. A
  caller that saw the entry expired can join a leader that looked it up before and is handed it, at any age
  (`HealthProbe.HandedOverLate`). What a leader found is within its TTL at hand-over if and only if no more
  time passed since its look than was then left of the TTL (`HealthProbe.HandOverIff`).
- **Migration key 0** is passed over without running or being reported, and is the only key treated so
  (`MigrationReads.KeyAccounted`).
- **Cron steps.** The loop that fills a stepped field ends if and only if the range is empty or the step is
  not zero (`CronSchedule.EndsIff`), and stays inside its range if and only if the step does not overflow
  either (`CronSchedule.StepLoopIff`). With an overflowing step it walks down instead of up
  (`CronSchedule.OverflowField`), so an accepted part lies inside its field if and only if its step is
  proper (`CronSchedule.FieldInBounds`). The merge of days and weekdays looks only at sizes: the day rule
  holds if and only if the sizes tell which set is restricted, as they do for proper steps
  (`CronFiring.FiresExactly`); `6-6/9223372036854775807` reads as seven values and loses its weekday
  (`CronWritten.LargestStepLosesWeekday`). Text after a step's digits is silently dropped
  (`CronText.StepReads`).
- **A cached middleware chain**, as the code's comments warn, equals a fresh one if and only if nothing was
  registered since it was cached (`MiddlewareChain.Router.ChainFor`, and `MiddlewareChain.StaleChain` for one
  that does not).
- **NDJSON streams** do not mark their error frames, so a value and an error with the same text read alike;
  that is the only ambiguity (`StreamFraming.NdjsonUnambiguous`, `StreamFraming.ErrorCollides`).

## Model

| member | source | states |
|---|---|---|
| RegexpSyntax.NonEmptySound | pkg/gofr/http/trie_router.go:182-227 | a tree `canMatchEmpty` rejects consumes at least one character wherever it matches |
| RegexpSyntax.SlashFreeSound | pkg/gofr/http/trie_router.go:230-270 | a tree `reNodeMayMatchSlash` rejects never matches text holding a slash |
| RegexpSyntax.EmptyMatchExact | pkg/gofr/http/trie_router.go:182-203 | without zero-width assertions `canMatchEmpty` is exact: true if and only if the tree matches the empty string at every position |
| RegexpExact.SlashExact | pkg/gofr/http/trie_router.go:230-270 | on trees that can match and hold no zero-width assertion, `reNodeMayMatchSlash` is true if and only if some accepted text holds a slash |
| RouteTemplate.PlainIsIndexable | pkg/gofr/http/trie_router.go:76-108 | every exact path of literals and plain variables, also mixed within a segment, goes into the trie |
| RouteTemplate.PrefixNotIndexable | pkg/gofr/http/trie_router.go:145-156 | a `PathPrefix` pattern is never taken for an exact path |
| RouteTemplate.AcceptedIsInstance | pkg/gofr/http/trie_router.go:133-173 | a path accepted by an indexable pattern spells out the template's pieces, each variable by a non-empty slash-free text |
| RouteTemplate.IndexableLinesUp | pkg/gofr/http/trie_router.go:110-140 | template and accepted path have the same segments one for one if and only if no braces hold a slash; otherwise the template has too many |
| RouteIndex.GatherIsLinedUp | pkg/gofr/http/trie_router.go:298-332 | after any insertions the backtracking walk yields exactly the entries that line up with the segments, each once |
| RouteIndex.WalkIsPathSegments | pkg/gofr/http/trie_router.go:311-321 | cutting a trimmed path slash by slash gives the segments `pathSegments` gives |
| RouteIndex.Index.Insert | pkg/gofr/http/trie_router.go:272-296 | the heap trie stays well formed and the entry is recorded at its template's node, everything else unchanged |
| RouteIndex.Index.Collect | pkg/gofr/http/trie_router.go:311-332 | the recursive collection over heap nodes appends exactly what the recorded insertions below the node call for |
| RouteMatcher.Build | pkg/gofr/http/trie_router.go:54-74 | every route of the table is in the trie or on the fallback list, with its registration order |
| RouteMatcher.Candidates | pkg/gofr/http/trie_router.go:337-350 | the trie's set for the path, for the escaped path when it differs, then the fallback list |
| RouteMatcher.CandidateIff | pkg/gofr/http/trie_router.go:298-350 | a route is a candidate if and only if it is not indexable or its template fits one form of the path |
| RouteMatcher.SortByRegistrationOrder | pkg/gofr/http/trie_router.go:400-406 | in place: ordered by registration, and a permutation |
| RouteMatcher.Match | pkg/gofr/http/trie_router.go:363-392 | picks the succeeding candidate of least order, leaves in `rm` only what that one attempt wrote, and an empty `rm` when none succeeds |
| RouteMatcher.MatchedIsPlaceable | pkg/gofr/http/trie_router.go:122-127 | a route that matches is found under the path it matched if and only if it is not misplaced |
| RouteMatcher.IndexAgreesWithScan | pkg/gofr/http/trie_router.go:352-362 | for every table and request, when the scan's winner is not misplaced the index picks it and nothing else |
| RouteMatcher.IndexFailsWithScan | pkg/gofr/http/trie_router.go:357-392 | when no route matches, the index finds none |
| RouteMatcher.AgreesIffPlaceable | pkg/gofr/http/trie_router.go:298-362 | for every table and request the index picks the scan's winner if and only if the winner's template fits the plain or the escaped path, or it is not in the trie |
| RouteMatcher.AgreesIffNotMisplaced | pkg/gofr/http/trie_router.go:352-355 | on a request whose escaped path is its path, that is so if and only if the winner is not an indexable template with a slash in braces |
| RouteMatcher.SlashInBracesIsMissed | pkg/gofr/http/trie_router.go:410-417 | a table and request on which index and scan serve different routes |
| PathClean.HasDirtySegment | pkg/gofr/http/router.go:410-427 | true if and only if some slash starts an empty or dot segment |
| PathClean.DirtyIffSegments | pkg/gofr/http/router.go:410-446 | the character scan agrees with looking at the segments |
| PathClean.IsCleanPath | pkg/gofr/http/router.go:387-400 | true if and only if the path is rooted and cleaning leaves it unchanged |
| PathClean.CleanFormIsFixpoint | pkg/gofr/http/router.go:387-400 | the scan's verdict is being a rooted fixpoint of path.Clean, for every string |
| PathClean.NormalizePath | pkg/gofr/http/router.go:144-171 | the path becomes a slash and the cleaned elements, which `NormalizedByRules` determines, and the raw path follows only when set and changed |
| PathClean.CleaningKeepsRules | pkg/gofr/http/router.go:154 | cleaning keeps the documented rules: "" and "." vanish anywhere, a name and the ".." after it vanish anywhere, a leading ".." vanishes on a rooted path and stays on an unrooted one, names alone stay |
| PathClean.RulesDetermine | pkg/gofr/http/router.go:154 | the rules leave no choice: any function that keeps them gives the same elements on every path |
| PathClean.NormalizedByRules | pkg/gofr/http/router.go:141-171 | the segments of the normalised path are what any function keeping the rules leaves of the path's own |
| PathClean.UpTakesBack | pkg/gofr/http/router.go:154 | in the text of any path, a name and the ".." after it normalise to nothing |
| PathClean.NormalizesIff | pkg/gofr/http/router.go:141-171 | the result is clean, and normalising again is the identity, if and only if the path is rooted or never climbs out |
| PathClean.UnrootedEscapes | pkg/gofr/http/router.go:154-162 | an unrooted path whose normal form is not clean |
| MiddlewareChain.ComposeMiddleware | pkg/gofr/http/router.go:377-385 | the first middleware is the outermost layer |
| MiddlewareChain.Router.ChainFor | pkg/gofr/http/router.go:276-318 | a route's chain equals a fresh composition if and only if no middleware came since it was cached; foreign routes are never cached |
| MiddlewareChain.Router.Use | pkg/gofr/http/router.go:324-329 | appends to the chain and invalidates no cached entry's provenance |
| MiddlewareChain.StaleChain | pkg/gofr/http/router.go:276-329 | for every route, handler and middleware: registered after the first request, the middleware is not in the chain the next request gets |
| MigrationSafety.RowChanges | pkg/gofr/migration/sql.go:195-331 | in any state, a row changes only by its own owner, by being stale, or by being free; a refresh leaves it with its owner and the new expiry |
| MigrationSafety.LockInvStep | pkg/gofr/migration/sql.go:195-331 | every step of any pod keeps: each lock a pod counts on is a row carrying its owner ID |
| MigrationSafety.MutualExclusion | pkg/gofr/migration/redis.go:127-221 | in every timely run two pods sharing a locking backend are never both between lock and unlock |
| MigrationSafety.VersionsAscend | pkg/gofr/migration/migration.go:117-162 | over every timely run of any number of pods that pairwise share a locking backend: after a record, every pod that sees that backend executes and records only versions above it, or above what it is handed back as if that is lower, save the other records of the same commit; strictly ascending when no key is handed back lower |
| MigrationSafety.NeverReexecuted | pkg/gofr/migration/migration.go:213-292 | among such pods, a version any backend of the pod's chain holds, from before or during the run, lies below whatever the pod executes next, unless it is handed back lower; then what it is handed back as does |
| MigrationSafety.OwnVersionInv | pkg/gofr/migration/migration.go:141-161 | reading the chain under the lock, exactly or through floats, and walking the keys keeps the bound on all recorded versions as they are read |
| MigrationLocks.NoWaitCycle | pkg/gofr/migration/migration.go:340-349 | pods that take their chains in ascending order never wait in a circle, in any state |
| MigrationLocks.WaitEnds | pkg/gofr/migration/migration.go:340-349 | following the waits from any waiting pod reaches a live holder that waits for nobody |
| MigrationLocks.ReleasedExactly | pkg/gofr/migration/sql.go:299-331 | after an unlock a row of the pod's remains if and only if its own deletion never took effect, or an earlier locking backend had lost its row or reported an error |
| MigrationLocks.UnlockedIsStep | pkg/gofr/migration/sql.go:299-331 | each call of that unlock, the failing ones too, is a step of the protocol from the state it is made in |
| MigrationLocks.ReleasedFrame | pkg/gofr/migration/mongo.go:220-238 | an unlock never touches another pod's row |
| MigrationLocks.GiveUpReleases | pkg/gofr/migration/migration.go:121-131 | a pod that fails at position k with its own locks intact gives back exactly those up to the first call that reports an error, and that one if its deletion took effect |
| MigrationLocks.NoSharedLocker | pkg/gofr/migration/datasource.go:67-69 | without a shared locking backend there is a timely run with both pods inside |
| MigrationLocks.ExclusionIffShared | pkg/gofr/migration/migration.go:121-162 | two pods exclude each other in all timely runs if and only if they share a locking backend |
| MigrationLocks.LeftBehind | pkg/gofr/migration/sql.go:299-331 | a timely run in which an unlock exits with a fresh row of the pod's left behind |
| MigrationLocks.StaysInside | pkg/gofr/migration/sql.go:255-297 | what the refresh loops are for: from every state of every timely run, a pod between lock and unlock can stay there for any length of time, the run staying timely |
| MigrationLocks.LeaseIff | pkg/gofr/migration/sql.go:255-297 | without refreshing it can do so if and only if every lease it holds outlasts that time |
| MigrationRepeats.OnlyAbove | pkg/gofr/migration/migration.go:117-162 | two pods sharing a locking backend, whatever the others do: after one recorded a version, the other executes only versions above what the backend hands back for it |
| MigrationRepeats.FollowsIff | pkg/gofr/migration/migration.go:117-292 | for two of any number of pods with a backend in common, a key v of one and a positive key w of the other no higher than v: a timely run exists in which v is recorded there and w then executed, if and only if they share no locking backend or the backend hands v back as less than w |
| MigrationRepeats.RepeatedIff | pkg/gofr/migration/migration.go:117-292 | a timely run exists in which one records a version and the other then executes it, if and only if they share no locking backend or the version is handed back lower |
| MigrationRepeats.OutOfOrderIff | pkg/gofr/migration/migration.go:117-292 | some timely run executes no higher than was recorded before if and only if the two pods' chains and keys hold a case `FollowsIff` allows |
| MigrationRepeats.RoundedRunsTwice | pkg/gofr/migration/elasticsearch.go:186-194 | two pods that share a locking backend and execute 2^53 + 1 one after the other |
| MigrationHistory.ExecutesExactlyTheDue | pkg/gofr/migration/migration.go:213-231 | in every run a pod at key i has executed exactly the earlier keys above its last version, in order, none skipped and none twice |
| MigrationHistory.CommitRecordsEverywhere | pkg/gofr/migration/sql.go:126-156 | a commit that went down the whole chain left the version in every backend the migration used |
| MigrationRunner.Store.RunMigrations | pkg/gofr/migration/migration.go:213-292 | executes the due keys in order and stops at the first that does not succeed, before it if the lock was lost by then and behind it otherwise; afterwards a key that succeeded is in every backend of the chain it used, one whose commit failed at a place in the used ones before that place, and nothing else is added |
| MigrationRunner.WrittenIff | pkg/gofr/migration/sql.go:126-156 | a run adds a version to a backend if and only if it was due, it used that backend, and it succeeded with the backend on the chain or its commit failed at a later place |
| MigrationRunner.LoopIsRun | pkg/gofr/migration/migration.go:213-292 | for every outcome of the migrations, from every reachable state at the start of the loop, the protocol has a run that executes the same keys, leaves the same records everywhere and stops where the loop stops |
| MigrationHistory.DueIff | pkg/gofr/migration/migration.go:213-222 | exactly the keys above the last version are due, in order |
| MigrationReads.LastApplied | pkg/gofr/migration/migration.go:175-183 | the greatest applied version, or 0, for every iteration order |
| MigrationReads.HasNewMigrations | pkg/gofr/migration/migration.go:164-172 | true if and only if some key lies above the last applied version |
| MigrationReads.SkippedMigrations | pkg/gofr/migration/migration.go:187-199 | the unapplied keys below the last applied version, in key order |
| MigrationReads.KeyAccounted | pkg/gofr/migration/migration.go:185-222 | each key is applied, run or reported, never two of them, except key 0 with nothing positive applied |
| FloatReading.RoundNear | pkg/gofr/migration/elasticsearch.go:186-194 | what is read back lies within half the distance between neighbouring floats |
| FloatReading.ReadBackLaws | pkg/gofr/migration/elasticsearch.go:186-194 | reading an integer as a float is exact up to 2^53 either way, and reading it again changes nothing more |
| FloatReading.ReadBackMonotone | pkg/gofr/migration/elasticsearch.go:186-194 | reading keeps the order |
| MigrationPaging.ExtractVersions | pkg/gofr/migration/elasticsearch.go:165-198 | the readable versions of a page, each through the float, in order, and the number of hits |
| MigrationPaging.ReadVersions | pkg/gofr/migration/elasticsearch.go:62-84 | the loop reads, search by search, what `Pages` says of the documents and page size |
| MigrationPaging.ReadsAllIff | pkg/gofr/migration/elasticsearch.go:60-84 | for any documents and page size the loop ends with every readable stored version once, highest first, if and only if each survives the float and no full page of unreadable documents stands before a readable one; one search per document and one more then suffice |
| MigrationPaging.SmallVersionsRead | pkg/gofr/migration/elasticsearch.go:60-84 | with readable documents and versions up to 2^53 everything is read, whatever lies behind them |
| MigrationPaging.ReadsWhatPodsRead | pkg/gofr/migration/elasticsearch.go:60-84 | of documents of any 64-bit versions, on pages of more than 512, the loop ends having read exactly what each version is rounded to, which is what a pod reads in the protocol |
| MigrationPaging.RunsAgain | pkg/gofr/migration/elasticsearch.go:186-194 | 2^53 + 1 is read back as 2^53, so the last applied version lies below it and it is due again |
| MigrationPaging.LooksApplied | pkg/gofr/migration/elasticsearch.go:186-194 | 2^53 + 3 is read back as 2^53 + 4, which then neither runs nor is reported as skipped |
| HealthProbe.InvStep | pkg/gofr/container/health.go:71-152 | every step keeps: only the newest round is unfinished, `running` says so, and no report about a finished round goes stale |
| HealthProbe.OneRoundOutstanding | pkg/gofr/container/health_probe.go:36-71 | in every schedule at most one round has live checks, `running` is set while one does, and no round starts meanwhile |
| HealthProbe.AnswersSound | pkg/gofr/container/health.go:54-95 | in every schedule an answer from a complete round says UP if and only if none of its checks was down, any other never says UP, and a cached one is complete and was within its TTL when looked up |
| HealthProbe.HandOverIff | pkg/gofr/container/health.go:73-76 | from any state and over every schedule between the leader's look and its return: what it and those who joined it are handed from the cache is within its TTL if and only if no more time passed than was left of the TTL at the look |
| HealthProbe.HandedOverLate | pkg/gofr/container/health.go:66-76 | for every TTL and delay a schedule in which a caller misses, joins, and is handed a report older than the TTL by that delay |
| HealthProbe.ServedForTTL | pkg/gofr/container/health_probe.go:89-125 | a stored report is served to every caller for as long as the TTL and no longer, whatever else happens, until another is stored or the cache is cleared; a cleared cache serves nothing |
| HealthProbe.RoundCanComplete | pkg/gofr/container/health.go:105-152 | from every reachable state with the leader waiting, whatever the checks still out will say, they can return and all callers be told of the complete round, UP if and only if nothing was down |
| HealthProbe.LeavesAtTimeout | pkg/gofr/container/health.go:121-147 | a hung check holds nobody up: the leader can leave at the timeout, everyone is told, and it is not UP; the round stays claimed |
| HealthProbe.ClaimReleasable | pkg/gofr/container/health.go:121-134 | once the outstanding checks have returned the claim can always be released |
| HealthMaps.Conclude | pkg/gofr/container/health.go:136-151 | a map of its own holding all results, the name and the version, UP if the round is complete and nothing was down and degraded otherwise |
| HealthMaps.Endpoint.CheckRecords | pkg/gofr/container/health.go:305-328 | a check recording at any time does so in its own collector and changes neither the cached nor any served map |
| HealthMaps.Endpoint.Publish | pkg/gofr/container/health.go:82-94 | the caller's map holds all results and the right status; only a complete round replaces the cached map, and the caller's copy is separate from it |
| HealthMaps.Endpoint.ServeCached | pkg/gofr/container/health_probe.go:89-102 | served from the cache if and only if a result is there and not older than the TTL, as a copy |
| HealthMaps.Endpoint.CallerRewrites | pkg/gofr/container/health.go:330-343 | a caller rewriting its copy is noticed by nobody else |
| GraphQLTypes.Manager.MapType | pkg/gofr/graphql.go:298-314 | terminates on every schema, cyclic or not, and returns the image of the type with its list and non-null wrappers |
| GraphQLTypes.Manager.GetCustomOutputType | pkg/gofr/graphql.go:331-357 | each object type is built once and, on return, every object not still being filled has all its fields |
| GraphQLTypes.Manager.GetEnum | pkg/gofr/graphql.go:276-296 | one enum per name with exactly the declared values |
| GraphQLTypes.Manager.BuildFields | pkg/gofr/graphql.go:174-205 | fails if and only if a field that does not start with two underscores has no resolver; otherwise the mapped fields are those with a resolver, each the image of its type |
| GraphQLTypes.Manager.SameTree | pkg/gofr/graphql.go:298-357 | mapped type and schema type unfold to the same tree to every depth |
| GraphQLTypes.ScalarTrees | pkg/gofr/graphql.go:316-329 | the five scalars by name, with ID a string |
| GraphQLTypes.ImageGrows | pkg/gofr/graphql.go:342-356 | later cache entries never change what an already mapped type is |
| StreamProtocol.WireIsFaithful | pkg/gofr/http/stream.go:61-131 | in every schedule the data frames are a prefix of the produced values and a terminal frame is last; with no failure all values are there, and the last frame is the source's error if it had one, else the done marker on an event stream and none on a line stream |
| StreamProtocol.CanComplete | pkg/gofr/http/stream.go:29-131 | from every reachable state with the consumer at work, whatever more the source produces and however it ends, the stream can come to a clean end with all of it |
| StreamProtocol.DeadClientNoticed | pkg/gofr/http/stream.go:89-117 | a client that is gone is noticed at the next write or heartbeat, and the consumer leaves |
| StreamProtocol.ErrorSlotNeverBlocks | pkg/gofr/http/stream.go:58-72 | the terminal error is there when read and the slot free when written |
| StreamProtocol.ProducerStops | pkg/gofr/http/stream.go:81-87 | once the consumer left, every continuation is at most four steps long and writes nothing, and a producer outside the source's Next can reach its end |
| StreamProtocol.SomeoneCanStep | pkg/gofr/http/stream.go:24-56 | no deadlock: until both loops are done one of them can step, without counting heartbeats |
| StreamFraming.SseRoundTrip | pkg/gofr/http/stream.go:133-177 | an event-stream reader (section 9.2.6 of the WHATWG HTML standard) recovers exactly the events, wherever heartbeats fall |
| StreamFraming.NdjsonRoundTrip | pkg/gofr/http/stream.go:143-173 | dropping blank lines recovers exactly the payloads |
| StreamFraming.SseUnambiguous | pkg/gofr/http/stream.go:122-177 | two streams whose data never reads `[DONE]` are read alike if and only if they are the same but for heartbeats |
| StreamFraming.DoneCollides | pkg/gofr/http/stream.go:128-130 | data that reads `[DONE]`, which no JSON text does, has the bytes of the end marker |
| StreamFraming.NdjsonUnambiguous | pkg/gofr/http/stream.go:143-173 | as long as no text is both a value and an error, two streams are read alike if and only if their values and errors are the same |
| StreamFraming.ErrorCollides | pkg/gofr/http/stream.go:153-162 | otherwise the two have the same bytes |
| StreamFraming.CutOff | pkg/gofr/http/stream.go:133-177 | a reader cut off at any character has read the first events, or lines, of the whole |
| StreamDelivery.SseDelivers | pkg/gofr/http/stream.go:29-177 | in every schedule the client reads the first values the source produced, in order, then at most one terminal event; on a clean end all of them, and last an error event with the source's error, or `[DONE]` if there was none |
| StreamDelivery.NdjsonDelivers | pkg/gofr/http/stream.go:29-177 | the same for the line format: on a clean end all the values, then the source's error as a line, or nothing more |
| StreamDelivery.CleanEndsTold | pkg/gofr/http/stream.go:119-131 | two event streams that ended cleanly read alike if and only if their values have the same texts and their sources ended alike |
| StreamDelivery.UnencodableTold | pkg/gofr/http/stream.go:133-142 | a value that cannot be encoded ends the stream with an error the client reads, behind the values before it, in either format |
| StreamDelivery.HeartbeatUnseen | pkg/gofr/http/stream.go:166-177 | an idle consumer can always send a heartbeat, which is bytes on the wire that no reader sees |
| StreamDelivery.CutOffDelivers | pkg/gofr/http/stream.go:29-177 | in either format, a client cut off at any character of any schedule's bytes has read the first values, or all that was written |
| CronSchedule.EndsIff | pkg/gofr/cron_scheduler.go:167-175 | the step loop, in 64-bit arithmetic, ends if and only if the range is empty or the step is not zero |
| CronSchedule.StepLoopIff | pkg/gofr/cron_scheduler.go:167-175 | it ends without leaving its range if and only if the range is empty or the step is positive and does not overflow |
| CronSchedule.BadSteps | pkg/gofr/cron_scheduler.go:117-119 | step 0 never ends; the largest step from 1 reaches values below the range |
| CronSchedule.GetDefaultJobField | pkg/gofr/cron_scheduler.go:167-175 | for every step with which the loop ends: exactly the values it visits, wrap-around included |
| CronSchedule.ProperField | pkg/gofr/cron_scheduler.go:167-175 | with a proper step these are the values a whole number of steps from the start |
| CronSchedule.OverflowField | pkg/gofr/cron_scheduler.go:167-175 | with an overflowing step they include negative ones, and the others are those a whole number of double shortfalls below the start |
| CronSchedule.ParseSingleOrRange | pkg/gofr/cron_scheduler.go:139-165 | adds exactly the item's values, or rejects it, as `CronGrammar.ItemIff` says |
| CronSchedule.ParsePart | pkg/gofr/cron_scheduler.go:84-137 | wildcard, step and list forms with the same rejections, which `CronGrammar.PartIff` gives, for every text on which the code returns |
| CronGrammar.ItemIff | pkg/gofr/cron_scheduler.go:139-165 | an item is accepted if and only if it is digits-digits with the first number at least the field's least and the second at most its greatest, or an optionally signed number of the field; it then adds the values it names |
| CronGrammar.PartIff | pkg/gofr/cron_scheduler.go:84-137 | a part is accepted, or hangs, if and only if it is `*`; or nothing, `*` or such a range before a slash and digits, up to a trailer without another step; or a comma list of accepted items that names a value |
| CronGrammar.ScheduleIff | pkg/gofr/cron_scheduler.go:19-72 | a schedule is accepted if and only if it has five parts accepted for minute, hour, day, month and weekday, or six with one for the second in front; its sets are what the parts read as |
| CronSchedule.HangsIff | pkg/gofr/cron_scheduler.go:99-120 | parsing a part never returns if and only if it has a step of zero over a range that is not empty |
| CronSchedule.FieldInBounds | pkg/gofr/cron_scheduler.go:84-165 | an accepted part stays within its field if and only if its step, if any, is proper |
| CronText.PartRoundTrip | pkg/gofr/cron_scheduler.go:83-165 | parsing the written form of an expression that fits its field gives back the values it names if and only if its step is proper |
| CronText.StepReads | pkg/gofr/cron_scheduler.go:11-15 | a stepped part is read as the loop over its range with its step, whatever that comes to and whatever follows its digits |
| CronFiring.ParseSchedule | pkg/gofr/cron_scheduler.go:19-81 | five or six parts, each in its own bounds, up to the first that is rejected, then the day merge, for every text on which the code returns |
| CronFiring.HangsExactly | pkg/gofr/cron_scheduler.go:19-72 | parsing never returns if and only if a part hangs and all before it are accepted |
| CronFiring.ScheduleInBounds | pkg/gofr/cron_scheduler.go:19-81 | every set of an accepted schedule lies within its field if and only if all its steps are proper, and then after the merge too |
| CronFiring.FullIffSize | pkg/gofr/cron_scheduler.go:74-81 | a set inside a field is as large as the field if and only if it is the whole field |
| CronFiring.DayRuleIff | pkg/gofr/cron_scheduler.go:74-81 | for sets that name a value of their own if anything, the days after the merge are right at every real tick if and only if the merge clears exactly the unrestricted set |
| CronFiring.FiresExactly | pkg/gofr/cron_scheduler.go:188-220 | for every accepted schedule on which the merge agrees, and so for all with proper steps, the job fires at a real tick if and only if minute, hour, month and second match and the day rule holds; where the merge does not agree some day is wrong |
| CronWritten.WrittenJob | pkg/gofr/cron_scheduler.go:29-66 | written expressions with proper steps end up each in its own field, with and without seconds |
| CronWritten.WrittenScheduleFires | pkg/gofr/cron_scheduler.go:19-220 | a schedule of such expressions with any white space between, before and after its parts fires at exactly the ticks they name, under the crontab day rule |
| CronWritten.LargestStepLosesWeekday | pkg/gofr/cron_scheduler.go:74-81 | an accepted schedule with an overflowing weekday step that stays silent on a day the day rule names |
| CronStop.InvStep | pkg/gofr/cron.go:109-160 | every step keeps the mutex discipline: dispatching holds the lock and excludes stopped |
| CronStop.NoDispatchAfterStop | pkg/gofr/cron.go:133-160 | over every schedule nothing is dispatched once stopped is set |
| CronStop.QuietAfterStop | pkg/gofr/cron.go:99-131 | when a stop returns unaborted no job is running and none ever runs again |
| CronStop.NoAddDuringWait | pkg/gofr/cron.go:133-152 | the wait group is never raised once a caller may be waiting on it |
| CronStop.TickDispatches | pkg/gofr/cron.go:133-160 | from every reachable state neither stopped nor being stopped, the next tick can dispatch any of the registered jobs, each once and on a goroutine of its own |
| CronStop.OncePerTick | pkg/gofr/cron.go:147-159 | within one tick no job is dispatched twice |
| CronStop.StopCanReturn | pkg/gofr/cron.go:99-131 | from every reachable state every call of Stop, made or not, can come to return unaborted: nothing it waits for waits for it |
| CronStop.AddedJobDispatched | pkg/gofr/cron.go:226-248 | a job registered between ticks is dispatched by the next one if its schedule calls for it |
| ToolArgs.SafeIsProper | pkg/gofr/tools.go:390-399 | the clean-path test accepts exactly the names other than "." and ".." without separators |
| ToolArgs.SubstituteSegment | pkg/gofr/tools.go:416-422 | in place: exactly the segments that are parameters of that name are replaced |
| ToolArgs.FillOneMore | pkg/gofr/tools.go:365-379 | an escaped value is never taken for a parameter by a later substitution |
| ToolArgs.SplitArgs | pkg/gofr/tools.go:353-382 | for every iteration order: fails if and only if some path value is unsafe; otherwise each segment of the path is the escaped value of its parameter if that was supplied and the template's own if not, and the query holds exactly the other arguments, an array as its elements |
| ToolArgs.ParamNameIs | pkg/gofr/tools.go:287-298 | a parameter's name is what stands in its braces, up to a constraint |
| ToolArgs.OrderIrrelevant | pkg/gofr/tools.go:353-382 | any two iteration orders give the same success, path and query |

## Left out

- Regexp parsing and gorilla/mux itself: syntax trees are the starting point, `Match` is opaque; subrouters and the choice between 404 and 405 are not modelled.
- `AllowedMethods`: it reuses the candidate set `RouteMatcher.CandidateIff` characterises, then only collects and sorts.
- Non-ASCII case-folding orbits in regexp literals.
- SQL text, drivers, clock skew between pods and statements in flight at a crash: every lock statement is one atomic step against one clock.
- Dialects that write no record, and migrations that touch no recording backend: they add no record, so the version order says nothing about repeating them.
- The migrators that only repeat the chain pattern (Cassandra, Clickhouse, ArangoDB, SurrealDB, ScyllaDB, DGraph, OpenTSDB, PubSub): backends without a lock in the model. OpenTSDB alone records after the rest of the chain; its records are then later, not different.
- The retry loops of `lock` and the refresh tickers as loops: their statements appear as the protocol's steps, at any time and in any number.
- The nil-probe path of `Health`, which runs the checks without cache or claim.
- GraphQL arguments and input types, which are not cached, and resolvers.
- MiddlewareChain.Router.ChainFor: one request at a time; that concurrent first requests agree on one chain is `sync.Map.LoadOrStore`'s own guarantee.
- JSON encoding, response headers and write deadlines of the streaming responder.
- CronFiring.ParseSchedule: promises nothing on the texts on which the code never returns, which `CronFiring.HangsExactly` singles out.
- MigrationPaging.ExtractVersions: versions so close to 2^63 that the float leaves the 64-bit range, whose conversion Go does not define.
- ToolArgs.SplitArgs: the error names whichever unsafe parameter comes first, which does depend on the order; the model keeps only that it fails.
- Start and stop of the HTTP and MCP servers, static files, binding, CRUD handlers, gRPC, RBAC, configuration, metrics, tracing, logging: easy next to the above, or I/O.

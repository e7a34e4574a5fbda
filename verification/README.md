# Verified models of the Zengo platform

These Dafny modules model six parts of the platform that carry its hard reasoning, and prove what those
parts promise. `dafny verify dfyconfig.toml` checks everything.

- **Policy executor** (`sdk/policy`): `TokenBucket`, `CircuitBreaker` and `Retry` model the limiter, the
  breaker and the retry loop; `Executor` composes them in `Do`; `ExecutorRuns` lets any number of calls
  interleave, every access that takes a lock, tries the semaphore or runs the function being one step, and
  `ExecutorPromises` says what the options promise of every such run in clock readings and results alone.
  Time and tokens are reals, and clock readings may come in any order, because the code reads the clock
  before it takes the lock.
- **OpenAPI split and merge** (`internal/generator`): `Json` and `Definitions` hold the reference search
  and its worklist, `PathGroups` the grouping and rewriting of paths, `OpenApi`, `OpenApiMerge` and
  `OpenApiSplit` the documents (OpenAPI Specification 2.0, "Paths Object", "Definitions Object",
  "Reference Object"). Go's map order is an arbitrary choice in every loop over a map.
- **Compatibility planner** (`internal/versioning`): `Schemas` and `Plans` compare two schemas and build
  the plan, `PlanAccounting` and `PlanContents` say what every plan contains, and `Converters` executes a
  plan as the converter template does. `ConverterTypes`, `ConverterImages` and `RoundTrips` prove what the
  generated code keeps.
- **Application lifecycle** (`app`): `Lifecycle` is the registration and the shutdown sequence, `AppRuns`
  all interleavings of the component goroutines, the error channel, the wait group and the deadline.
- **Freshness check** (`cmd/zengo`): `FileSystem` is a file tree as a map from paths to nodes with the
  operations of package `os` the check uses, `Snapshots` and `Freshness` the protocol. Generation is an
  arbitrary change of the tree that leaves the backups alone.
- **Kafka and errors** (`sdk/transport/queue/kafka`, `sdk/errx`): `Brokers` and `ProducerCache` hold the
  cache of producers, `Consumer` one claim of a partition, `ConsumerRuns` any number of claims.
  `ErrorFields`, `ErrorMetadata`, `Errors`, `ErrorReading` and `ErrorHops` are the error package, what
  it reads from other errors, and its way across services.

Objects whose methods change their fields are classes proved against functions on their values; the
theorems are about those functions and about whole runs.

Where the code falls short of a property, one lemma gives an input and another the exact condition:

- A clock that goes back can overfill a window that ends in a rejected call (`BackwardsClockOvershoots`);
  the bound holds of all windows, whatever the limits, exactly for clocks that never go back
  (`BoundHoldsExactly`). Windows that end in an admitted call keep it in any case.
- Two hub paths `/x` and `/hub/x` end up under one key and one item is lost (`ShadowedPathIsLost`,
  `SplitConservesExactly`).
- References outside the paths and definitions, such as those in shared responses, are not searched and
  can dangle after a split or a merge (`UnsearchedRestDangles`, `ResolvesExactly`).
- RPCs are indexed by bare name, so an RPC whose name a later service repeats is not classified at all
  (`LaterServiceTakesTheName`, `EachRpcClassifiedOnceExactly`). The hub's RPCs are indexed alike.
- A plan without errors can still have converters that do not compile: for a field whose type is an enum
  or another type that is neither in the list of scalars nor a legacy message
  (`EnumFieldBreaksConverters`), for an optional scalar, whose Go field is a pointer that the loader does
  not record (`OptionalFieldBreaksConverters`), for a Go name with an underscore, such as that of
  `address_line_1`, which the template spells without it (`UnderscoreBreaksConverters`), and for a type of
  another package that shares its bare name with a message, which is all the loader records
  (`ForeignTypeBreaksConverters`). `SoundExactly` has the condition.
- When shutdown has used up the deadline and every component has stopped too, `Run` may take the deadline
  and drop the Serve errors still queued (`DeadlineDropsServeError`). With every component gone, nothing is
  lost exactly when no error that counts is left in the channel (`AllErrorsReturnedExactly`).
- A hub field that one legacy field matches by name and another by legacy name loses a value on the round
  trip (`RenamedAndKeptCollide`, `RoundTripExactly`).
- While a consumer group has committed nothing, starting at the newest message skips a message whose
  handler failed (`NewestSkips`, `AtLeastOnceExactly`, `FailedIsRedeliveredExactly`). The consumer
  configuration (kafka.go:437-452) leaves the starting point to the client library, whose default is the
  newest.
- A broker name with a comma can share the producer of another list (`CommaSharesProducer`,
  `SameJoinExactly`, `UsedIsExact`).
- `Publish` sends after it gave up the lock: a producer that a `Close` in between has closed is used all the
  same. It is still open exactly if there was no such `Close` (`OpenAtUseExactly`).
- Go's own wrapping around a gRPC status makes the whole wrapper text public, and crossing the wire gives
  just such a status (`AnnotatingWhatCrossedIsPublic`, `AnnotationExactly`).
- A zero `Error` value keeps no code through everything but `Wrap` (`ZeroErrorFace`, `EveryNestingExactly`).
- The freshness check stops restoring at the first target above which the generator put a file, and then
  deletes the backups: that target and changed later ones are lost (`BlockedTargetIsLost`,
  `TargetsBackExactly`).

## Model

| member | source | states |
|---|---|---|
| TokenBucket.RateLimiter.Allow | sdk/policy/policy.go:374-385 | the in-place update is one step of the bucket whose runs the theorems describe |
| TokenBucket.LevelIsTop | sdk/policy/policy.go:374-385 | over any run, the tokens a call finds are those of a linear recurrence on the credit its time earns |
| TokenBucket.Exact | sdk/policy/policy.go:364-385 | for any times, a call is admitted if and only if the start and every window opening at an earlier call have room for one more admission |
| TokenBucket.WindowBound | sdk/policy/policy.go:364-385 | every window ending in an admitted call holds at most burst + rate * elapsed admissions |
| TokenBucket.MonotoneWindowBound | sdk/policy/policy.go:374-385 | with a clock that never goes back the bound holds for every window |
| TokenBucket.BackwardsClockOvershoots | sdk/policy/policy.go:374-385 | a run in which a clock going back breaks the bound for a window ending in a rejection |
| TokenBucket.BoundHoldsExactly | sdk/policy/policy.go:364-385 | for given times, every window of every full bucket keeps the bound if and only if the clock never goes back |
| TokenBucket.SpacedClientNeverRejected | sdk/policy/policy.go:364-385 | calls at least 1/rate apart are all admitted |
| CircuitBreaker.CircuitState.Fail | sdk/policy/policy.go:413-421 | one failure report, as a step of the breaker value |
| CircuitBreaker.CircuitState.Succeed | sdk/policy/policy.go:406-411 | one success report, as a step of the breaker value |
| CircuitBreaker.RefinesHistory | sdk/policy/policy.go:387-421 | after any outcomes, the counter is the failure streak modulo the threshold and the deadline the one its last full group set |
| CircuitBreaker.OpenExactly | sdk/policy/policy.go:400-421 | when calls are rejected, in terms of the history alone |
| CircuitBreaker.TripsArePaidFor | sdk/policy/policy.go:413-421 | trips times threshold never exceeds the failures reported |
| Retry.RunAttempts | sdk/policy/policy.go:118-147 | the loop returns what its meaning fixes: which attempts ran, and whose error comes back |
| Retry.MeaningIsUnique | sdk/policy/policy.go:118-147 | that meaning leaves one result and one number of calls |
| Retry.SucceedsExactly | sdk/policy/policy.go:118-147 | nil comes back if and only if some attempt in the budget succeeds after retryable failures and uncancelled waits, with one call per attempt |
| Retry.RetriedExactly | sdk/policy/policy.go:245-271 | own rejections and cancellations are never retried, a deadline always is, an HTTP status decides before the gRPC code, of which exactly six are retried |
| Executor.Executor.Do | sdk/policy/policy.go:99-148 | new shared state and verdict of an uninterrupted call, for any clock readings and any behaviour of the function |
| Executor.NormalizedOptions | sdk/policy/policy.go:235-243 | normalizing is idempotent, leaves at least one attempt, and a limiter then admits its first call |
| ExecutorRuns.EveryRunSafe | sdk/policy/policy.go:99-148 | every interleaving keeps the invariant that ties each program counter and shared field to the history |
| ExecutorRuns.EndsInOneWay | sdk/policy/policy.go:99-148 | a returned call was rejected in one way, without running the function or reporting, or was admitted, reported once, and returns what the retry loop means for its own attempts and waits |
| ExecutorRuns.ExplainedIsMeant | sdk/policy/policy.go:118-147 | a history of results and waits that explains a result gives it the meaning of the retry loop: an unfinished last attempt means the error of the cancelled wait |
| ExecutorRuns.SlotsAreReturned | sdk/policy/policy.go:109-116 | occupancy equals the calls between acquire and return, never exceeds the limit, and is zero when all have returned |
| ExecutorRuns.LimiterExactInEveryRun | sdk/policy/policy.go:103-105 | under concurrency the limiter answers as its windows demand, and tokens spent equal calls that passed |
| ExecutorRuns.BreakerMeansItsReports | sdk/policy/policy.go:106-108 | under concurrency the breaker is the one its interleaved reports spell out |
| ExecutorRuns.NeverBlocked | sdk/policy/policy.go:109-116 | whatever the other calls do, a call's own step brings it nearer to its end |
| ExecutorRuns.DoIsAnUninterruptedRun | sdk/policy/policy.go:99-148 | the sequential Do is the run in which nothing comes between the steps of one call |
| ExecutorPromises.ReportsAreReadings | sdk/policy/policy.go:140-146 | in any run, each report to the breaker was made by a move of its call: a success, or a failure at the clock reading of that move |
| ExecutorPromises.CompletedCallReported | sdk/policy/policy.go:140-146 | a completed call made exactly one report, a success if it returned nil and else a failure at the reading of the move that made it |
| ExecutorPromises.OpenOnReadings | sdk/policy/policy.go:400-421 | with fewer failures than the threshold since the last success every call passes; else it returns ErrCircuitOpen if and only if it reads less than the reading of the last full group of failures plus openFor |
| ExecutorPromises.OpensWhenThresholdReached | sdk/policy/policy.go:400-421 | once failures fill up the threshold at reading t, a call returns ErrCircuitOpen if it reads less than t + openFor and passes otherwise, until the next report |
| ExecutorPromises.LimiterFollowsOptions | sdk/policy/policy.go:364-385 | in any run a call is let through if and only if the time since the start and since every earlier call has room for one more, at the requests per period and the burst of the options, the requests standing in for a burst not given |
| ExecutorPromises.TimesAreReadings | sdk/policy/policy.go:374-385 | the times the limiter goes by are the clock readings of the calls that asked it |
| ExecutorPromises.SemaphoreFollowsOptions | sdk/policy/policy.go:109-116 | a call is turned away if and only if as many calls as the options allow are between the semaphore and their return |
| ExecutorPromises.RetriesFollowOptions | sdk/policy/policy.go:235-243 | a completed call means what the retry loop does with the attempts and the backoff of the options, one attempt if they give none |
| Json.CollectDefinitionRefs | internal/generator/openapi.go:428-443 | adds exactly the definitions that references anywhere below the value name, whatever the map order |
| Json.RefsExactly | internal/generator/openapi.go:428-443 | a name is found if and only if some way down members and elements leads to an object whose $ref is that local reference, whatever else the object has |
| Definitions.ReachableIsLeastClosed | internal/generator/openapi.go:387-426 | reachability through references is the least set over the roots closed under mention |
| Definitions.FilterDefinitions | internal/generator/openapi.go:387-426 | the worklist terminates although it queues processed names again, and returns exactly the reachable definitions |
| Definitions.NeededResolves | internal/generator/openapi.go:387-426 | a reference from the paths or from a kept definition never loses its target |
| PathGroups.PathVersionExactly | internal/generator/openapi.go:320-330 | a version prefix is found if and only if the path is "/v<digits>" or goes on with a slash |
| PathGroups.HubExactly | internal/generator/openapi.go:320-330 | a path is a hub path if and only if it neither starts with a version nor has one between dots |
| PathGroups.GroupIsOwnVersionOrHub | internal/generator/openapi.go:320-330 | a group other than the hub is a version that occurs in the path |
| PathGroups.GroupExactly | internal/generator/openapi.go:320-330 | the group is the version that starts the path, else the leftmost one between dots, else the hub |
| PathGroups.RewriteKeepsGroup | internal/generator/openapi.go:332-340 | rewriting never moves a path to another group |
| PathGroups.RewriteIdempotentExactly | internal/generator/openapi.go:332-340 | rewriting twice is rewriting once if and only if the path is empty or starts with a slash |
| PathGroups.RewriteCollidesExactly | internal/generator/openapi.go:332-340 | two hub paths meet if and only if one is the other with the prefix already on it |
| OpenApi.ResolvesExactly | internal/generator/openapi.go:387-426 | a document cut to the needed definitions resolves if and only if the rest of it mentions nothing the paths do not reach |
| OpenApi.UnsearchedRestDangles | internal/generator/openapi.go:342-353 | a shared response whose reference dangles |
| OpenApiMerge.MergeDocs | internal/generator/openapi.go:193-266 | fails if and only if two inputs disagree on a rewritten path or a definition, naming such a key; otherwise returns their union |
| OpenApiMerge.PathsAreTheUnion | internal/generator/openapi.go:204-211 | the merged paths are exactly the rewritten inputs with their own items |
| OpenApiMerge.MergedTakesOver | internal/generator/openapi.go:198-252 | besides paths, definitions and tags a merge has what its first document has, with the group in the title |
| OpenApiMerge.OrderDoesNotMatter | internal/generator/openapi.go:193-253 | the order of the documents decides neither success nor paths nor definitions |
| OpenApiMerge.FirstTagsMeaning | internal/generator/openapi.go:218-233 | the merged tags are the first one of each name |
| OpenApiMerge.FirstTagsInOrder | internal/generator/openapi.go:218-233 | the merged tags stand in the order of their first occurrence |
| OpenApiMerge.TagNameExactly | internal/generator/openapi.go:218-226 | a tag has a name if and only if it is an object with that text as its name member |
| OpenApiMerge.AllTagsExactly | internal/generator/openapi.go:203-233 | the tags chosen from are those of the documents, one document after the other |
| OpenApiMerge.MergeResolvesExactly | internal/generator/openapi.go:236-247 | when every reference of a merge still resolves |
| OpenApiSplit.SplitCombined | internal/generator/openapi.go:102-154 | one document per group that occurs, holding its rewritten paths, their definitions and used tags, whatever the map order |
| OpenApiSplit.GroupTakesOver | internal/generator/openapi.go:126-152 | besides paths and definitions a group document has what the combined one has, with the group in the title, and of its tags, in order, those an operation of the group lists |
| OpenApiSplit.KeysKnowTheirGroup | internal/generator/openapi.go:117-133 | no key stands in two group documents |
| OpenApiSplit.PlacesCollideExactly | internal/generator/openapi.go:117-133 | two paths go to the same place if and only if one shadows the other |
| OpenApiSplit.SplitConservesExactly | internal/generator/openapi.go:102-154 | as many paths come out as went in if and only if no hub path is shadowed, and then each has its own item |
| OpenApiSplit.ShadowedPathLosesItem | internal/generator/openapi.go:117-133 | a shadowed path and the one that shadows it share a place, so fewer paths come out and one of two different items is lost |
| OpenApiSplit.ShadowedPathIsLost | internal/generator/openapi.go:332-340 | every split of a document with "/x" and "/hub/x" loses one of the two items |
| OpenApiSplit.GroupResolvesExactly | internal/generator/openapi.go:128-152 | when every reference of a group document still resolves |
| Schemas.CompareMessages | internal/versioning/classify.go:128-194 | the loops over fields compute the comparison whose meaning the lemmas give |
| Schemas.ResolveFinds | internal/versioning/classify.go:144-155 | a legacy field has a hub field if and only if one has its name or carries it as legacy name |
| Schemas.AutoExactly | internal/versioning/classify.go:144-179 | a message converts by itself if and only if every kept field kept its type and cardinality |
| PlanContents.ResolveExactly | internal/versioning/classify.go:144-155 | a legacy field stands for the hub field of its name, or else for the first one that carries it as legacy name |
| PlanContents.ComparisonExactly | internal/versioning/classify.go:128-194 | every legacy field is mapped in order, then every hub field whose name the legacy message lacks; the reason is the last type change |
| PlanContents.PlanAsksExactly | internal/versioning/classify.go:82-124 | what each error of a plan says: a removed message, the last changed field with both types, a removed RPC or one with other types, and no other error |
| Plans.BuildPlan | internal/versioning/classify.go:79-126 | the result is the plan of some order of visiting the two maps |
| PlanAccounting.EachMessageClassifiedOnce | internal/versioning/classify.go:82-104 | for any order, each legacy message the hub kept has exactly one conversion, and nothing else has |
| PlanAccounting.EachRpcNameClassifiedOnce | internal/versioning/classify.go:196-235 | for any order, each name that some legacy RPC has is classified once, for one of the RPCs of that name |
| PlanAccounting.RpcModesExactly | internal/versioning/classify.go:211-233 | an RPC is unimplemented if and only if no hub RPC has its name, and otherwise automatic if and only if the hub RPC it is compared with has the same types |
| PlanAccounting.EachRpcClassifiedOnceExactly | internal/versioning/classify.go:196-235 | every RPC of every legacy service is classified exactly once if and only if no two different ones share a name |
| PlanAccounting.LaterServiceTakesTheName | internal/versioning/classify.go:198-203 | an RPC whose name a later service repeats has no conversion |
| PlanAccounting.ErrorsExactly | internal/versioning/classify.go:82-124 | errors are one per removed or manual message and one per manual or unimplemented RPC, no more |
| PlanAccounting.NoErrorsExactly | internal/versioning/classify.go:79-126 | no errors if and only if every message is automatic and every RPC kept its types |
| PlanAccounting.GenerateConvert | internal/versioning/generate_convert.go:24-32 | hands on the automatic messages, all of them, sorted by name |
| StringOrder.LexExactly | internal/versioning/generate_convert.go:30-32 | the order of names is by prefix, and by the character where two first differ |
| PlanAccounting.SortedIsUnique | internal/versioning/generate_convert.go:30-32 | sorting by a name that tells the elements apart leaves one list |
| PlanAccounting.RenderedMembers | internal/versioning/generate_convert.go:24-32 | the list holds each automatic conversion once |
| PlanAccounting.RenderingIsDeterministic | internal/versioning/generate_convert.go:24-32 | the renderer gets the same list whatever order the maps were visited in |
| Converters.RunConverter | internal/codegen/templates/convert_messages.go.tmpl:11-63 | assigning field by field and appending element by element is the recursive conversion |
| ConverterTypes.RenderedIsPackage | internal/versioning/generate_convert.go:24-38 | the converters that exist are exactly those rendered, for any plan |
| ConverterTypes.PlanWithoutErrors | internal/versioning/classify.go:79-126 | a plan without errors has a converter for every legacy message |
| ConverterTypes.ConvertSound | internal/codegen/templates/convert_messages.go.tmpl:11-63 | in a direction whose assignments all compile, a well-typed value, nested and repeated messages and optional scalars included, converts into a well-typed one |
| ConverterTypes.UnclosedFails | internal/codegen/helpers.go:45-66 | a paired field whose assignment does not compile, whether for want of a converter, for a pointer, for a respelled name or for a foreign type, stops a value |
| ConverterTypes.SoundExactly | internal/codegen/templates/convert_messages.go.tmpl:11-63 | the converters of a direction handle every well-typed value if and only if every pair of fields is spelled as the template writes it and of types of its own version, and is a legacy message, or a scalar assigned to a field that is no pointer |
| ConverterTypes.EnumFieldBreaksConverters | internal/codegen/helpers.go:45-66 | an unchanged enum field passes the planner, and a well-typed value does not convert |
| ConverterTypes.OptionalFieldBreaksConverters | internal/versioning/gengo_schema.go:118-130 | an unchanged optional scalar field passes the planner, which does not see the pointer, and a well-typed value does not convert |
| ConverterTypes.RespelledExactly | internal/codegen/helpers.go:24-34 | the template writes another name than the recorded one exactly for names with an underscore and those that start in lower case |
| ConverterTypes.UnderscoreBreaksConverters | internal/codegen/helpers.go:24-34 | an unchanged field whose Go name has an underscore passes the planner, and a well-typed value does not convert |
| ConverterTypes.ForeignTypeBreaksConverters | internal/versioning/gengo_schema.go:132-149 | an unchanged field of a foreign type with the bare name of a message passes the planner, and a well-typed value does not convert |
| ConverterTypes.ScalarsExactly | internal/codegen/helpers.go:45-66 | scalars are texts, truth values, floats, and each kind of integer in either width |
| ConverterImages.ConvertedIsImage | internal/codegen/templates/convert_messages.go.tmpl:11-63 | in either direction, at every depth: a paired scalar is copied, and zero if it was a nil pointer; a message is converted or stays unset, a list is converted one by one; every other field is unset |
| ConverterImages.ImagesExactly | internal/codegen/templates/convert_messages.go.tmpl:11-37 | on the way to the hub this holds of all messages if and only if no two legacy fields share a hub field |
| RoundTrips.TripOf | internal/codegen/templates/convert_messages.go.tmpl:11-63 | to the hub and back is the value with its removed fields zeroed at every depth |
| RoundTrips.RoundTripExactly | internal/versioning/classify.go:144-191 | where both directions compile, the round trip holds for all values if and only if no two fields of a legacy message share a hub field |
| RoundTrips.SharedFieldLosesValue | internal/versioning/classify.go:144-155 | a value the round trip changes, for any two fields that share a hub field |
| RoundTrips.RenamedAndKeptCollide | internal/versioning/classify.go:145-154 | a field matched by name and one matched by legacy name share a hub field, and a value does not survive the trip |
| Lifecycle.App.AddCleanup | app/app.go:51-53 | registration appends to one list and leaves the others |
| Lifecycle.App.AddBeforeShutdown | app/app.go:56-58 | registers a hook that runs before any component stops, and nothing else |
| Lifecycle.App.AddComponent | app/app.go:61-63 | registers a component behind those registered, and nothing else |
| Lifecycle.App.Shutdown | app/app.go:116-137 | visits hooks, components and cleanups in order whatever fails, and keeps every error in that order |
| Lifecycle.ShutdownErrorsExactly | app/app.go:116-137 | the errors are those of all hooks, components and cleanups that fail, in their order, and no others |
| Lifecycle.ErrorsAccountedFor | app/app.go:116-137 | of any actions, each failed one has one error, in the order of the actions |
| Lifecycle.OrderAsRegistered | app/app.go:116-137 | hooks and components go in the order of registration, cleanups after them in the opposite one |
| Lifecycle.EachOnce | app/app.go:116-137 | the shutdown order visits everything registered exactly once |
| AppRuns.EveryRunSafe | app/app.go:69-114 | every interleaving keeps the invariant that accounts for each result sent, queued and received |
| AppRuns.SendersNeverBlock | app/app.go:70-77 | no component waits for room in the channel or sends on it once closed |
| AppRuns.RunReturnsServeErrors | app/app.go:79-114 | when Run's select took the stop of all components, exactly the multiset of counting Serve errors comes back; when it took the deadline, all stopped or not, at most one, with the timeout recorded |
| AppRuns.ErrorsConserved | app/app.go:69-114 | with every component gone, each Serve error that counts is kept or still queued, as often as it occurred |
| AppRuns.AllErrorsReturnedExactly | app/app.go:98-112 | of a returned run with every component gone, exactly the counting Serve errors come back if and only if none of them is left in the channel |
| AppRuns.DeadlineDropsServeError | app/app.go:98-105 | a run whose only component has stopped with an error that counts when Run takes the deadline, and returns without it |
| AppRuns.ShutdownInOrder | app/app.go:91-113 | what has been shut down is always a prefix of the order, all of it before Run waits; the errors reported are its failures in order, then the timeout exactly when the deadline ended the wait |
| AppRuns.FailuresReported | app/app.go:91-113 | in every state the errors reported are those of the actions that failed, in order, and the timeout exactly when the deadline ended the wait |
| AppRuns.AnswersAreGiven | app/app.go:69-137 | in every run these answers and the results of the components are the ones the environment gave |
| AppRuns.MainNeverStuck | app/app.go:88-114 | every step of Run lowers the number of steps left and no component raises it; once shutdown has begun a step is possible until Run has returned, and before that whenever a result is queued |
| AppRuns.RunIsBounded | app/app.go:69-137 | however the components behave, Run takes at most one step per hook, component and cleanup, one more per component and four others |
| FileSystem.Disk.CopyDir | cmd/zengo/helpers.go:546-569 | in whatever order the walk meets the entries, the whole tree appears at the destination with directories above it, and nothing else changes; it fails only if a file is in the way |
| Snapshots.CompareDirTrees | cmd/zengo/helpers.go:571-598 | tells whether two trees differ in any path, kind or content, from entry counts and one-sided lookups |
| Snapshots.TreeEntries | cmd/zengo/helpers.go:605-634 | collects every node below a root under its relative path |
| Snapshots.SnapshotTargets | cmd/zengo/helpers.go:420-458 | every target is recorded and its tree backed up, nothing outside the backups changes; it fails if and only if a target is blocked by a file |
| Snapshots.BackupNamesDiffer | cmd/zengo/helpers.go:427 | the numbered backup names never coincide |
| Snapshots.BackupNameLength | cmd/zengo/helpers.go:427 | the first thousand have three digits |
| Freshness.SnapshotChanged | cmd/zengo/helpers.go:474-510 | whether a target differs from its snapshot, and when that cannot be told |
| Freshness.DiffTargets | cmd/zengo/helpers.go:460-472 | names the changed targets in order, or fails if one is blocked |
| Freshness.RestoreTargets | cmd/zengo/helpers.go:512-544 | stops at the first target blocked by a file: those before it are as backed up, or absent, it and those after it untouched, and nothing else changes but directories above existing targets |
| Freshness.CheckGenFresh | cmd/zengo/helpers.go:311-366 | for any change generation makes, failed or not: what is reported, which targets are back and which stay as generated, what else is left, and that the backups are gone |
| Freshness.TargetsBackExactly | cmd/zengo/helpers.go:512-544 | every target is back if and only if none is blocked, or the first blocked one was not there before and generating changed none after it |
| Freshness.BlockedTargetIsLost | cmd/zengo/helpers.go:521-524 | two targets that do not come back when the directory of the first has become a file |
| Freshness.StaleExactly | cmd/zengo/helpers.go:460-472 | a stale report names exactly the targets whose trees differ |
| Freshness.NamedInOrder | cmd/zengo/helpers.go:460-472 | and names them in the order of the targets |
| Freshness.ReportExactly | cmd/zengo/helpers.go:331-366 | the check passes if and only if generation succeeded, no target is blocked and none changed; a failed generation and a blocked target are both reported |
| Freshness.TargetsAreApart | cmd/zengo/helpers.go:302-309 | the targets of a service are never nested in one another |
| Brokers.NormalizeBrokers | sdk/transport/queue/kafka/brokers.go:66-75 | the loop trims and drops as the function whose fixed points are known |
| Brokers.TrimShape | sdk/transport/queue/kafka/brokers.go:69 | trimming takes off exactly the spaces at both ends |
| Brokers.NormalizeExactly | sdk/transport/queue/kafka/brokers.go:66-75 | the result has the trimmed entries that are not blank, each once and in order |
| Brokers.NormalizeKeepsExactly | sdk/transport/queue/kafka/brokers.go:66-75 | a list is left alone if and only if nothing in it is empty or untrimmed |
| Brokers.SplitBrokersUndoesJoinExactly | sdk/transport/queue/kafka/brokers.go:77-79 | splitting undoes joining on a normalized list if and only if no broker has a comma |
| Brokers.JoinInjective | sdk/transport/queue/kafka/kafka.go:64 | joined keys tell comma-free normalized lists apart |
| Brokers.SameJoinExactly | sdk/transport/queue/kafka/kafka.go:64 | two lists have one key if and only if their brokers have the same pieces between commas |
| ProducerCache.Producer.ProducerFor | sdk/transport/queue/kafka/kafka.go:63-79 | keeps the cache invariant; the producer used was created for another list if and only if one is open for another list with the same pieces, which never happens on comma-free lists |
| ProducerCache.Producer.EffectiveBrokers | sdk/transport/queue/kafka/kafka.go:131-140 | the call's brokers, else the defaults, else the local one |
| ProducerCache.EffectiveExactly | sdk/transport/queue/kafka/kafka.go:131-140 | the call's brokers count as soon as one is not blank, then those of the producer, then localhost:9092 |
| ProducerCache.Producer.Close | sdk/transport/queue/kafka/kafka.go:143-155 | every producer ever created is closed exactly once, failures or not, and an error is reported if and only if one failed |
| ProducerCache.OpenAtUseExactly | sdk/transport/queue/kafka/kafka.go:63-155 | over any calls of Publish and Close, the producer a Publish got is open at a later moment if and only if no Close took the lock in between |
| ProducerCache.OneLivePerList | sdk/transport/queue/kafka/kafka.go:63-79 | two open producers never have the same key |
| ProducerCache.UsedIsExact | sdk/transport/queue/kafka/kafka.go:63-70 | a cached producer is not the list's own if and only if one is open for another list with the same pieces |
| ProducerCache.CommaSharesProducer | sdk/transport/queue/kafka/kafka.go:64 | two normalized lists with one key |
| Consumer.GroupHandler.ConsumeMessage | sdk/transport/queue/kafka/kafka.go:349-402 | marks a message that does not decode or is handled without error, and only such |
| Consumer.GroupHandler.ConsumeClaim | sdk/transport/queue/kafka/kafka.go:331-347 | the claim is left at the first stop or failure; exactly the messages before it are marked, in order |
| ConsumerRuns.MarkedWasHandled | sdk/transport/queue/kafka/kafka.go:254-402 | over any claims, failures and redeliveries, every message from the last start without a committed position up to the marked position was handled without error or does not decode |
| ConsumerRuns.FailureEndsTheClaim | sdk/transport/queue/kafka/kafka.go:342-344 | after a failure nothing is marked before a new claim is opened |
| ConsumerRuns.FailedIsRedeliveredExactly | sdk/transport/queue/kafka/kafka.go:254-278 | the next claim starts at the failed message or before it if and only if the group has committed a position or starts at the oldest message |
| ConsumerRuns.AtLeastOnceExactly | sdk/transport/queue/kafka/kafka.go:437-452 | no run skips a message if and only if an uncommitted group starts at the oldest one |
| ConsumerRuns.NewestSkips | sdk/transport/queue/kafka/kafka.go:437-452 | a run that skips a failed message |
| ConsumerRuns.CommittedIsResumed | sdk/transport/queue/kafka/kafka.go:254-278 | after a commit the next claim goes on where the session was |
| ConsumerRuns.ClaimIsARun | sdk/transport/queue/kafka/kafka.go:331-347 | a call of ConsumeClaim is a run of the partition system with the same marks |
| ErrorFields.MergeFields | sdk/errx/errx.go:490-521 | the loops with their index compute the merge the algebra is about |
| ErrorFields.MergeMeaning | sdk/errx/errx.go:490-521 | base keys keep their places, new keys follow in order of appearance, and the last value given for a key wins |
| ErrorFields.MergeProperExactly | sdk/errx/errx.go:490-521 | the merge has unique non-empty keys if and only if the base repeats no named key |
| ErrorFields.MergeAssociative | sdk/errx/errx.go:490-521 | merging is associative, on all lists |
| ErrorFields.MergeIdentity | sdk/errx/errx.go:490-521 | the empty list is its identity on lists with unique non-empty keys |
| ErrorMetadata.DecodeFields | sdk/errx/errx.go:465-488 | one field per prefixed name in string order, whatever the map order |
| ErrorMetadata.DecodeProper | sdk/errx/errx.go:465-488 | decoded fields have unique non-empty keys and are exactly the prefixed metadata |
| Errors.ApplyOptions | sdk/errx/errx.go:318-326 | the loop over the options computes what the two lemmas below give a meaning |
| Errors.AppliedPublic | sdk/errx/errx.go:54-58 | the last Public option wins, and without one there is no public message |
| Errors.AppliedFields | sdk/errx/errx.go:61-65 | each field has the value of the last option that gives it one |
| Errors.FromStatus | sdk/errx/errx.go:350-383 | reads a status detail by detail as the function the theorems use |
| ErrorReading.StatusFieldsExactly | sdk/errx/errx.go:350-383 | the fields are the named entries of the last errx detail, each once and in string order; without such a detail there are none |
| ErrorReading.StatusMessagesExactly | sdk/errx/errx.go:350-383 | the internal message is the last that an errx detail gives, else the status's, else the first debug detail, else the error's text; the public one the last given, else the status's, else the default |
| ErrorReading.FirstAppExactly | sdk/errx/errx.go:142-145 | an application error is found if and only if the chain is that error wrapped by texts |
| ErrorReading.StatusOfExactly | sdk/errx/errx.go:145-149 | so is a status, with the outermost text as its message |
| ErrorReading.ForeignErrorsExactly | sdk/errx/errx.go:151-158 | any other error is Canceled or DeadlineExceeded if that is at the bottom of it and else Internal, with its text inside and the default outside |
| ErrorReading.TextExactly | sdk/errx/errx.go:230-252 | the text is the own message and the cause's, with a colon between, or one of them if the other is empty or the same |
| ErrorReading.DefaultsTellApartExactly | sdk/errx/errx.go:424-447 | two codes share a default message if and only if neither is for clients |
| ErrorReading.NewExactly | sdk/errx/errx.go:77-88 | New keeps what it is given; OK becomes Internal and a missing message the public one |
| ErrorReading.NormalizeAddsFields | sdk/errx/errx.go:119-132 | Normalize adds the caller's fields to what is read and changes nothing else |
| ErrorReading.ServerErrorIsRead | sdk/errx/errx.go:326-348 | the server's interceptor sends on exactly what FromError reads |
| Errors.WrapExactly | sdk/errx/errx.go:91-113 | Wrap gives a well-formed error if and only if the fields it starts from repeat no key |
| Errors.WrapPrefersCaller | sdk/errx/errx.go:91-113 | the caller's code, messages and field values win, the wrapped error's fill the rest, and it stays the cause |
| Errors.EveryNestingExactly | sdk/errx/errx.go:77-158 | any nesting of New, Wrap, Normalize, FromError, serverError and Go's wrapping, over foreign and zero errors, gives unique keys; it has a code other than OK and both messages if and only if every zero Error lies below a Wrap |
| ErrorHops.WireShowsFace | sdk/errx/errx.go:303-348 | the wire carries the code, the public message and a bare identity detail |
| ErrorHops.WireIsTheShownFaceExactly | sdk/errx/errx.go:303-348 | two errors look the same on the wire if and only if they show the same code and public message |
| ErrorHops.CrossingKeepsExactly | sdk/errx/errx.go:204-228 | crossing keeps the pair if and only if there is a code and a public message to keep |
| ErrorHops.AnnotationExactly | sdk/errx/errx.go:138-158 | annotating any error keeps the code and public message it shows if and only if there is an application error, or no status, or the status carries its own public message, or the text shows as its message does |
| ErrorHops.HopsExactly | sdk/errx/errx.go:91-132 | over any sequence of crossings, interceptors, field additions, annotations and rewraps with codes.OK, of any error, the pair shown stays the same at every step if and only if no annotation is harmful |
| ErrorHops.StatusIsAFixpointExactly | sdk/errx/errx.go:204-228 | the wire carries the same status at every hop under the same condition |
| ErrorHops.NestingShowsItself | sdk/errx/errx.go:303-316 | the pair shown is the error's own code and public message if and only if every zero Error lies below a Wrap |
| ErrorHops.AnnotatedStatusIsPublic | sdk/errx/errx.go:145-149 | annotating a status without a public message of its own makes the annotation public |
| ErrorHops.AnnotatingWhatCrossedIsPublic | sdk/errx/errx.go:145-149 | annotating any error that has just crossed the wire makes the annotation public |
| ErrorHops.ZeroErrorFace | sdk/errx/errx.go:138-145 | a zero Error has no code until it is wrapped or crosses the wire |

## Left out

- Float rounding in the token bucket: rates, tokens and times are reals.
- Timeouts, contexts and panics inside the wrapped function: what an attempt returns and whether a wait was cancelled are inputs; a nil executor only calls the function.
- The gRPC interceptor, the HTTP middleware and `grpcError`: plumbing around `Do`.
- Copying of JSON values: documents are values, so aliasing between a document and its clones cannot arise.
- Reading and writing the OpenAPI files, and the grouping of whole files by directory.
- Non-ASCII digits in path versions: the patterns match ASCII digits only, as here.
- Reasons and manual paths as text: a reason is a constructor with its parts, and `manualPath`, which only names a file in an error, is not modelled; neither is the check that a manual file exists.
- Loading schemas and naming Go identifiers: a well-formed schema has distinct, non-empty field names, none of which the template spells as another, and message types are keyed by name. Upper-casing is that of ASCII letters. A converter that does not compile is one without a result on the values that reach the faulty assignment.
- Half mappings of the plan: the converters ignore them, as the template does.
- The round trip that starts at the hub: it only keeps the fields the legacy schema has.
- Symbolic links, file modes and I/O errors other than a file where a directory is needed; the walk over a tree meets its entries in any order.
- The manifest and the other inputs that choose the tracked targets: they are flags of `GeneratedTargets`.
- The client library behind Kafka: sessions, commits and the starting point of a claim follow its documented behaviour, with one claim of a partition open at a time; messages deleted by retention before they are read are not modelled. `Register` and the closing of consumer groups are not modelled.
- Encoding and sending in `Publish`: only the choice of the producer is modelled.
- Reading broker lists from configuration and environment.
- Captured stacks, typed nil errors and errors that wrap several others: an error chain has one cause at each step, and the text of a gRPC status is an input. A status found below a wrapper has the wrapper's text as message, as the gRPC library does it.
- The package `errx` as objects: errors are values, so `clone` and the slices shared before it are not modelled.

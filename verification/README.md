# Proofs about the session store, the scope policy, resource checks, Initiators and the API document

A Dafny model of the framework logic of ensoria-template, and proofs of what it promises. `dafny verify
dfyconfig.toml` checks all of it.

| file | what it models |
|---|---|
| `sessions.dfy` | the session store as documented: a ledger that keeps every record and every revocation for ever, and what every run of it keeps |
| `session_cache.dfy` | `cacheStore` over a shared cache with times to live, proved to answer as the ledger does |
| `session_race.dfy` | many nodes on one cache, interleaved one clock reading or cache request at a time |
| `browser.dfy`, `browser_runs.dfy` | verifier, authentication middleware, `POST /session`, `DELETE /session`, any other endpoint, and one browser's cookie jar (section 5.3 of RFC 6265) |
| `scope.dfy` | the scope implication resolver, `Expand`, `SatisfiesScopes`; the specification is graph reachability |
| `resource.dfy` | `Authorize`, `authorizationState`, and the adapter's `Handle` around any handler |
| `initiator.dfy` | the Initiator's wire form, `ClaimSet` and its bounded reporting, hops over brokers and job queues |
| `schema.dfy`, `paths.dfy` | the schema builder with its cycle guard; the path printer against the path reader |
| `describe.dfy` | the endpoint list and its independence of module order |
| `language.dfy` | Accept-Language parsing, ranking and message selection |
| `claims.dfy` | `Claims.Int` through a float64 |
| `sorting.dfy`, `text.dfy`, `wrappers.dfy` | stable sorting and the order of strings; splitting, joining and trimming; `Option` |

## How the session part fits together

The cache is a map from keys to values with an expiry instant. Every request to it may fail, without effect or
after taking effect (`Effect`), and it may drop an expired entry at once, later, or never (`SharedCache.Collect`).
The cache carries a ghost `ledger` of everything that happened to it; each method of `CacheStore` states the ledger's
next state and that its answer agrees with the ledger, and `Replay` carries that over every run of every number of
stores sharing the cache. `write`'s branch for a time to live that is not positive is in the code and proved dead.
Everything about the request path is then proved over the ledger. Clocks, generated ids, token verdicts and cache
failures are parameters.

The proofs assume a clock that never goes back and reads later than the zero `time.Time`, and ids that were never
used before.

## Where the code and its documentation part

- `Claims.Int` (`internal/plamo/authkit/claims.go:60-62`) promises a number beyond 2^53 reads as absent rather than
  off by one. 2^53 + 1 and its negative decode to the float64 2^53 and read as 2^53.
  `ClaimNumbers.NeverOffByOneExcept` says these are the only two.
- A path into a document whose root is an array is printed as `[].name`, which `findField` resolves to nothing
  (`Paths.PrintedPathsResolve`, `Paths.RootArrayFieldsAreLost`).
- `Propagator.Inject` overwrites the headers it writes and leaves the others in the map it is given, so an ID or
  claims left there by an earlier Initiator arrive with the new kind. `Initiators.JobHopIsExactUnlessLeftovers` gives
  the exact condition, `Initiators.LeftoverIdIsTakenOver` an instance.
- A handler that replaces the request context with one that does not carry the adapter's state and then calls
  `Authorize` is on record, but its success is not refused on that account; `Resource.Handle` counts such calls apart.
- RevokeSubject reads its clock and then writes its marker, and a Lookup reads its clock, then the marker. Two
  RevokeSubject calls whose markers arrive against the order of their clocks leave the older one, and a Lookup that
  dwells past the session's absolute deadline before it reads the marker may find it expired. In both cases a revoked
  session is served once more, and in no other (`SessionRace.VerdictIsExact`; instances `OvertakingIsReachable`,
  `OutlastingIsReachable`). Otherwise RevokeSubject is final, whatever was in flight
  (`SessionRace.RevokeSubjectIsFinal`).
- Revoke of one session is final under interleaving exactly when, at the deletion, no write of the session is under way
  and no Lookup that holds its record can still find a refresh due (`SessionRace.RemovalLastsExactlyWhenQuiet`). It is
  final after a Create or a Lookup that has completed (`CompletedCreateStaysEnded`, `CompletedUseStaysEnded`), and not beside a Lookup between its read and
  its write (`LookupAtWorkPutsItBack`).
- A sign-out that failed is meant to leave the session; it leaves the cookie, and every session except its own when the
  deletion took effect without being acknowledged (`BrowserRuns.FailedSignOutKeepsBoth`,
  `BrowserRuns.FailedSignOutMayEnd`).
- A sign-in replaces the session the browser held, but leaves it alive exactly when the request that should end it is
  lost, which the code logs (`BrowserRuns.LeftBehindExactly`).
- A path with array levels behind its last name resolves like the path without them: `tags[][]` finds a list `tags` of strings, although
  no such path is printed (`Paths.ResolvablePathsAreThePrinted`).

## Model

| member | source | states |
|---|---|---|
| Sessions.StepKeepsLedgerOk | internal/plamo/sessionkit/store.go:73-137 | every operation keeps: absolute deadline = creation + profile, and the recorded last use lags the real one by less than the refresh interval |
| Sessions.RunKeepsLedgerOk | internal/plamo/sessionkit/store.go:73-200 | the same over every run |
| Sessions.AnswersTellWhoIsAlive | internal/plamo/sessionkit/store.go:98-137 | with every request answered a Lookup finds the session exactly when it is alive, with the subject, scopes and deadlines it was created with; a dead one is never found, a live one never reported gone |
| Sessions.CreateOpens | internal/plamo/sessionkit/store.go:73-96 | a Create is refused exactly without a subject, and else opens the session from its own clock for the lifetime of the profile asked for |
| Sessions.DeadStaysDead | internal/plamo/sessionkit/store.go:117-131 | over every run, a session that is over is never found again |
| Sessions.GoneStaysGone | internal/plamo/sessionkit/store.go:103-131 | the same for any id that names no live session and is never generated |
| Sessions.SessionIsFixed | internal/plamo/sessionkit/session.go:108-128 | in every run only the last-seen instant of a session ever changes |
| Sessions.RevokeSubjectIsFinal | internal/plamo/sessionkit/store.go:149-173 | after RevokeSubject at r, in every continuation, no session of the subject opened at or before r is alive at any instant |
| Sessions.RevokeSubjectIsExact | internal/plamo/sessionkit/session.go:162-167 | RevokeSubject ends those sessions and no other, and none opened later |
| Sessions.RefreshIsExact | internal/plamo/sessionkit/store.go:191-200 | a Lookup that finds the session leaves the last-seen instant within a tenth of the idle limit and moves it to its own instant from there on, and changes nothing else |
| Sessions.IdleAccuracy | internal/plamo/sessionkit/config.go:23-33 | with u the last use, a Lookup before u + 9/10 of the idle limit finds the session, one from u + the idle limit on never does |
| Sessions.SteadyUseKeepsAlive | internal/plamo/sessionkit/store.go:191-200 | a session used with gaps under 9/10 of the idle limit is alive at every Lookup up to its absolute deadline, whatever else the store is asked in between |
| Sessions.NeverPastItsDeadlines | internal/plamo/sessionkit/session.go:111-114 | in every run from the empty store no session is alive past its profile or past the idle limit after its last use |
| SessionCache.KeyTextInjective | internal/plamo/sessionkit/store.go:12-17 | the two kinds of cache key never meet, whatever the ids and subjects |
| SessionCache.MarkerDecides | internal/plamo/sessionkit/store.go:162-189 | the one marker, present or long dropped, refuses a session before its absolute deadline exactly when some revocation ever made does |
| SessionCache.SharedCache.Collect | internal/plamo/sessionkit/store.go:202-216 | the cache dropping any expired entries at any time leaves every future answer the same |
| SessionCache.CacheStore.Create | internal/plamo/sessionkit/store.go:73-96 | answers and changes the ledger as it should; the record holds the profile asked for and expires at the nearer of creation + lifetime and creation + idle limit |
| SessionCache.CacheStore.Lookup | internal/plamo/sessionkit/store.go:98-137 | finds a session exactly when the ledger says it is alive; answers that the cache failed only if a request it makes went unanswered |
| SessionCache.CacheStore.Revoke | internal/plamo/sessionkit/store.go:139-147 | deletes the one record, and reports success only when that was acknowledged |
| SessionCache.CacheStore.RevokeSubject | internal/plamo/sessionkit/store.go:165-173 | writes the marker for the longer of the two lifetimes, and reports success only when that was acknowledged |
| SessionCache.CacheStore.Touch | internal/plamo/sessionkit/store.go:191-200 | rewrites the record exactly from a tenth of the idle limit after it was last seen; a write that fails is not reported as a use |
| SessionCache.CacheStore.Write | internal/plamo/sessionkit/store.go:202-221 | stores under the nearer deadline, and the past-deadline branch is unreachable |
| SessionCache.Replay | internal/plamo/sessionkit/store.go:19-30 | over every run, any number of stores, any dropping of expired entries and any failures, every answer is the ledger's, or that the cache failed when a request the call makes did |
| SessionRace.ActKeepsSound | internal/plamo/sessionkit/store.go:73-216 | every single clock reading and cache request keeps: each subject's last marker to arrive is in the cache, or its time is over |
| SessionRace.VerdictIsExact | internal/plamo/sessionkit/store.go:117-136 | in every interleaving a Lookup past its deadline check serves the session exactly when no revocation covers it, or an older marker overtook the covering one, or the marker was outlasted |
| SessionRace.OnlyServedIsRefreshed | internal/plamo/sessionkit/store.go:129-136 | a Lookup writes exactly when it serves the session and a refresh was due, the instant its clock read, for what is left of the nearer deadline |
| SessionRace.OutlastingTakesADeadline | internal/plamo/sessionkit/store.go:149-173 | the marker is outlasted only by a Lookup whose clock reading and marker read lie on two sides of the session's absolute deadline |
| SessionRace.RevokeSubjectIsFinal | internal/plamo/sessionkit/store.go:149-173 | markers arriving in order and the marker read before the absolute deadline, no Lookup serves an older session after RevokeSubject, not even from a record read or a write sent before |
| SessionRace.OvertakingIsReachable | internal/plamo/sessionkit/store.go:165-173 | a reachable run where an older marker arrives last and a revoked session is served |
| SessionRace.OutlastingIsReachable | internal/plamo/sessionkit/store.go:117-136 | a reachable run where a Lookup finds the marker of a revoked session expired and serves it |
| SessionRace.RemovalLastsExactlyWhenQuiet | internal/plamo/sessionkit/store.go:139-200 | ending one session lasts in every continuation exactly when no write of it is under way and no Lookup holding its record can still find a refresh due |
| SessionRace.CompletedCreateStaysEnded | internal/plamo/sessionkit/store.go:139-147 | for a session whose Create completed and which no Lookup holds, at any later instant, it lasts |
| SessionRace.CompletedUseStaysEnded | internal/plamo/sessionkit/store.go:191-200 | so it does for one that a Lookup has refreshed, once that Lookup completed |
| SessionRace.LookupAtWorkPutsItBack | internal/plamo/sessionkit/store.go:191-200 | beside a Lookup that has read the record it fails exactly when a refresh can fall due before the absolute deadline |
| Browser.Verify | internal/plamo/authkit/verifier.go:283-305 | a header beats a cookie; the store is asked only when no header decides, and its answer is the ledger's; what each credential comes to is in the four `BrowserRuns` lemmas below |
| Browser.VerifySession | internal/plamo/authkit/verifier.go:307-355 | found, gone and unavailable give a caller, an anonymous request with a discard, and no decision |
| Browser.CreateSession | internal/app/auth/api/controller/http/session_post.go:75-133 | creates first, then ends the session the browser held; the exact trace of store operations and answers |
| Browser.DeleteSession | internal/app/auth/api/controller/http/session_delete.go:60-86 | ends the session; discards the cookie only if that was acknowledged |
| Browser.Reply | internal/middleware/auth.go:35-65 | refusals, the endpoint, and the discard instruction on whatever it answered |
| Browser.Serve | internal/middleware/auth.go:119-153 | a whole request: its response and its trace of store operations |
| BrowserRuns.OnlyItsOwnSessionEnds | internal/app/auth/api/controller/http/session_post.go:110-133 | a request ends no session but the one its own cookie names, and only by signing out or by a successful sign-in |
| BrowserRuns.DiscardOnlyWhenGone | internal/plamo/authkit/verifier.go:307-355 | a browser is told to drop its cookie only when the session it names is over, then and in every continuation |
| BrowserRuns.OutageDecidesNothing | internal/plamo/authkit/verifier.go:342-354 | a cache request the verification needs that fails yields 503 and no discard, and leaves the store as it was unless it was the refresh that went through unacknowledged |
| BrowserRuns.UnauthorizedIsTrue | internal/middleware/auth.go:138-152 | a session endpoint answers 401 exactly for a credential known to be bad, none at all, or a cookie the store answered for and whose session is over |
| BrowserRuns.FailedSignOutKeepsBoth | internal/app/auth/api/controller/http/session_delete.go:72-82 | a failed sign-out leaves the cookie; a session survives it exactly unless it is the cookie's own and its deletion took effect unacknowledged |
| BrowserRuns.FailedSignOutMayEnd | internal/app/auth/api/controller/http/session_delete.go:60-86 | for every live session, a sign-out answered 503 after which it is over |
| BrowserRuns.AdmissionIsReachability | internal/plamo/restkit/security.go:17-38 | past verification, an endpoint admits exactly public requests and callers of an accepted scheme that carry or reach every required scope; else 401 to an anonymous one and 403 to a caller |
| BrowserRuns.BadCredentialsGetNowhere | internal/middleware/auth.go:125-153 | a bad token or an unknown key is 401 at every endpoint, public ones too, and an unanswered key lookup 503; neither asks the store or reaches the endpoint |
| BrowserRuns.CallerIsTheCredentials | internal/plamo/authkit/verifier.go:289-355 | the caller an endpoint sees has the subject and scopes of the token, key or session it came by, that scheme, and the policy |
| BrowserRuns.HeadersDecide | internal/plamo/authkit/verifier.go:289-305 | with a good token neither key nor cookie changes any endpoint's answer, with a good key the cookie does not; each gets the endpoint's own answer exactly where its scheme and scopes may, else 403 |
| BrowserRuns.CookieDecides | internal/plamo/authkit/verifier.go:307-355 | without a header: a session found is admitted by its scopes, one gone is anonymous and its cookie discarded, no answer is 503 |
| BrowserRuns.SessionEndpointsAnswer | internal/app/auth/api/controller/http/session_post.go:75-108 | what POST and DELETE /session answer each credential, body and store answer |
| BrowserRuns.NewSessionIsTheTokens | internal/app/auth/api/controller/http/session_post.go:85-108 | a 201 opens under the new id exactly the token's subject and scopes, persistent as the body asked, from the handler's clock for that profile's lifetime |
| BrowserRuns.SessionSpeaksForItsCaller | internal/plamo/authkit/principal.go:153-186 | through any run in between, requests on the new cookie are the token's subject with the token's scopes, under the session scheme |
| BrowserRuns.NoSessionIsLeftBehind | internal/app/auth/api/controller/http/session_post.go:99-133 | over every run whose sign-ins reach the session they replace, whatever else fails, every live session a browser ever obtained is the one in its jar |
| BrowserRuns.LeftBehindExactly | internal/app/auth/api/controller/http/session_post.go:110-133 | one visit leaves a live session outside the jar exactly by a successful sign-in over a live session it was given, with the request to end that one lost |
| Scope.Normalize | internal/plamo/authkit/scope.go:93-116 | succeeds exactly when no name is empty; same graph without self-loops and repetitions, in any iteration order |
| Scope.Resolver.Resolve | internal/plamo/authkit/scope.go:118-168 | terminates on every table; keeps path = scopes being walked, resolved scopes closed and correct; an error is the first of all walks continuing the path that close a cycle |
| Scope.Resolver.Gather | internal/plamo/authkit/scope.go:144-162 | collects the direct implications and all they reach, each once |
| Scope.GatheredIsReach | internal/plamo/authkit/scope.go:153-162 | one step over the closures of the direct implications is full reachability |
| Scope.RouteHasCycle | internal/plamo/authkit/scope.go:120-138 | the reported route contains a real cycle |
| Scope.ResolveAll | internal/plamo/authkit/scope.go:80-90 | succeeds exactly on an acyclic table |
| Scope.NewScopeImplications | internal/plamo/authkit/scope.go:65-91 | succeeds exactly on well-named tables without cycles; then every scope's closure is the sorted duplicate-free list of what it reaches; a cycle reported is the first of all, by name at the start and by the table's order after that |
| Scope.FirstCycleIsUnique | internal/plamo/authkit/scope.go:82-85 | a table with several cycles names the same one on every run |
| Scope.PolicyIsUnique | internal/plamo/authkit/scope.go:48-52 | nothing of the order maps were walked in shows in the closure |
| Scope.Closure | internal/plamo/authkit/scope.go:201-224 | shows exactly the scopes that imply something, with their closures |
| Scope.Expand | internal/plamo/authkit/scope.go:170-199 | computes the expansion the lemmas below are about |
| Scope.ExpandIsExact | internal/plamo/authkit/scope.go:170-199 | held scopes are an unchanged prefix; each further reachable scope follows exactly once |
| Scope.ExpandIsIdempotent | internal/plamo/authkit/scope.go:19-32 | expanding twice is expanding once, as a sequence |
| Scope.ExpandIsMonotone | internal/plamo/authkit/scope.go:19-32 | holding more never means effectively holding less |
| Scope.SatisfiesScopes | internal/plamo/authkit/principal.go:105-139 | answers yes exactly when every required scope is effectively held |
| Scope.SatisfiesIsReachability | internal/plamo/authkit/principal.go:105-139 | that is, carried, or with a policy reachable in its table from a scope carried |
| Resource.Authorize | internal/plamo/restkit/resource.go:147-189 | succeeds exactly when a value of the declared type was passed and the declared predicate approves the caller for it; a misuse is on record and marked, everything else a 403 |
| Resource.AuthorizationState.Verify | internal/plamo/restkit/resource.go:338-350 | refuses a success after a reported misuse, silently, or without approval, with a record |
| Resource.CheckDeclaredStatus | internal/plamo/restkit/declaration.go:148-178 | an undeclared success status panics in strict mode and is on record outside it; no declared status is 200 |
| Resource.Handle | internal/plamo/restkit/controller.go:67-120 | for every handler: it runs exactly past every gate, 400 or 422 before it; a success leaves exactly when every call on the request passed the declared type and, where a check is declared, the predicate approved the caller for one of them; the exact list of drift records |
| Resource.ReportsCountMisuses | internal/plamo/restkit/resource.go:280-306 | as many reports as misused calls, each naming what was passed and what was declared |
| Initiators.WireForm | internal/plamo/initiator/wire.go:53-78 | the headers written: kind always, ID and claims only where there are some, nothing else |
| Initiators.Received | internal/plamo/initiator/wire.go:93-152 | what any metadata reads as: kind and ID as they stand and the listed claims, or unknown exactly without a kind or with claims that are no object or name what is never carried |
| Initiators.ReadsBackWhatWasWritten | internal/plamo/initiator/wire.go:53-133 | reading back what was written gives the same kind and ID and the claims the receiver carries; the handler sees the publisher's own metadata |
| Initiators.NothingForbiddenIsRestored | internal/plamo/initiator/wire.go:93-152 | whatever arrives, no forbidden or unlisted claim and no empty kind gets in |
| Initiators.NewClaimSet | internal/plamo/initiator/claims.go:81-107 | refuses exactly the empty name, scope and the seven registered claims, listing every offending one; else holds the names listed, once each and sorted |
| Initiators.ClaimSet.ReportDropped | internal/plamo/initiator/claims.go:155-183 | at most one record per call, none for a name dropped before; keeps the invariant below |
| Initiators.ClaimSet.Receive | internal/plamo/initiator/claims.go:143-153 | keeps exactly the carried claims, and every other name counts as dropped |
| Initiators.ClaimSet.Restore | internal/plamo/initiator/wire.go:111-152 | reads as the wire form says, and drops only what was readable |
| Initiators.ReportingIsBoundedAndComplete | internal/plamo/initiator/claims.go:34-38 | at most 32 names and one notice, the notice exactly past 32 dropped names, and up to 32 every dropped name on record |
| Initiators.FromIsTheCaller | internal/plamo/initiator/initiator.go:134-212 | per mark: an entry's caller gives its subject, the kind of its scheme and exactly its listed claims; no caller is unauthenticated; no mark carries no claims, and without a caller is unknown |
| Initiators.FromIsCarriable | internal/plamo/initiator/initiator.go:192-212 | every mark answers with a kind and no forbidden claim |
| Initiators.Publish | internal/app/mb/mb.go:76-119 | refuses exactly metadata naming a reserved header; else adds the headers beside it |
| Initiators.Deliver | internal/app/mb/mb.go:49-59 | the handler's context answers what was restored, and its metadata is what was received without the reserved headers |
| Initiators.PublishAndDeliver | internal/app/mb/mb.go:49-119 | a message published for an entry's caller is handled as that subject and kind, with the claims both ends list |
| Initiators.ChainKeepsWhoAndNarrowsClaims | internal/plamo/initiator/claims.go:59-69 | across any chain of hops kind and ID are unchanged and the claims are the origin's restricted to every set on the way |
| Initiators.WithoutACarrierNothingIsKnown | internal/app/mb/mb.go:67-71 | without carried metadata the origin reads as unknown |
| Initiators.JobHopIsExactUnlessLeftovers | internal/plamo/initiator/propagator.go:28-41 | a job hop is exact exactly when headers already in the map are harmless |
| Initiators.LeftoverIdIsTakenOver | internal/plamo/initiator/propagator.go:28-33 | an instance where they are not |
| Schemas.Builder.BuildSchema | internal/plamo/apidoc/schema.go:29-76 | computes the recursion over the set of structs on the path, hands the set back unchanged, and terminates |
| Schemas.Builder.StructFields | internal/plamo/apidoc/schema.go:78-98 | the shown fields in declaration order, all under the same set |
| Schemas.TagReadsBack | internal/plamo/apidoc/schema.go:177-201 | a tag written from a name and options gives that name or else the field's, omitempty exactly when it is an option, and hides the field exactly for "-" |
| Schemas.FieldFollowsItsTag | internal/plamo/apidoc/schema.go:78-98 | a field has its tag's name and its type's schema, and is optional exactly by omitempty or an Optional type |
| Schemas.EachFieldContributes | internal/plamo/apidoc/schema.go:78-98 | in any list of fields each shown one contributes one field in its place, any other none |
| Schemas.EachTypeIs | internal/plamo/apidoc/schema.go:47-116 | the schema of every scalar, of time, arrays and maps |
| Schemas.WrappersOnlyAddNull | internal/plamo/apidoc/schema.go:35-46 | pointers and Optionals make a schema nullable and change nothing else; an Optional under another wrapper is an object without fields |
| Schemas.StructIs | internal/plamo/apidoc/schema.go:51-66 | a struct is an object named after it with its fields, or without them where it stands below itself |
| Schemas.OccurrencesExpandAlike | internal/plamo/apidoc/schema.go:31-32 | without self-containing structs the guard cuts nothing: a type looks the same at every occurrence |
| Paths.SplitArraySuffix | internal/plamo/apidoc/schema.go:154-162 | takes off and counts the array suffixes |
| Paths.FindField | internal/plamo/apidoc/schema.go:126-152 | follows the segments of the path through names and array levels |
| Paths.PathReadsBack | internal/plamo/apidoc/schema.go:129-162 | a path printed from steps with plain names splits into those steps |
| Paths.PrintedPathsResolve | internal/plamo/apidoc/example.go:51-94 | every path the example walk prints under a struct resolves to the schema built from that struct field; under any other root none resolves |
| Paths.ResolvablePathsAreThePrinted | internal/plamo/apidoc/schema.go:126-152 | under a struct, a path resolves to a field exactly when it is a path printed for that field with any number of array levels behind it |
| Paths.RootArrayFieldsAreLost | internal/plamo/apidoc/example.go:66-67 | every field of a list of structs is printed under a path that resolves to nothing |
| Describe.ResourceIsFirstWord | internal/plamo/apidoc/describe.go:255-278 | the first path segment that is no parameter names the resource, in lower case without a final "s"; "_" is the application's own |
| Describe.CollectIDPrefixes | internal/plamo/apidoc/describe.go:42-60 | collects declared prefixes only, for every resource that has one, and of several the last declared |
| Describe.EachControllerOnce | internal/plamo/apidoc/describe.go:62-95 | every controller of every module has exactly one place in the list, under its path and method, in module order |
| Describe.SortedAscends | internal/plamo/apidoc/describe.go:32-40 | sorting keeps the endpoints; paths ascend, and on one path DELETE, GET, PATCH, POST, PUT |
| Describe.Build | internal/plamo/apidoc/describe.go:13-40 | the sorted list of all endpoints described under those prefixes |
| Describe.DescribeAllPermutes | internal/plamo/apidoc/describe.go:20-21 | the same endpoints for every order of the modules |
| Describe.BuildTwice | internal/plamo/apidoc/describe.go:17-30 | the same document for every order, given distinct routes and agreeing prefixes |
| Language.SortIsStable | internal/plamo/vkit/lang.go:83-85 | the stable sort by weight orders by weight and then by place |
| Language.Deduplicate | internal/plamo/vkit/lang.go:87-95 | keeps the first entry of each language, in order |
| Language.HeaderReadsBack | internal/plamo/vkit/lang.go:55-76 | a header written from ranges, further subtags, spaces and any parameters reads as the primary subtags, each with its last well-formed weight, or 1 |
| Language.ParseAcceptLanguage | internal/plamo/vkit/lang.go:41-96 | for every header text, each accepted language once, by its largest weight and then by where that is first reached |
| Language.RankingIsTheAccepted | internal/plamo/vkit/lang.go:77-96 | the languages returned are exactly those some entry gives a positive weight, each once; never "*", never one only refused |
| Language.RankingIsByWeight | internal/plamo/vkit/lang.go:83-95 | a language precedes another only with an entry that outweighs all of the other's, or equals the best and comes first |
| Language.RankingIsUnique | internal/plamo/vkit/lang.go:41-43 | that order determines the list |
| Language.PickMessage | internal/plamo/vkit/lang.go:26-39 | the first available language's message, else any, else none |
| Language.BestAvailableExists | internal/plamo/vkit/lang.go:23-31 | there is a best available entry exactly when some accepted language has a message |
| Language.MessageFor | internal/plamo/vkit/lang.go:13-39 | the message of the best available entry; with none, the English one, whatever order a map has |
| ClaimNumbers.NearestStepsIsNearest | internal/plamo/authkit/claims.go:9-12 | the rounding is to nearest, ties to even |
| ClaimNumbers.DecodedReadsAs | internal/plamo/authkit/claims.go:215-227 | what every whole number that crossed JSON reads as |
| ClaimNumbers.NeverOffByOneExcept | internal/plamo/authkit/claims.go:60-62 | it reads as itself or absent exactly when it is not 2^53 + 1 or its negative |
| ClaimNumbers.RepresentationsAgree | internal/plamo/authkit/claims.go:182-213 | up to 2^53 every representation reads as the same number |
| ClaimNumbers.IntegersReadExactly | internal/plamo/authkit/claims.go:182-213 | a json.Number written as an integer reads exactly through the whole of int64 and not past it, and so does an unsigned value |
| ClaimNumbers.FloatReadsAs | internal/plamo/authkit/claims.go:215-227 | a float64 reads as n exactly when it is the whole number n within 2^53: no fraction, infinity or NaN does |

## Left out

- Redis, SQL, JWT parsing, key sets, brokers, gRPC, dependency wiring and commands: unseen libraries and I/O; a token or an API key enters as its verdict, and a key's caller is of the apiKey scheme.
- `newID` failing, durations past the range of int64, and claims inside a session's snapshot.
- A cached record that decodes to nothing usable (`internal/plamo/sessionkit/store.go:110-115`); records are values here.
- Cookie attributes, Max-Age and the browser dropping a cookie by itself: the jar changes only through Set-Cookie.
- WebSocket upgrades, CORS, origin checks, startup checks, and the validation rules themselves: a rule violation enters as a flag.
- SessionCache.SharedCache.Collect: instants of expiry are exact, and a write's time to live starts at the clock reading it was computed from; `session_race.dfy` drops the second assumption.
- Initiators.ChainKeepsWhoAndNarrowsClaims: the JSON text of claims is a supplied codec that reads back what it wrote; claims that cannot be encoded do not occur.
- Initiators.NewClaimSet: a refusal lists the offending names, not its error texts; a nil set is an empty list of allowed names.
- Resource.Handle: `rest.Result.ToResponse` is not part of this model; a success enters with the status and content type it was rendered with.
- Schemas.Builder.BuildSchema: `optional.ValueTypeOf` is not part of this model and is taken to recognise exactly an Optional; also package paths, the type name shown for a nested Optional, and named types that contain themselves without a struct in between.
- Paths.PrintedPathsResolve: quantifies over types without self-containing structs, as the example walk has no guard; generated values are not modelled.
- Describe.Build: an endpoint's rendered content is its controller and the collected prefixes; path parameters, bodies and errors are functions of these. Lower-casing covers ASCII.
- Language.ParseAcceptLanguage: lower-casing and number syntax are parameters; weights are real numbers, so an infinite one or NaN does not occur.
- ClaimNumbers.FloatReadsAs: the float64 that a number with a fraction or an exponent is parsed to is a parameter.
- Constraint flags and nullability written into the schema (`internal/plamo/apidoc/constraint.go`): easy once the field is found.
- Log wording, error messages, worker and scheduler endpoints, and the sample modules.

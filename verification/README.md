# cf-tunnel in Dafny

A model of the parts of cf-tunnel whose correctness is not visible in any single function body, with proofs over every
input, every run or every interleaving. `dafny verify dfyconfig.toml` checks the whole project.

| file | system part |
|---|---|
| `RouteFlag.dfy` | the `--cf-route` option language: parser, printer, and their agreement |
| `FlagMeaning.dfy` | what such a flag value means, option by option |
| `Routes.dfy`, `Router.dfy` | route rules, the six-part route index, matching, order independence |
| `RouteValidator.dfy` | the separately written route validator and its agreement with the router |
| `RouteMeaning.dfy` | paths, hosts and matching in terms of segments, labels and the rules as written |
| `RoutedProxy.dfy` | the string-keyed proxy table and end-to-end dispatch |
| `EdgePool.dfy` | the edge address pool: bindings, rotation, load, retries |
| `Retry.dfy` | the reconnect loop and its capped exponential backoff in 64-bit arithmetic |
| `RetryOnPool.dfy` | the reconnect loop of one connection on the pool, among the operations of all the others |
| `HASupervisor.dfy` | the high-availability supervisor as a machine over all interleavings |
| `HAOutcomes.dfy` | what that supervisor returns: the error or result it received, and which errors can be lost |
| `MultiTunnel.dfy` | the multi-tunnel supervisor as a machine over all interleavings |
| `ResponseStack.dfy` | the response writer adapter over QUIC and HTTP/2, whole streams to their end |
| `StreamProperties.dfy` | what the peer of such a stream may rely on |
| `Base64.dfy`, `HeaderCodec.dfy`, `ResponseHeaders.dfy` | the edge header wire format and the HTTP/2 response header filter |
| `ForwardedIP.dfy` | the client-IP header pass |
| `Text.dfy`, `Results.dfy` | Go `strings` helpers, Option and Result |

Objects that the program updates in place are classes (`Router`, `Flag`, `RoutedProxy`, `EdgeAddressPool`, `Upstream`,
`ResponseWriterAdapter`, `Request`), each with a function giving its abstract value; the methods are proved against
functions on those values and the theorems are proved about the functions. Goroutines are step machines: a run is any
sequence of enabled actions. Range loops over Go maps choose the next key nondeterministically, so every iteration order
is covered. Map values of type `Header`, route rules and wire events are plain values.

## What the code does not do

Several obvious claims are false of the code. Each has a lemma with an input, and an exact condition for all inputs.

- A rule path with surrounding blanks passes the configuration validator and is refused by the router
  (`UntrimmedPathIsRefused`); a validated list builds exactly when its paths are trimmed (`ValidatedBuildsIffTrimmed`). A target
  with a leading blank passes it too and makes `NewRoutedProxy` fail (`UntrimmedTargetIsRefused`); a validated list is accepted
  exactly when its paths are trimmed and its targets parse as written (`ValidatedIsAcceptedIff`).
- A rule's host is compared with the request's after brackets and a port have been taken off the latter only. The hosts that
  requests can have are exactly the lower-case texts without a bracket at either end (`RequestHostIff`). A rule for the IPv6
  literal "[::1]" is valid and built and answers no request (`BracketedHostIsPassedOver`); which routes answer one is
  `RouteIsReachedIff`. A request that names a rule's host as the rule does reaches it exactly when the host has no bracket at
  either end and does not read as a host with a port (`NamedAsIsIff`): "a:8" does (`PortHostIsMissed`). A host without
  brackets is reached as a bracketed literal with or without a port, and bare or with a port too when it has no colon
  (`RequestHostReachesRule`).
- The proxy table is keyed by the host as written in the rule but looked up by the normalised host. A lone rule gets to serve
  exactly when its host is lower-case and trimmed as written and some request reaches it (`LoneRuleServesIff`); matches of a
  lone rule go to the default proxy exactly when its host is not (`UnnormalisedHostMissed`).
- Rules share a backend when their keys meet, as they can when a server name holds a comma: two rules that the router accepts
  and a request that goes to the wrong backend are in `ServerNameCommaMisroutes`. For every rule list all requests (without NUL
  in the host) are served rightly exactly when the key of each rule that answers any was first filed by a rule with the same
  backend (`AllServedIff`). Commas in hosts, paths and targets do no harm to configured rules: URL targets start with a scheme
  and "//", which no path holds (`DispatchIsRight`).
- A router built by hand from a rule whose host holds a NUL can answer for another host (`NulHostMismatch`). All its answers to
  requests without NUL in the host are right exactly when no exact rule's host has a request host before its first NUL
  (`AllRightIff`). No configuration reaches this: paths start with '/' and valid hosts hold none, which separates the joined
  key as well (`ValidatedMatchIsBest`).
- The last `select` of the HA supervisor may return nil although a connection failed. A run in which connection
  0 never reports Connected returns that connection's result or the context's error (`UnconnectedResult`) and so loses none
  (`NothingLostUnconnected`); after that any can be: for every number of connections, with or without an
  interval, and for all results there is a run that returns nil (`AnyErrorCanBeLost`), and for
  each of the errors one that returns it (`AnyErrorCanWin`). What the supervisor has received it does return
  (`ReceivedIsReturned`).
- Backoff can leave 64 bits for huge caps and then means no wait at all (`LargeCapOverflows`, exactly when:
  `BackoffExactIff`). No configuration reaches this: base and cap are set only to the constants of `NewBridgeRunner`
  (internal/cftunnel/runtime/runner.go:41-55), which `SmallValuesReachable` covers.
- In-order allocation agrees with the modulo provider exactly when no address repeats before every address has appeared
  (`AgreesIffRepeatsLast`); with the list a, a, b it does not (`EarlyRepeatExample`).
- Repeated rotations of one index, the others being idle, alternate between two addresses and never try a third
  (`RotationOrbit`).
- Over QUIC a handler that sets no status, or leaves one unsent behind a hijack, gets no head; `AnsweredIff` says exactly which,
  and `SilentHandler` shows one. Over HTTP/2 the server supplies a 200. It would do so for an error of the orchestrator as well,
  but no run reaches that case: `GetOriginProxy` never reports one and `NewUpstreamOrchestrator` refuses a missing proxy
  (internal/cftunnel/runtime/upstream_orchestrator.go:34-77).
- Over QUIC a handler can send bytes ahead of the head: a hijack before any status, then a write on the connection
  (`HijackedBytesLeak`). `RawAfterHeadIff` says exactly which handlers do, for every pattern of write failures, and
  `RawAfterHeadWhenHeadsOk` says it without a recursion for handlers whose head writes all succeed.
- An informational status that a handler sets first, such as early hints, is latched as the response's: over QUIC the peer sees
  it and over HTTP/2 a 200 behind it (`EarlyHintsHideStatus`); the final status reaches the peer exactly under the condition
  of `FinalStatusReachesIff`.
- An IPv6 zone containing a comma makes the client-IP pass change its own output (`CommaInZoneIsNotFixed`, exactly when:
  `FixedPointIff`).
- A line break inside a base64 part shortens what is decoded but not the buffer, so zero bytes may be appended
  (`LineBreakAddsZero`, exactly when: `BufferLength`).

## Model

| member | source | states |
|---|---|---|
| Routes.NormalizeRouteHostIdempotent | internal/cftunnel/origin/router.go:152-154 | normalising a rule host again changes nothing |
| RouteFlag.RejectRemovedRouteOptionKeys | internal/config/config.go:252-266 | reports the first field whose key is one of the removed options, nothing else |
| RouteFlag.ParseRouteTargetOptions | internal/config/config.go:165-250 | the stripping and option loops compute exactly the specified rule or the specified error |
| RouteFlag.Flag.Set | internal/config/config.go:141-163 | appends exactly the rule the text denotes, or leaves the list alone and reports the parser's error |
| RouteFlag.Flag.String | internal/config/config.go:114-139 | the printed rules joined by commas |
| RouteFlag.PrintOne | internal/config/config.go:119-137 | appending options one at a time gives the printed form of the rule |
| RouteFlag.PrintThenParse | internal/config/config.go:114-250 | a printed rule parses back field for field, whatever commas and `=` its target holds |
| RouteFlag.ParsedIsPrintable | internal/config/config.go:141-250 | every rule the parser produces meets the printable condition |
| RouteFlag.ParsePrintParse | internal/config/config.go:114-250 | parse, print, parse is stable for every accepted text |
| RouteFlag.PrintableIffParsed | internal/config/config.go:114-250 | the rules some text denotes are exactly the printable ones |
| FlagMeaning.PrintedForm | internal/config/config.go:114-139 | the printed text of a rule, character by character: path, target, then only the options that differ from their defaults |
| FlagMeaning.FlagMeans | internal/config/config.go:141-250 | for every path, target and list of options, with keys in any case and blanks around, the parsed rule or the error: no key twice, two texts, three switches each with its field |
| FlagMeaning.LastFieldMeans | internal/config/config.go:165-266 | a last field with any other key stays part of the target, or is refused when its key is a removed one |
| FlagMeaning.RefusedValues | internal/config/config.go:141-200 | blank values, values without `=` and values ending in an empty field are refused, each with its error |
| Router.EqualLengthPrefixes | internal/cftunnel/origin/router.go:83-88 | two covering prefixes of equal length are equal, so the unstable sort cannot matter |
| Router.HostPathKeyInjective | internal/cftunnel/origin/router.go:148-150 | without NUL in the hosts, the joined key separates host and path |
| Router.SlotTakenIff | internal/cftunnel/origin/router.go:61-114 | the builder's duplicate checks on maps and slices agree with the specification's slots |
| Router.AddedRepresents | internal/cftunnel/origin/router.go:92-114 | adding a rule in a free slot keeps the index an exact picture of the rules |
| Router.Router.AddHostRoute | internal/cftunnel/origin/router.go:92-114 | refuses exactly duplicates, otherwise files the route and changes nothing else |
| Router.Router.AddGenericRoute | internal/cftunnel/origin/router.go:61-80 | the same for rules without a host |
| Router.Router.SortPrefixes | internal/cftunnel/origin/router.go:83-88 | both prefix lists become permutations ordered by decreasing length |
| Router.NewRouter | internal/cftunnel/origin/router.go:33-90 | succeeds exactly on buildable lists with an index built from them, otherwise stops at the first rule that spoils the list |
| Router.Router.Match | internal/cftunnel/origin/router.go:116-146 | the scan returns what the index holds for the normalised host and path |
| Router.MatchIsBestIff | internal/cftunnel/origin/router.go:116-146 | request by request: a match is the best applicable rule of the original list and there is none exactly when no rule applies, if and only if no exact rule of another host and path shares the joined key |
| Router.MatchIsBest | internal/cftunnel/origin/router.go:33-146 | so for NUL-free hosts every answer is right |
| Router.PlainMatchIsBest | internal/cftunnel/origin/router.go:116-150 | and so it is, whatever else rule hosts hold, when they hold no slash and rule paths start with one, for requests with a rooted path or without NUL |
| Router.BestIsUnique | internal/cftunnel/origin/router.go:116-146 | the best rule is unique, so the specification determines the answer |
| Router.AllRightIff | internal/cftunnel/origin/router.go:116-165 | a router answers every request without NUL in its host rightly exactly when no exact rule's host has, before a first NUL, a text that requests can have as host |
| Router.NulHostMismatch | internal/cftunnel/origin/router.go:148-150 | a router for which it does not: a rule that does not apply is returned |
| Router.BuildableIsOrderFree | internal/cftunnel/origin/router.go:39-81 | permuting the rules never changes whether the router builds |
| Router.MatchIsOrderFree | internal/cftunnel/origin/router.go:39-146 | permuting the rules never changes any match, whatever order equal-length prefixes were left in |
| Router.RequestHostIff | internal/cftunnel/origin/router.go:156-165 | the hosts that requests can have are exactly the lower-case texts without a bracket at either end |
| Router.NamedAsIsIff | internal/cftunnel/origin/router.go:152-165 | a request naming a host as a rule does, in any case and with blanks around, has that host exactly when it has no bracket at either end and does not read as a host with a port |
| Router.RequestHostReachesRule | internal/cftunnel/origin/router.go:156-165 | a rule host without brackets is reached as a bracketed literal with or without a port, and bare or with a port when it has no colon, in any case of letters |
| Router.PortHostIsMissed | internal/cftunnel/origin/router.go:156-165 | a request for "a:8" has the host "a", so a rule for "a:8" is not reached by its name |
| Router.BracketedRuleIsDead | internal/cftunnel/origin/router.go:116-165 | a rule whose host starts with a bracket answers no request |
| RouteMeaning.CoversIff | internal/cftunnel/origin/router.go:116-146 | a prefix covers exactly the paths whose segments start with its own, itself included |
| RouteMeaning.ClassifyMeaning | internal/cftunnel/origin/router.go:167-195 | the accepted rule paths are exactly the trimmed, rooted ones without an empty inner segment whose only star is a last segment behind another one; which kind and normal form each gets |
| RouteMeaning.MatchMeaning | internal/cftunnel/origin/router.go:116-146 | over the rules as written: no answer exactly when no rule lets the request through, otherwise the rule preferred to all others that do, own host first, then exact path, more segments, root |
| RouteMeaning.NothingUnanswered | internal/cftunnel/origin/router.go:33-146 | no request that some rule lets through goes unanswered, whatever hosts and paths hold |
| RouteMeaning.PrefixRuleAnswers | internal/cftunnel/origin/router.go:116-146 | a prefix rule answers every request for its own path and everything below it, for its own host or for all |
| RouteMeaning.SplitHostIff | internal/cftunnel/origin/router.go:156-165 | the addresses read as a host with a port, and the host of each |
| RouteValidator.ValidateRouteRules | internal/config/config.go:479-519 | no error exactly on valid lists, otherwise the first rule that spoils the list with its fault |
| RouteValidator.GrammarsAgree | internal/config/config.go:541-568 | on trimmed paths the validator's path grammar and the router's accept the same and normalise alike |
| RouteValidator.ValidatedBuildsIffTrimmed | internal/config/config.go:479-519 | a validated list builds a router exactly when every path is trimmed |
| RouteValidator.BuildableIsValid | internal/config/config.go:479-519 | what the router builds from valid hosts and targets passes the validator's path and duplicate checks |
| RouteValidator.UntrimmedPathIsRefused | internal/config/config.go:489-503 | a rule accepted by the validator and refused by the router |
| RouteValidator.ValidatedMatchIsBest | internal/config/config.go:479-535 | a validated list with trimmed paths builds a router whose every answer is right, with no condition on NUL in rules, for requests with a rooted path or without NUL |
| RouteMeaning.ValidHostIff | internal/config/config.go:521-535 | a valid host is one without an empty label, blank, slash or backslash |
| RouteMeaning.FaultMeaning | internal/config/config.go:479-568 | which fault is reported for a rule, the tests taken in their order, the path test in terms of segments |
| RoutedProxy.ProxyKeyInjective | internal/cftunnel/origin/routed_proxy.go:131-141 | comma-free host, path and server name: the key determines all six fields, even for targets with commas |
| RoutedProxy.KeyDeterminesBackend | internal/cftunnel/origin/routed_proxy.go:131-141 | with URL targets, slash-free hosts, single-slashed paths and comma-free server names equal keys mean equal backends, whatever commas the rest holds |
| RoutedProxy.ServerNameCommaMisroutes | internal/cftunnel/origin/routed_proxy.go:18-92 | two accepted rules whose server names hold commas, and a request that is sent to the wrong one's backend |
| RoutedProxy.FillTable | internal/cftunnel/origin/routed_proxy.go:29-47 | under each key stands the backend of the first rule filed there, or the first unparsable target is reported |
| RoutedProxy.NewRoutedProxy | internal/cftunnel/origin/routed_proxy.go:18-54 | succeeds exactly when the router builds and every target parses, with the default proxy alone when there are no rules |
| RoutedProxy.RoutedProxy.PickRouteProxy | internal/cftunnel/origin/routed_proxy.go:76-92 | the lookup of the matched route's key, falling back to the default proxy |
| RoutedProxy.PickExactly | internal/cftunnel/origin/routed_proxy.go:76-92 | for every rule list a match gets the backend of the first rule filed under its key, the default proxy when there is none, and so its own backend exactly when that rule has it |
| RoutedProxy.RouteIsReachedIff | internal/cftunnel/origin/router.go:116-165 | a route answers some request without NUL in its host exactly when it has no host, a host that requests can have, or, for an exact rule, such a text before a NUL |
| RoutedProxy.AllServedIff | internal/cftunnel/origin/routed_proxy.go:18-92 | all requests without NUL in the host are served by their own backend exactly when the lookup key of each rule that answers any was first filed by a rule with the same backend |
| RoutedProxy.ValidatedIsAcceptedIff | internal/cftunnel/origin/routed_proxy.go:18-54 | a validated list is accepted exactly when every path is trimmed and every target parses as written |
| RoutedProxy.UntrimmedTargetIsRefused | internal/cftunnel/origin/routed_proxy.go:36-39 | a target with a leading blank is valid and refused |
| RoutedProxy.DispatchIsRight | internal/cftunnel/origin/routed_proxy.go:18-92 | for validated rules with normalised hosts and comma-free server names every request with a rooted path, or without NUL in host and path, goes to a proxy with the target, server name and TLS flag of the best rule and its host flag, the default proxy's when it sets none, and to the default proxy exactly when no rule applies |
| RoutedProxy.UnnormalisedHostMissed | internal/cftunnel/origin/routed_proxy.go:115-121 | a match of a lone rule is served by its own backend exactly when the rule's host is normalised as written |
| RoutedProxy.LoneRuleServesIff | internal/cftunnel/origin/routed_proxy.go:76-121 | a lone rule serves some request without NUL in its host exactly when its host is normalised as written and answerable in the sense of `RouteIsReachedIff` |
| RoutedProxy.BracketedHostIsPassedOver | internal/cftunnel/origin/routed_proxy.go:76-92 | the valid, built and normalised rule for "[::1]" is passed over for the default proxy by every request |
| RoutedProxy.StrippedPath | internal/cftunnel/origin/routed_proxy.go:94-113 | the stripped path starts with '/' and put after the route's path gives the request path back |
| RoutedProxy.StripsOnlyWhenAsked | internal/cftunnel/origin/routed_proxy.go:94-113 | a path is changed only when the matched route asks for it, is not the root and is a prefix of the path |
| RoutedProxy.EmptyTargetIsRefused | internal/cftunnel/origin/routed_proxy.go:36-39 | no list with an empty target is accepted |
| EdgePool.EdgeAddressPool.EnsureResolved | internal/cftunnel/runtime/edge_pool.go:44-64 | asks the resolver only while unresolved, keeps the state on error |
| EdgePool.EdgeAddressPool.UnusedAddr | internal/cftunnel/runtime/edge_pool.go:120-134 | the first listed address neither bound nor excluded, none when there is none |
| EdgePool.EdgeAddressPool.AddrFor | internal/cftunnel/runtime/edge_pool.go:69-86 | one atomic allocation step of the pool machine |
| EdgePool.EdgeAddressPool.Rotate | internal/cftunnel/runtime/edge_pool.go:91-115 | one atomic rotation step of the pool machine |
| EdgePool.LifeSafe | internal/cftunnel/runtime/edge_pool.go:44-115 | resolution happens once, failed requests leave bindings alone, successful ones return a listed address |
| EdgePool.RequestFailure | internal/cftunnel/runtime/edge_pool.go:44-86 | why a request fails: no resolver, a failed lookup, or an empty list, now or earlier |
| EdgePool.LifeIsOneRun | internal/cftunnel/runtime/edge_pool.go:44-115 | over every life: nothing is handed out before the first successful lookup; its list is then fixed whatever later lookups say, and the pool and all replies are those of one run of allocations and rotations over it |
| EdgePool.RunKeepsInv | internal/cftunnel/runtime/edge_pool.go:69-134 | after every interleaving the bindings are injective or cover every address |
| EdgePool.DistinctWhilePossible | internal/cftunnel/runtime/edge_pool.go:69-134 | addresses in use = min(bound indices, distinct addresses); no sharing while there are enough |
| EdgePool.UseNeverShrinks | internal/cftunnel/runtime/edge_pool.go:91-134 | the number of addresses in use never falls and a full pool stays full |
| EdgePool.SaturatedBindingsStay | internal/cftunnel/runtime/edge_pool.go:91-134 | in a saturated pool no run changes an existing binding |
| EdgePool.RotateWhenCovered | internal/cftunnel/runtime/edge_pool.go:103-114 | once all addresses are in use every rotation is the identity |
| EdgePool.RotateMoves | internal/cftunnel/runtime/edge_pool.go:91-115 | otherwise rotating a bound index moves it, and only it, to a different free address |
| EdgePool.RotateUnbound | internal/cftunnel/runtime/edge_pool.go:91-115 | rotating an index without an address gives it the first free one, if there is one |
| EdgePool.RotateTo | internal/cftunnel/runtime/edge_pool.go:91-134 | one rotation goes to the earliest address not held by others, or to the second when already there |
| EdgePool.RotationOrbit | internal/cftunnel/runtime/edge_pool.go:91-134 | n rotations alternate between those two addresses |
| EdgePool.LoadBound | internal/cftunnel/runtime/edge_pool.go:69-86 | any address is held by at most one index more than the modulo rule sends to it, duplicates allowed |
| EdgePool.LoadBoundDistinct | internal/cftunnel/runtime/edge_pool.go:69-86 | at most 1 + ceil(n/k) holders for k distinct addresses and indices below n |
| EdgePool.AgreesIffRepeatsLast | internal/cftunnel/runtime/edge_discovery.go:104-110 | in-order first uses agree with the per-connection modulo provider exactly when repeats come last |
| EdgePool.EarlyRepeatExample | internal/cftunnel/runtime/edge_discovery.go:104-110 | with a, a, b they do not |
| EdgePool.RetryMovesOn | internal/cftunnel/runtime/edge_pool.go:69-115 | between two resolutions with one rotation the address stays exactly when every other address was held at the rotation |
| RetryOnPool.AttemptsMoveOn | internal/cftunnel/runtime/runner.go:254-289 | over a whole run of one connection's loop, among any operations of the others, consecutive attempts use the same address exactly when every other address was held at the rotation between them |
| Retry.BackoffDuration | internal/cftunnel/runtime/runner.go:308-327 | the doubling loop with its two cap tests in wrapping 64-bit arithmetic |
| Retry.BackoffExactIff | internal/cftunnel/runtime/runner.go:308-327 | delay = min(base*2^(max(n,1)-1), cap) for every n exactly when some doubling lands between the cap and 2^63 |
| Retry.SmallValuesReachable | internal/cftunnel/runtime/runner.go:308-327 | which holds for every base and cap in the lower half of the range |
| Retry.LargeCapOverflows | internal/cftunnel/runtime/runner.go:317-322 | just above it the second delay is negative |
| Retry.BackoffMonotone | internal/cftunnel/runtime/runner.go:308-327 | delays are positive, never shrink and never exceed the cap |
| Retry.BackoffDoubles | internal/cftunnel/runtime/runner.go:308-327 | the first delay is the base and each further one doubles it, all of them at most the cap |
| Retry.BackoffUnset | internal/cftunnel/runtime/runner.go:308-327 | no delay without a base, and without a cap doubling up to the end of 64 bits |
| Retry.RunConnectionWithRetry | internal/cftunnel/runtime/runner.go:254-289 | stops at the first run it does not survive with that run's outcome; each wait is the backoff of the failures since the last run that connected; it asks the pool for an address and a rotation alternately; in closed form, with k the last run that connected, or the first, run m counts as failure m + 1 - k, waits the backoff of that number and exhausts the budget exactly when that number exceeds it, and a cancelled, finished or refused run ends the loop first |
| Retry.FailuresAre | internal/cftunnel/runtime/runner.go:269-277 | the retry count at run m is m + 1 - k for the last connected run k, that run included, or for the first run |
| Retry.SurvivedBound | internal/cftunnel/runtime/runner.go:269-277 | survived runs are bounded by the budget times the reconnects plus the failures since |
| Retry.RunBound | internal/cftunnel/runtime/runner.go:254-289 | total runs <= maxConnRetries*(c+1)+1 for c runs that connected and dropped |
| Retry.NeverConnecting | internal/cftunnel/runtime/runner.go:254-289 | the bound is met: a peer that never connects is tried exactly maxConnRetries+1 times and reported exhausted |
| Retry.WaitBeforeExhaustion | internal/cftunnel/runtime/runner.go:284-306 | the total wait without a connect is the sum of the successive backoffs, at most one cap per wait |
| HASupervisor.NormalizeHAConnections | internal/cftunnel/runtime/runner.go:399-407 | unchanged in 1..256, otherwise the nearer end |
| HASupervisor.SupervisorSafe | internal/cftunnel/runtime/runner.go:129-231 | in every interleaving: started indices are 0..m-1 once each, distinct as uint8; the signal closes at most once and before any other start; on return all started connections ended and a non-nil result is a context error or one some connection returned |
| HASupervisor.StartsAfterConnected | internal/cftunnel/runtime/runner.go:154-191 | in every run a Connected report of connection 0 precedes every other start |
| HASupervisor.UnconnectedResult | internal/cftunnel/runtime/runner.go:154-167 | a run in which connection 0 never reports Connected starts no other and returns connection 0's own result or the context's error |
| HASupervisor.NothingLostUnconnected | internal/cftunnel/runtime/runner.go:154-167 | so it returns nil only if no connection failed |
| HAOutcomes.ReceivedIsReturned | internal/cftunnel/runtime/runner.go:154-213 | in every run that returns, each action that cancels the group determines the result: the error or first result received there, or the context's error when it was the context that ended, or, outside the interval, had ended by the time the group drained |
| HAOutcomes.ResultLaw | internal/cftunnel/runtime/runner.go:154-213 | every run that returns has received something or seen all connections end; nil comes only of the latter or of a first result without error |
| HAOutcomes.NoStartAfterCancel | internal/cftunnel/runtime/runner.go:154-213 | no connection is started once the group is cancelled |
| HAOutcomes.StartsAreSpaced | internal/cftunnel/runtime/runner.go:169-191 | with a registration interval the timer fires between any two starts |
| HAOutcomes.WaitingNotices | internal/cftunnel/runtime/runner.go:154-213 | a waiting supervisor can take the context's end, an error, a result or a report whenever it waits for it |
| HAOutcomes.AnyErrorCanBeLost | internal/cftunnel/runtime/runner.go:166-213 | for every number of connections, with or without an interval, and all results of the connections there is a run with these results that returns nil |
| HAOutcomes.AnyErrorCanWin | internal/cftunnel/runtime/runner.go:166-213 | and for the error of each connection there is a run with these results that returns it |
| HASupervisor.AlwaysReturns | internal/cftunnel/runtime/runner.go:154-213 | the supervisor makes at most 2n+1 steps, and can make one whenever every started connection has ended, until it has returned |
| MultiTunnel.RunReportsExactly | internal/cftunnel/multi_runner.go:63-132 | in every interleaving started tunnels are a prefix; on return all ended, nil exactly when none failed, otherwise exactly the failures are reported, each once |
| MultiTunnel.SkippedOnlyWhenCancelled | internal/cftunnel/multi_runner.go:97-101 | a tunnel is left unstarted only after the context ended or a tunnel failed, and only with a start interval |
| MultiTunnel.InterruptedIff | internal/cftunnel/multi_runner.go:97-123 | in every run an interval can be interrupted exactly when the context has ended or a failed tunnel has cancelled the group |
| MultiTunnel.NoStartAfterInterrupt | internal/cftunnel/multi_runner.go:97-101 | no tunnel is started after an interrupted interval |
| MultiTunnel.StartsAreSpaced | internal/cftunnel/multi_runner.go:90-101 | with a start interval the timer fires between any two starts |
| MultiTunnel.FailureStopsStarts | internal/cftunnel/multi_runner.go:63-132 | a failure during the first interval can keep all other tunnels from starting, and is what `Run` returns |
| MultiTunnel.ErrorsInArrivalOrder | internal/cftunnel/multi_runner.go:82-88 | the errors are listed in the order in which the tunnels failed |
| MultiTunnel.FailureText | internal/cftunnel/multi_runner.go:111-132 | the text of two failures, and what each further one appends to it |
| MultiTunnel.AlwaysReturns | internal/cftunnel/multi_runner.go:63-109 | `Run` makes at most 2n+1 steps, and can make one whenever every started tunnel has ended, until it has returned |
| ResponseStack.Upstream.WriteRespHeaders | internal/cftunnel/runtime/quic_runtime_connection.go:209-242 | the head write of both transports: QUIC marks it tried even when it fails, HTTP/2 maps 101 to 200, hands it to its server and ignores it once hijacked |
| ResponseStack.Upstream.Write | internal/cftunnel/runtime/http2_runtime_connection.go:287-298 | a body write of both transports: QUIC puts a 200 head before a first write, an HTTP/2 server commits to its head |
| ResponseStack.Upstream.Hijack | internal/cftunnel/runtime/http2_runtime_connection.go:252-267 | HTTP/2 hijacks once and only after a status, QUIC always |
| ResponseStack.Upstream.WriteErrorResponse | internal/cftunnel/runtime/http2_runtime_connection.go:269-281 | an error head only when no head was tried |
| ResponseStack.ResponseWriterAdapter.WriteHeader | internal/cftunnel/runtime/upstream_response_writer.go:32-38 | only the first status is kept |
| ResponseStack.ResponseWriterAdapter.Write | internal/cftunnel/runtime/upstream_response_writer.go:40-51 | sends the pending head first and no body when that fails |
| ResponseStack.ResponseWriterAdapter.Hijack | internal/cftunnel/runtime/upstream_response_writer.go:53-69 | sends a pending or websocket head first, then asks the upstream |
| ResponseStack.ResponseWriterAdapter.Finalize | internal/cftunnel/runtime/upstream_response_writer.go:71-82 | sends a pending head unless hijacked |
| ResponseStack.RunWebsocket | internal/cftunnel/origin/proxy.go:95-122 | the direct websocket path: 502 on a failed round trip, otherwise the head, then the copy |
| ResponseStack.RunTCP | internal/cftunnel/runtime/upstream_origin_proxy.go:62-138 | acknowledges before copying, copies only when acknowledged, and fails exactly when cancelled or when the first copy error is not benign |
| ResponseStack.HandleDataStream | internal/cftunnel/runtime/quic_runtime_connection.go:136-181 | the wire of a whole QUIC stream, its error path included |
| ResponseStack.ServeHTTP | internal/cftunnel/runtime/http2_runtime_connection.go:73-142 | the wire of a whole HTTP/2 stream and whether it is aborted, with the head its server supplies, configuration updates and the control stream's writes included |
| StreamProperties.OneHeadPerHandler | internal/cftunnel/runtime/upstream_response_writer.go:32-82 | for every call sequence and failure pattern: at most one successful head, all heads tried stand for the first status set, no body before the head |
| StreamProperties.RunStatus | internal/cftunnel/runtime/upstream_response_writer.go:32-58 | the latched status is that of the first call that sets one |
| StreamProperties.StreamSafe | internal/cftunnel/runtime/quic_runtime_connection.go:136-242 | every stream of either transport: at most one successful head, no body before it, an error head only alone on its stream; exactly one head on an HTTP/2 stream that is not aborted, or whose origin answered with a final status |
| StreamProperties.PayloadConserved | internal/cftunnel/runtime/upstream_response_writer.go:40-51 | with each write reporting what it sent, the layers lose, double and reorder nothing: the peer receives the bytes reported written, in order, and no body behind a failed head |
| StreamProperties.CopyDelivers | internal/cftunnel/runtime/upstream_origin_proxy.go:170-191 | a copy delivers what precedes the first failed write and what that write sent, and fails exactly then |
| StreamProperties.DirectDelivers | internal/cftunnel/origin/proxy.go:95-122 | a direct websocket's heads stand for the origin's status or 502, and payload is delivered only behind a successful head |
| StreamProperties.DirectOpens | internal/cftunnel/origin/proxy.go:95-122 | the first thing its peer sees: the origin's status or 502, over HTTP/2 a 200 for 101 and an informational head for other 1xx |
| StreamProperties.TcpOpens | internal/cftunnel/runtime/upstream_origin_proxy.go:62-84 | a TCP stream opens with its acknowledgement, a 200 over HTTP/2 |
| StreamProperties.RefusedGetsError | internal/cftunnel/runtime/http2_runtime_connection.go:73-142 | a request refused before anything was written gets the error response and nothing else |
| StreamProperties.AbortedIff | internal/cftunnel/runtime/http2_runtime_connection.go:73-142 | exactly which HTTP/2 streams are aborted: websockets that fail behind their head and TCP copies whose first error is not benign, or that were cancelled |
| StreamProperties.FlushCommits | internal/cftunnel/runtime/http2_runtime_connection.go:205-234 | an informational head that is flushed brings a 200 behind it even on an aborted stream |
| StreamProperties.Http2HijackIff | internal/cftunnel/runtime/http2_runtime_connection.go:252-267 | over all call sequences: a hijack succeeds exactly when a status is known by then and none succeeded before |
| StreamProperties.RawAfterHeadIff | internal/cftunnel/runtime/quic_runtime_connection.go:209-242 | a handler's whole stream has every hijacked byte behind a successful head exactly over HTTP/2 or when its calls do not leak: no bytes are written on a connection taken before a head was sent |
| StreamProperties.RawAfterHeadWhenHeadsOk | internal/cftunnel/runtime/upstream_response_writer.go:40-69 | when no head write fails: exactly when each write on the connection behind a hijack is also behind a call that forces the head out |
| StreamProperties.HijackedBytesLeak | internal/cftunnel/runtime/quic_runtime_connection.go:234-237 | a hijack and a write before any status: every byte goes out ahead of any head |
| StreamProperties.AnsweredIff | internal/cftunnel/runtime/upstream_origin_proxy.go:33-48 | every HTTP/2 stream that is not aborted has exactly one head; over QUIC, when no head write fails, exactly the handlers that neither force a head nor leave a status to `finalize` get none and all other streams get one |
| StreamProperties.SilentHandler | internal/cftunnel/runtime/upstream_origin_proxy.go:45-47 | a handler that does nothing: an empty QUIC stream, and the server's 200 over HTTP/2 |
| StreamProperties.FinalStatusReachesIff | internal/cftunnel/runtime/upstream_response_writer.go:32-38 | the handler's final status reaches the peer exactly when it sets no informational one first, or when it is the 200 an HTTP/2 server supplies |
| StreamProperties.EarlyHintsHideStatus | internal/cftunnel/runtime/upstream_response_writer.go:32-38 | a 404 behind early hints reaches the peer over neither transport |
| Base64.RoundTrip | internal/cftunnel/runtime/http2_protocol.go:58 | decoding an encoding gives the bytes back |
| Base64.SymbolsAreTheAlphabet | internal/cftunnel/runtime/http2_protocol.go:58 | the symbols in the order of table 1 of RFC 4648 |
| Base64.GroupIsBigEndian | internal/cftunnel/runtime/http2_protocol.go:58 | four symbols hold the bits of three bytes, highest first |
| Base64.EncodeLength | internal/cftunnel/runtime/http2_protocol.go:65-66 | the encoded length is the computed one |
| Base64.DecodeSucceedsIff | internal/cftunnel/runtime/http2_protocol.go:114-119 | what decodes: alphabet characters only, not one more than a multiple of four |
| Base64.BufferLength | internal/cftunnel/runtime/http2_protocol.go:112-120 | a decoded part has the buffer's length, and no added zeros exactly when line breaks took no byte's room |
| Base64.LineBreakAddsZero | internal/cftunnel/runtime/http2_protocol.go:112-120 | a part with one line break that gains a zero byte |
| HeaderCodec.WriteB64 | internal/cftunnel/runtime/http2_protocol.go:79-86 | appends the encoding; a new scratch buffer only when the old one is too small |
| HeaderCodec.EmitPair | internal/cftunnel/runtime/http2_protocol.go:88-95 | appends one framed pair, with the measured scratch buffer never replaced |
| HeaderCodec.MeasureAll | internal/cftunnel/runtime/http2_protocol.go:61-75 | the same total size and a scratch size that fits every part, whichever order the loop takes |
| HeaderCodec.SerializeHeaders | internal/cftunnel/runtime/http2_protocol.go:60-98 | the framed pairs in some iteration order, exactly one character shorter than the size computed in any order, from which the edge reads back each name's values in order and nothing else |
| HeaderCodec.SizeIgnoresOrder | internal/cftunnel/runtime/http2_protocol.go:63-75 | the two range loops may visit the map differently without changing the size |
| HeaderCodec.DeserializeHeaders | internal/cftunnel/runtime/http2_protocol.go:100-123 | the scanning loop computes the specified pairs or error |
| HeaderCodec.WireRoundTrip | internal/cftunnel/runtime/http2_protocol.go:60-123 | every list of pairs, empty names and values included, is read back |
| HeaderCodec.SerializeRoundTrip | internal/cftunnel/runtime/http2_protocol.go:60-123 | for every header map and order exactly the emitted pairs are read back, each name's values in order |
| HeaderCodec.DeserializeSucceedsIff | internal/cftunnel/runtime/http2_protocol.go:100-123 | exactly the texts whose non-empty pieces are two decodable parts are accepted |
| ResponseHeaders.RespHeaders | internal/cftunnel/runtime/http2_runtime_connection.go:205-225 | the edge decodes exactly the client headers with their values in order; Content-Length is copied and nothing else changes |
| ResponseHeaders.ClientHeadersIff | internal/cftunnel/runtime/http2_runtime_connection.go:352-361 | exactly the pseudo-headers and the edge's three header families are kept from clients, in any case of letters |
| ForwardedIP.ParseForwardedChain | internal/cftunnel/origin/proxy.go:176-185 | the valid addresses of the comma-separated text, normalised, in order |
| ForwardedIP.NormalizeForwardedChain | internal/cftunnel/origin/proxy.go:187-199 | the client followed by the chain without it |
| ForwardedIP.ForwardedClientIP | internal/cftunnel/origin/proxy.go:162-174 | the priority of the three headers |
| ForwardedIP.ClientChoice | internal/cftunnel/origin/proxy.go:162-174 | the client is the address of CF-Connecting-IP, failing that the earliest piece of X-Forwarded-For that is an address, failing that X-Real-IP's |
| ForwardedIP.SentHeaders | internal/cftunnel/origin/proxy.go:149-160 | the origin is sent the client twice and the whole chain, one value each, or none of the three |
| ForwardedIP.ApplyForwardedClientIPHeaders | internal/cftunnel/origin/proxy.go:149-160 | replaces or removes the three headers and touches no other, also when both requests are one |
| ForwardedIP.ChainShape | internal/cftunnel/origin/proxy.go:162-199 | the chain is the client and then the other valid entries, each as often as before; the client never repeats |
| ForwardedIP.FixedPointIff | internal/cftunnel/origin/proxy.go:149-199 | the pass changes nothing on its own output exactly when no other address hides between commas of the client's text |
| ForwardedIP.FixedPoint | internal/cftunnel/origin/proxy.go:149-199 | so it is a fixed point whenever the client address has no comma |
| ForwardedIP.ChainClientHasNoComma | internal/cftunnel/origin/proxy.go:166-169 | as is always the case for a client taken from X-Forwarded-For |
| ForwardedIP.CommaInZoneIsNotFixed | internal/cftunnel/origin/proxy.go:162-185 | a zoned address whose zone holds a comma is not a fixed point |

## Left out

- Strings are sequences of characters; invalid UTF-8 in strings and Unicode case mapping beyond ASCII are not modelled.
- Request hosts with a NUL, which Go's HTTP libraries do not pass on, are outside `RouteIsReachedIff`, `AllServedIff` and
  `AllRightIff`.
- URL parsing, `netip` and `ParseTarget` are parameters; the hypotheses on the address parser are the predicate `Canonical`, that on
  the target parser is `ParsesUrls` (it accepts only `scheme://` texts).
- Printing a flag with several rules is modelled, reading such a text back is not: the program never does.
- `sort.Slice` is an insertion sort here; only its contract (a permutation by decreasing length) is used by the results.
- Sockets, TLS, QUIC and HTTP/2 framing, Cap'n Proto and DNS: writes are events with an outcome, lookups and runs are traces.
- Real time: timers are steps that may happen; only computed durations are stated.
- `resolveAllAddrs` and its filtering: the address list is an input.
- Single-connection mode, where the supervisor is bypassed and the retry loop runs alone; readiness is not claimed there.
- Tunnel states, `/status` and `/ready` texts, late readiness callbacks and logging.
- The instance factory: an attempt is one outcome, and dial errors inside the factory count as non-retryable.
- ResponseStack.RunWebsocket: reading the origin and the other copy direction are one outcome beside the downstream writes.
- ResponseStack.HandleDataStream: Go does not fix the order of the call and the read of `connectResponseSent` in one return
  statement; the model reads it after the call.
- ResponseStack.ServeHTTP: a recovered panic of a write is not modelled, nor are trailers (nothing adds one), nor whether a head that was not
  flushed has left before an aborted stream is reset. What the HTTP/2 server of golang.org/x/net does with heads (1xx heads do
  not commit it; a first body byte, a flush and the handler's return do) is taken from that library, which is not part of this
  model; it panics on status codes outside 100..999, which are not described. A handler panic ends a run early.
- Header values travelling with a head are modelled in `ResponseHeaders`, not in `ResponseStack`.
- HeaderCodec.DeserializeHeaders: the error texts are one `None`.
- MultiTunnel.RunReportsExactly: an empty list of tunnels, which `Run` refuses at once, is outside the machine.
- Quick Tunnel client, token parsing, session building, health server and usage text: straight-line code with easy claims.

# Jinitamy request dispatch, modelled in Dafny

Jinitamy is a small HTTP framework on top of Netty. This project models its request-dispatch
core:

- **Route trie (`Router`).** There is one prefix tree per HTTP method. Each node holds a path
  segment. A node is wild when its segment is `:name` or `*`, and its parameter name is the
  text after the first character. Nodes may hold a handler. `addRoute` walks the pattern's
  segments, creating missing children, and sets the handler on the last node. `getRoute` walks
  the request path. At each segment it commits to the first child, in visiting order, whose key
  equals the segment or which is wild. On entering a wild child with a non-empty parameter name
  it writes that name and the segment into the context's parameters. It never backtracks.
  Both operations split paths on `/` and drop empty pieces (`parsePath`).
- **Dispatch (`HttpHandler.channelRead0`).** Per request:
  1. Create a context whose response has status 200.
  2. Look the route up. If there is none, answer `404 Not Found`.
  3. Otherwise wrap the handler (the handler, then writing the response) in the middleware,
     from the last one to the first.
  4. Run the chain. If an exception escapes, answer `500 Internal Server Error`.
- **Context.** The per-request state: the request, a path, route parameters, attributes, and
  the response status.
- **Engine.** The registration surface: an owned router, a middleware list, and a port that
  defaults to 8080.

Modules:

- `Paths`: `parsePath`.
- `Trie`: nodes, and registration and lookup as functions.
- `Routing`: the `Router` class. `AddRoute` is specified by `Register`. `GetRoute` is an
  imperative loop proved against the walk function `Walk`.
- `Contexts`: the `Context` class.
- `Behaviours`: scripted handlers and middleware.
- `Engines`: the `Engine` class.
- `Dispatch`: chain construction, execution, and `HandleRequest`.

Handlers and middleware are arbitrary Java code, so they are modelled as scripts:

- A handler logs itself, may set a status, and returns or throws.
- A middleware is one of:
  - `Around(before, after)`: calls `next` between two logged steps.
  - `Halt`: does not call `next`.
  - `FailBefore`: throws before `next`.
  - `FailAfter`: throws after a normal `next`.
  - `Rescue`: catches an exception from `next` and sets a status.

Running a chain produces an event trace and the list of responses written.

Where the program's own comments or tests expect something the code does not do, the model
follows the code:

- Route precedence. The class comment of `Router.java` (lines 15-18) ranks static routes first,
  then parameters, then wildcards. `getRoute` (lines 113-123) actually takes whichever candidate
  child the children `HashMap` visits first, and that order follows the keys' hash codes, not
  registration. The precedence results make no assumption about that order: they take a node's
  child sequence as its visiting order and are stated in terms of it (registration itself
  appends, see "## Left out").
  `StaticChosenIffFirst`, `StaticVisitedFirst` and `WildVisitedFirst` show that a static
  child wins exactly when no wild sibling is visited before it. `NoBacktracking` shows a
  registered route that cannot be reached when a wild sibling is visited first, with the wild
  sibling's parameter written when that sibling is a named `:name` child.
- Wildcards. The router test at `RouterTest.java` lines 84-86 expects `/files/*` to match
  `/files/documents/report.pdf`. In the code, `*` is an ordinary wild node that matches exactly
  one segment and binds nothing (see `WildcardNode`, `OnlyRoute`), so that path finds no
  handler.

A request with no route is answered with 404 before the chain is built
(`HttpHandler.java` lines 75-78), so no middleware runs for it (`NotFoundSkipsChain`).

## Model

| member | source | states |
|---|---|---|
| Paths.ParsePath | src/main/java/com/jinitamy/core/Router.java:142-146 | every piece of a parsed path is non-empty and free of `/` |
| Paths.ParsePathConcat | src/main/java/com/jinitamy/core/Router.java:142-146 | parsing `a/b` gives the segments of `a` followed by those of `b` |
| Paths.ParsePathRoot | src/main/java/com/jinitamy/core/Router.java:142-146 | `""` and `"/"` both parse to no segments |
| Paths.ParsePathSlashes | src/main/java/com/jinitamy/core/Router.java:142-146 | a leading or trailing `/` does not change the segments |
| Paths.ParsePathPrepend | src/main/java/com/jinitamy/core/Router.java:142-146 | a segment followed by a `/`-led rest parses to that segment followed by the rest's segments |
| Paths.SingleSegment | src/main/java/com/jinitamy/core/Router.java:142-146 | a non-empty string without `/` is exactly one segment |
| Paths.ParseJoin | src/main/java/com/jinitamy/core/Router.java:142-146 | joining segments with `/` and parsing gives the same segments back |
| Paths.Normalised | src/main/java/com/jinitamy/core/Router.java:142-146 | parsing is idempotent through re-joining: the parsed form is a normal form |
| Paths.EmptySegmentsDropped | src/main/java/com/jinitamy/core/Router.java:142-146 | `/a//b/` and `a/b` parse to the same two segments `[a, b]` |
| Trie.NewNode | src/main/java/com/jinitamy/core/Router.java:42-49 | a fresh node keeps its segment, has no children and no handler, and satisfies the node invariant (wild flag and parameter name derived from the segment) |
| Trie.NamedParameterNode | src/main/java/com/jinitamy/core/Router.java:45-47 | a `:name` node is wild and its parameter name is `name` |
| Trie.WildcardNode | src/main/java/com/jinitamy/core/Router.java:45-47 | a `*` node is wild with an empty parameter name, so it binds nothing |
| Trie.Root | src/main/java/com/jinitamy/core/Router.java:81 | a method's root is a static node with no children and no handler |
| Trie.ChildIndex | src/main/java/com/jinitamy/core/Router.java:86 | the child-map lookup: the first child stored under the key, or None exactly when no child has that key |
| Trie.Insert | src/main/java/com/jinitamy/core/Router.java:84-88 | descending through (creating) the children of a pattern keeps the node's segment, wildness and parameter, and its own handler when the pattern is non-empty |
| Trie.InsertHandlerAt | src/main/java/com/jinitamy/core/Router.java:84-88 | after registering segments `parts`, the node at `parts` holds the new handler, and every other segment list keeps the handler it had |
| Trie.EmptyHandlerAt | src/main/java/com/jinitamy/core/Router.java:42-49 | a fresh node holds no handler anywhere below it |
| Trie.InsertWellFormed | src/main/java/com/jinitamy/core/Router.java:84-88 | registration preserves the node invariant, including distinct child keys |
| Trie.FirstCandidate | src/main/java/com/jinitamy/core/Router.java:113-123 | the child chosen is a candidate (same key or wild) and no earlier child is one; None exactly when no child is a candidate |
| Trie.Walk | src/main/java/com/jinitamy/core/Router.java:109-130 | the greedy lookup walk: no more writes than segments, each with a non-empty name and a value that is one of the path's segments |
| Trie.StaticWalk | src/main/java/com/jinitamy/core/Router.java:109-130 | along a path with no wild children, the walk reaches exactly the node registration created and writes no parameter |
| Trie.AllStaticAlong | src/main/java/com/jinitamy/core/Router.java:109-130 | a tree with no wild node has no wild child along any path |
| Trie.InsertAllStatic | src/main/java/com/jinitamy/core/Router.java:84-88 | registering static segments into a static tree keeps it static |
| Trie.StaticResolve | src/main/java/com/jinitamy/core/Router.java:76-130 | in a static tree, after a static registration, every path resolves to the new handler if it is the pattern and to its old handler otherwise, writing no parameter |
| Trie.StaticRegistered | src/main/java/com/jinitamy/core/Router.java:76-130 | a newly registered route is found by its own segments with no write whenever no node along that path has a wild child |
| Trie.SingleRoute | src/main/java/com/jinitamy/core/Router.java:76-130 | with one pattern registered, a path resolves to its handler exactly when it matches segment by segment (wild segments matching any one segment), and then the parameters written are the `:name` bindings |
| Trie.StaticChosenIffFirst | src/main/java/com/jinitamy/core/Router.java:113-123 | the lookup takes the child stored under a segment exactly when no wild child is visited before it (both directions) |
| Trie.StaticVisitedFirst | src/main/java/com/jinitamy/core/Router.java:110-122 | when no wild child is visited before the static child for `x`, a path starting with `x` goes on from that child and writes nothing for `x` |
| Trie.WildVisitedFirst | src/main/java/com/jinitamy/core/Router.java:110-122 | when a wild child is visited before the child for `x`, a path starting with `x` goes through the first such wild child, writing `param -> x` when it is named |
| Trie.NoBacktracking | src/main/java/com/jinitamy/core/Router.java:110-127 | if `/s/y` is registered, a wild child is visited before the child for `s`, and no wild child has a candidate for `y`, then `/s/y` resolves to nothing and the wild child's write is left behind |
| Trie.ApplyBindsWritten | src/main/java/com/jinitamy/core/Router.java:117-119 | after the walk's writes, a parameter that was written holds the value of its last write |
| Trie.ApplyBindsUnwritten | src/main/java/com/jinitamy/core/Router.java:117-119 | a parameter the walk did not write keeps its old value, or stays absent |
| Routing.Register | src/main/java/com/jinitamy/core/Router.java:76-89 | registration creates the method's root if needed and changes only that method's tree |
| Routing.RegisterValid | src/main/java/com/jinitamy/core/Router.java:76-89 | registration keeps every method's tree well formed |
| Routing.RegisterReplaces | src/main/java/com/jinitamy/core/Router.java:76-89 | the pattern's node gets the new handler (re-registering replaces it); every other node keeps its handler |
| Routing.RegisterOtherMethod | src/main/java/com/jinitamy/core/Router.java:81 | registering under one method leaves every other method's lookups unchanged |
| Routing.StaticRoute | src/main/java/com/jinitamy/core/Router.java:76-130 | a registered route is found by any path with the same segments (e.g. extra slashes), with no parameter written, when no node along the pattern's path has a wild child; other routes may be dynamic |
| Routing.RootPath | src/main/java/com/jinitamy/core/Router.java:102-130 | `/` and `""` resolve to the root's own handler, and to nothing when the method has no tree |
| Routing.OnlyRoute | src/main/java/com/jinitamy/core/Router.java:76-130 | with only one route registered, lookup succeeds exactly on matching paths and writes that route's parameters |
| Routing.FindCandidate | src/main/java/com/jinitamy/core/Router.java:113-124 | the inner loop over the children returns the first candidate child |
| Routing.Router.constructor | src/main/java/com/jinitamy/core/Router.java:59-61 | a new router has no trees |
| Routing.Router.AddRoute | src/main/java/com/jinitamy/core/Router.java:76-89 | the router's trees become `Register` of the old ones, and stay well formed |
| Routing.Router.GetRoute | src/main/java/com/jinitamy/core/Router.java:102-131 | returns the handler the greedy walk reaches (None without a tree for the method or on a miss); the context's parameters are the old ones updated by every write of the walk, including those of a failed walk; the rest of the context is unchanged |
| Contexts.Context.constructor | src/main/java/com/jinitamy/core/Context.java:51-57 | the path is the request URI, or "" without a request; no parameters and no attributes |
| Contexts.Context.GetPath | src/main/java/com/jinitamy/core/Context.java:64-66 | reads the current path; its value is fixed by the contracts of the constructor and `SetPath` |
| Contexts.Context.SetPath | src/main/java/com/jinitamy/core/Context.java:73-75 | the path becomes the given one; nothing else changes |
| Contexts.Context.GetParam | src/main/java/com/jinitamy/core/Context.java:116-118 | a value exactly when the key is set, and it is the stored value |
| Contexts.Context.SetParam | src/main/java/com/jinitamy/core/Context.java:106-108 | the key now maps to the value, replacing an earlier one; other keys and fields are unchanged |
| Contexts.Context.RemoveParam | src/main/java/com/jinitamy/core/Context.java:128-130 | returns the previous value (None if absent); the key is then absent and other keys are unchanged |
| Contexts.Context.GetAttribute | src/main/java/com/jinitamy/core/Context.java:153-155 | a value exactly when the attribute is set, and it is the stored value |
| Contexts.Context.SetAttribute | src/main/java/com/jinitamy/core/Context.java:143-145 | the attribute is set; other attributes and all parameters are unchanged |
| Contexts.Context.Status | src/main/java/com/jinitamy/core/Context.java:186-191 | sets the status when there is a response, does nothing otherwise, and returns the same context |
| Engines.Engine.constructor | src/main/java/com/jinitamy/core/Engine.java:43-56 | a new engine has an empty router, no middleware, and port 8080 |
| Engines.Engine.GetPort | src/main/java/com/jinitamy/core/Engine.java:72-74 | reads the port; its value is fixed by the contracts of the constructor and `SetPort` |
| Engines.Engine.SetPort | src/main/java/com/jinitamy/core/Engine.java:63-65 | the port reads back as set; the middleware are unchanged |
| Engines.Engine.Use | src/main/java/com/jinitamy/core/Engine.java:87-89 | the middleware is appended after all earlier ones; the port is unchanged |
| Engines.Engine.Get | src/main/java/com/jinitamy/core/Engine.java:97-99 | registers the pattern under GET only; middleware and port are unchanged |
| Engines.Engine.Post | src/main/java/com/jinitamy/core/Engine.java:107-109 | registers the pattern under POST only; middleware and port are unchanged |
| Dispatch.SendError | src/main/java/com/jinitamy/core/HttpHandler.java:121-128 | the 404 and 500 error responses carry their status and the status line ("404 Not Found", "500 Internal Server Error") as body |
| Dispatch.Compose | src/main/java/com/jinitamy/core/HttpHandler.java:81-91 | the composed chain ends in the route's handler |
| Dispatch.BuildChain | src/main/java/com/jinitamy/core/HttpHandler.java:86-91 | wrapping from the last middleware to the first yields the chain with the first middleware outermost |
| Dispatch.Exec | src/main/java/com/jinitamy/core/HttpHandler.java:81-94 | running a chain records at least one event, only appends to the events and the responses, and writes at most one response, a normal one |
| Dispatch.Respond | src/main/java/com/jinitamy/core/HttpHandler.java:81-99 | a routed request runs the chain (a non-empty trace) and gets at most two responses, each a normal one or the 500 |
| Dispatch.Dispatch | src/main/java/com/jinitamy/core/HttpHandler.java:71-99 | the answer is exactly the single 404 with an empty trace when the lookup fails, and at most two responses in every case |
| Dispatch.HandleRequest | src/main/java/com/jinitamy/core/HttpHandler.java:60-100 | the outcome of handling a request through the engine's router and middleware is `Dispatch` of them, whose laws follow |
| Dispatch.OnionOrder | src/main/java/com/jinitamy/core/HttpHandler.java:81-94 | with middleware that all call `next` and a returning handler: befores in registration order, the handler, afters in reverse order, and exactly one response carrying the handler's status |
| Dispatch.HandlerErrorUnwinds | src/main/java/com/jinitamy/core/HttpHandler.java:81-99 | with middleware that all call `next`, an exception from the handler skips every after-step and the response write, and escapes the chain |
| Dispatch.HaltShortCircuits | src/main/java/com/jinitamy/core/HttpHandler.java:86-94 | with middleware before it that all call `next`, a middleware that does not call `next` keeps every later middleware and the handler from running, nothing is written, and the run is exactly the earlier befores, the halt and the earlier afters |
| Dispatch.HaltAnywhere | src/main/java/com/jinitamy/core/HttpHandler.java:86-94 | whatever the middleware before it do (pass through, catch, throw or stop), a middleware that does not call `next` keeps the handler from running, and nothing is written |
| Dispatch.WrittenOnlyAfterHandlerReturns | src/main/java/com/jinitamy/core/HttpHandler.java:81-84 | whatever the middleware do, a run writes a response exactly when the handler ran in it and returned without throwing |
| Dispatch.NotFoundSkipsChain | src/main/java/com/jinitamy/core/HttpHandler.java:73-78 | with no route, the only response is 404 with body "404 Not Found" and nothing runs |
| Dispatch.RespondResponses | src/main/java/com/jinitamy/core/HttpHandler.java:81-99 | a routed request gets the normal response exactly when the handler ran and returned, and a final 500 "500 Internal Server Error" exactly when an exception escaped; so at most two responses |
| Dispatch.RoutedResponses | src/main/java/com/jinitamy/core/HttpHandler.java:71-99 | the same response laws for any request whose route lookup succeeds |
| Dispatch.RespondOnion | src/main/java/com/jinitamy/core/HttpHandler.java:81-99 | with middleware that all call `next`: the onion trace and one response with the handler's status (200 unless it set another), or, if the handler throws, the befores, the handler, and a single 500 |
| Dispatch.DispatchOnion | src/main/java/com/jinitamy/core/HttpHandler.java:60-100 | the onion law for any request whose route lookup succeeds |
| Dispatch.TwoMiddlewareOrder | src/main/java/com/jinitamy/core/HttpHandler.java:86-94 | with a handler that returns, M1 then M2 around H run as M1-before, M2-before, H, M2-after, M1-after |
| Dispatch.RescueSuppressesError | src/main/java/com/jinitamy/core/HttpHandler.java:94-99 | for a routed request whose handler throws, an outermost middleware that catches exceptions prevents the 500 whatever the middleware inside it do, and since the handler did not return, no response is sent at all |

## Left out

- `Engine.start` (the Netty server bootstrap, event loops, the pipeline with the HTTP codec and aggregator) and `HttpHandler.exceptionCaught`: network I/O. Responses are recorded in order instead of being written to a channel.
- Logging (`logger.error` on the 500 path): it has no effect on the outcome.
- The template engine and the example application: outside the dispatch core.
- `Context.getMethod`, `getHeaders`, `getRequest` and `getResponse`: plain accessors over Netty objects. The request is modelled by its method and URI, and the response by its status.
- `Engine.getRouter` and `getMiddlewares`: the model reads the `router` and `middlewares` fields directly.
- Attribute values are strings here, where the source stores any `Object`.
- Trie.Insert: the nodes are values, so `addRoute`'s in-place walk with `computeIfAbsent` becomes one recursive rebuild of the path from the root. Nodes are private to the router and never shared, so only the in-place update is lost.
- Trie.Insert appends a new child, so in the model the visiting order of a node's children is their creation order, whereas Java visits them in the `HashMap`'s hash order. No result depends on this: precedence is stated through hypotheses on the visiting order (`StaticChosenIffFirst`, `StaticVisitedFirst`, `WildVisitedFirst`, `NoBacktracking`) or under hypotheses that make the order irrelevant (no wild child along the path). Which order a given set of keys gets in Java is not modelled.
- Registering a `null` handler, a `null` pattern or a `null` request URI: Java nulls are not modelled. A missing handler is `None` only when nothing was registered.
- Dispatch.Exec: a handler's or middleware's `throws` stands for a Java `Exception`, which `channelRead0` catches (`HttpHandler.java` line 96) and answers with 500. A thrown `Error` (such as `StackOverflowError`) escapes that catch, reaches `exceptionCaught` and closes the channel without a response; it is not modelled.
- Handlers and middleware are scripts (log, set a status, call `next` zero or one time, throw, catch), not arbitrary code. Calling `next` twice is not modelled.
- Dispatch.Response: a `Written` response records the status at the moment it was written. Later changes to the same Netty response object after `writeAndFlush` are not modelled.
- Concurrency: registration before traffic and per-request contexts are assumed. Concurrent registration and lookup are not modelled.
- HTTP status validation in `HttpResponseStatus.valueOf` is not modelled. `Context.Status` stores any integer.

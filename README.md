# jim: route matching and dispatch, modelled in Dafny

This project models the core of the Go micro-framework jim. The core is:

- the segment trie of `trie.go`: `insert`, `matchChild`, `matchChildren` and `search`;
- the router of `router.go`: `parsePattern`, one trie root per HTTP verb, a handler table keyed `verb-pattern`, parameter extraction in `getRouter`, and `handle` with its 404 fallback;
- the per-request `Context` of `context.go`: the `index` cursor, the middleware loop in `Next`, `Fail`, `Param`, and the `StatusCode` bookkeeping behind `Status`, `String`, `JSON` and `Data`;
- the older exact-key `Engine` of `jim.go`.

Layout, one module per file:

| file | module | what it holds |
|---|---|---|
| `wrappers.dfy` | `Wrappers` | `Option` |
| `keys.dfy` | `Keys` | the handler-table key `verb + "-" + pattern` |
| `pattern.dfy` | `Pattern` | Go's `strings.Split` / `strings.Join`, `parsePattern`, and the extraction loop of `getRouter` |
| `trie_spec.dfy` | `TrieSpec` | the trie as a value (`Tree`), with insert and search as functions and their properties; also the three functions as the source writes them: insert, matchChildren and search (see Findings) |
| `trie.dfy` | `Trie` | class `Node`: the pointer tree, with each method proved against `TrieSpec` |
| `trie_examples.dfy` | `TrieExamples` | concrete tries built by insert, and what search finds in them |
| `chain.dfy` | `Chain` | what a middleware chain does: handlers are scripts of actions, and `Next`, `Loop` and `Run` are functions over the cursor, status and trace; ordering and short-circuit lemmas |
| `context.dfy` | `RequestContext` | class `Context`: its `Next` loop and handler calls are proved against `Chain` |
| `router.dfy` | `Routing` | class `Router`: `addRoute`, `getRouter` and `handle` over `Node` roots, with ghost `Tries` values |
| `route_examples.dfy` | `RouteExamples` | router and context together on the route `GET /p/:lang/doc` |
| `jim.dfy` | `Jim` | class `Engine` with its exact-key map |

Handlers are user code that the core does not define, so the model represents each one as a script of actions:
- `Mark(id)`: code of the handler's own.
- `CallNext`: `c.Next()`.
- `Fail(code, message)`: `c.Fail`.
- `Reply(code, body)`: `c.String`, `c.JSON` or `c.Data`.

The response writer is reduced to two things: the status code, and a trace of events (`Started(i)` when the loop enters handler `i`, markers, replies and failures). The `jim.go` engine takes handlers of a different type (`func(http.ResponseWriter, *http.Request)`), so its handlers are opaque numbers.

A handler that never calls `Next()` does not stop the chain: the loop at `context.go:50-52` re-reads the cursor and goes on to the next handler, so every handler runs (`Chain.EveryHandlerRunsOnce`).

## Model

| member | source | states |
|---|---|---|
| Pattern.Split | router.go:38 | `strings.Split(s, "/")` gives at least one piece, and no piece contains `/` |
| Pattern.JoinSplit | router.go:38 | joining the pieces of `Split(s)` with `/` gives back `s` |
| Pattern.SplitJoin | router.go:38 | splitting segments joined by `/` gives the segments back, when none contains `/` |
| Pattern.Collect | router.go:40-48 | the loop of parsePattern yields no empty segment, no `*` segment before the last place, no more segments than pieces, and no `/` inside a segment |
| Pattern.CollectSkipsEmpty | router.go:42 | an empty piece anywhere before the first `*` piece is dropped without changing the result |
| Pattern.CollectKeeps | router.go:42-47 | every non-empty piece before the first `*` piece is kept, in order |
| Pattern.ParseSkipsEmpty | router.go:90 | a request path with a doubled and a trailing `/`: `/a//b/` gives `[a, b]` |
| Pattern.ParsePattern | router.go:37-50 | the result has no empty segment, a `*` segment only in last place, and no `/` inside a segment |
| Pattern.ParseRoundTrip | router.go:31 | parsePattern inverts "/" + join for any well-formed segment list (e.g. `/p/a/b/c` gives `[p, a, b, c]`) |
| Pattern.ParseTruncatesAtStar | router.go:44-46 | whatever follows a path that ends in a `*` segment is dropped |
| Pattern.ParseExamples | router.go:31-33 | the three doc-comment examples: `[p,a,b,c]`, `[p,a,*]`, `[p,a,*]` |
| Pattern.Join | router.go:107 | Go's `strings.Join`; its inverse relation to `Split` is `Pattern.JoinSplit` and `Pattern.SplitJoin` |
| Pattern.Extract | router.go:101-110 | the extraction loop of getRouter from position i; its properties are `Pattern.ExtractFrom` |
| Pattern.ExtractParams | router.go:91-110 | getRouter's parameter map, the loop from position 0 over an empty map; its properties are `Pattern.ExtractParamsSpec` |
| Pattern.ExtractFrom | router.go:102-110 | the extraction loop from position i keeps the earlier bindings and binds exactly the names declared from i on; a name takes the value of its last declaring segment |
| Pattern.ExtractParamsSpec | router.go:102-110 | the keys of the result are exactly the declared names; a `:name` at i binds request segment i unless a later segment redeclares the name; a `*name` binds the remaining request segments joined by `/` |
| Pattern.RepeatedNameLaterWins | router.go:103-105 | with `/:a/:a` the later segment's value is the one bound |
| Pattern.ExtractExamples | router.go:81-82 | `/p/go/doc` against `/p/:lang/doc` gives `{lang: go}`; `/static/css/geektutu.css` against `/static/*filepath` gives `{filepath: css/geektutu.css}` |
| Keys.RouteKeyInjective | router.go:65 | two keys are equal only when their verbs and patterns are, for verbs without `/` and patterns that start with `/` |
| Keys.KeysCollide | router.go:65 | without those conditions keys can collide: `M-SEARCH` with `/x` and `M` with `SEARCH-/x` |
| TrieSpec.FirstMatch | trie.go:23-30 | the first child in order whose part equals the segment or that is wild; none exactly when no child matches |
| TrieSpec.MatchIndices | trie.go:39-45 | the positions of the matching children, strictly increasing, every matching child included |
| TrieSpec.Insert | trie.go:66-86 | insert (with the new child attached, see Findings); the node keeps its part and wildness; its properties are the lemmas below |
| TrieSpec.InsertTerminals | trie.go:56-71 | insert adds no terminal other than (pattern, len(parts)); a non-empty pattern is stored at depth len(parts) |
| TrieSpec.InsertReusesMatchingChild | trie.go:74-85 | when a child matches, the first such child (wild children included) becomes its own insertion and the others stay; otherwise exactly one child is appended, the insertion into a new node of the segment, wild exactly when the segment starts with `:` or `*`, and the others stay |
| TrieSpec.Search | trie.go:98-121 | search: stop at depth len(parts) or at a `*` node and accept only a node with a pattern; otherwise try the matching children; its properties are the lemmas below |
| TrieSpec.SearchAmong | trie.go:110-120 | the candidate loop of search: the first candidate whose search succeeds |
| TrieSpec.SearchFindsTerminal | trie.go:98-121 | a node search returns has a non-empty pattern and ends that pattern at a depth between `height` and len(parts); if that depth is less than len(parts), the node is a `*` node |
| TrieSpec.SearchAmongFirstSuccess | trie.go:110-120 | candidates are tried in order: when every earlier candidate fails, the first one that succeeds gives the result |
| TrieSpec.SearchOnlyChild | trie.go:108-118 | below a non-`*` node whose single child matches, search is the search of that child |
| TrieSpec.SearchNoMatch | trie.go:108-120 | below a node none of whose children matches the next segment, search finds nothing |
| TrieSpec.InsertThenSearch | trie.go:66-121 | round trip: after inserting any well-formed pattern into an empty trie, searching for its segments finds the node holding that pattern |
| TrieSpec.InsertThenSearchAgreeing | trie.go:66-121 | the same round trip for every request the pattern accepts: a `:name` segment takes any one segment, and a final `*name` one or more |
| TrieSpec.ChainInsertThenSearch | trie.go:66-121 | the same, for any depth, starting below a node without children |
| TrieSpec.InsertAsWritten | trie.go:66-86 | insert as written: the node built when no child matches is never attached |
| TrieSpec.MatchIndicesAsWritten | trie.go:39-47 | matchChildren as written: always `nil` |
| TrieSpec.SearchAsWritten | trie.go:98-121 | search as written, over the empty candidate list |
| TrieSpec.SearchAsWrittenOnlyRoot | trie.go:98-121 | as written, search can return only the node it starts from |
| TrieSpec.DefectWitnesses | trie.go:78-85 | as written, inserting `/hello` leaves the empty root unchanged, and search over the `nil` children slice finds nothing where the intended search finds the route |
| Trie.Node.constructor | trie.go:79-82 | a new node has the given part, an empty pattern, no children, and is wild exactly when its part starts with `:` or `*` |
| Trie.Node.MatchChild | trie.go:23-30 | returns the child at `FirstMatch`, or null when no child matches |
| Trie.Node.MatchChildren | trie.go:39-47 | returns exactly the children at `MatchIndices`, in order |
| Trie.Node.Insert | trie.go:66-86 | the tree's value becomes `TrieSpec.Insert` of the old value; the tree stays well formed and only fresh nodes are added |
| Trie.Node.InsertIntoNewChild | trie.go:78-85 | a new child, built from the segment, is appended and the insertion continues below it |
| Trie.Node.InsertIntoChild | trie.go:76-85 | the insertion continues below child k, and only child k's value changes |
| Trie.Node.Search | trie.go:98-121 | returns null exactly when `TrieSpec.Search` finds nothing; otherwise returns the node of this tree whose value is what it finds |
| TrieExamples.LangExample | trie.go:57-60 | with `/p/:lang/doc` stored, `[p, go, doc]` finds it and `[p, python]` stops at `:lang`, which has an empty pattern, and finds nothing |
| TrieExamples.StaticExample | trie.go:99-100 | the doc-comment request `[static, css, geektutu.css]` finds `/static/*filepath`, but `[static]` alone finds nothing |
| TrieExamples.StaticAnyLength | trie.go:99-100 | `*filepath` takes the rest of a request of any length, at least one segment |
| TrieExamples.BacktrackExample | trie.go:110-120 | with `/a/b/c` and then `/a/:x/d` stored, `[a, b, d]` first tries `b`, fails there, then finds `/a/:x/d` |
| TrieExamples.ShadowExample | trie.go:23-30 | with `/a/:x/d` and then `/a/b/c` stored, the second route is filed under `:x`, so `[a, zzz, c]` is routed to `/a/b/c` |
| Chain.Next | context.go:47-53 | the cursor moves past the current position and ends at or past the end of the chain |
| Chain.Loop | context.go:50-52 | the loop ends with the cursor at or past the end, never below where it started |
| Chain.Run | context.go:51 | after a handler body the cursor is not below where the handler was entered, unless it is at or past the end of the chain |
| Chain.NextStarts | context.go:45-53 | without Fail, a Next call starts every later handler, in order |
| Chain.LoopStarts | context.go:50-52 | without Fail, the loop from position i starts i, i + 1, ..., n - 1 |
| Chain.RunStarts | context.go:51 | without Fail, a handler body either starts nothing and leaves the cursor where it was, or starts every later handler and leaves the cursor past the end |
| Chain.EveryHandlerRunsOnce | context.go:50-52 | without Fail, the outermost Next starts each handler exactly once, in index order, whether or not handlers call Next |
| Chain.LoopOnion | context.go:45-46 | for handlers of the form mark, Next, mark, the loop from i produces the nested onion trace |
| Chain.OnionOrder | context.go:45-46 | for chains whose every handler is exactly mark, Next, mark: code before a handler's Next runs in chain order, code after it in reverse order, once all later handlers have started |
| Chain.SettledAppend | context.go:171-174 | appending an event other than a failure keeps the invariant "after a failure the cursor is past the end and nothing starts" |
| Chain.NextSettled | context.go:47-53 | Next keeps that invariant |
| Chain.LoopSettled | context.go:50-52 | the loop keeps that invariant |
| Chain.RunSettled | context.go:171-174 | a handler body, Fail included, keeps that invariant |
| Chain.FailStopsChain | context.go:171-174 | once a handler fails, no handler is started afterwards |
| Chain.FailExample | context.go:171-174 | logger, then onlyForV2 failing with 500, then the route handler: the route handler never starts, the status is 500, and both middlewares finish after the failure |
| Chain.FailCanLowerCursor | context.go:172 | a handler that called Next twice and then fails moves the cursor back down to len(handlers) |
| RequestContext.Context.constructor | context.go:35-43 | newContext: verb and path from the request, cursor -1, no handlers, no parameters, no status |
| RequestContext.Context.Next | context.go:47-53 | the new cursor, status and trace are `Chain.Next` of the old ones; the cursor ends at or past len(handlers); nothing else changes |
| RequestContext.Context.Call | context.go:51 | invoking a handler leaves the state `Chain.Run` gives |
| RequestContext.Context.Status | context.go:83-86 | StatusCode becomes the code; nothing else changes |
| RequestContext.Context.Reply | context.go:107-139 | String, JSON and Data leave StatusCode equal to the code and append the response to the trace |
| RequestContext.Context.Fail | context.go:171-174 | the cursor becomes len(handlers), StatusCode the code, and the failure response is recorded |
| RequestContext.Context.Param | context.go:165-168 | the bound value, or "" when the key is unbound |
| Routing.Lookup | router.go:89-98 | getRouter's search on the abstract tries: nothing for a verb without a root, otherwise the trie search of the parsed path |
| Routing.AddRouteRegistered | router.go:60-76 | addRoute keeps every stored pattern paired with a handler and at the depth of its own segment count |
| Routing.LookupRegistered | router.go:98-108 | a found route has a handler, and its pattern has no more segments than the request, so the extraction loop never indexes past the request |
| Routing.Router.constructor | router.go:21-26 | newRouter: no roots, no handlers |
| Routing.Router.AddRoute | router.go:60-76 | the verb's trie (or a fresh `&node{}`) gets the pattern inserted; the handler is stored under `verb-pattern`, overwriting that key and no other; the router stays valid |
| Routing.Router.Plant | router.go:68-74 | makes sure the verb has a root, then inserts into its trie; other tries and the handler table are unchanged |
| Routing.Router.AddRoot | router.go:68-71 | a verb without a root gets an empty one |
| Routing.Router.InsertInto | router.go:74 | the verb's trie is replaced by the insertion; other verbs' tries keep their values |
| Routing.Router.GetRouter | router.go:89-115 | null and an empty map when the verb has no root or the search fails; otherwise the found node and `ExtractParams` of its pattern against the request |
| Routing.Router.Handle | router.go:123-132 | on a match, sets Params, runs the handler stored under `verb-pattern`, which exists; otherwise answers 404 with the path and leaves Params alone |
| RouteExamples.LangLookup | trie.go:57-60 | with `/p/:lang/doc` stored, `[p, x, doc]` finds it and binds `lang` to `x`, for any segment x; `[p, x]` finds nothing |
| RouteExamples.LangRouteExample | router.go:81 | a request `GET /p/x/doc` reaches the handler with `c.Param("lang") == x`, for any segment x |
| RouteExamples.LangRouteMiss | router.go:130 | a request `GET /p/x` is answered 404 with body `404 NOT FOUND: /p/x` and a newline |
| Jim.Engine.constructor | jim.go:23-25 | New: the route map is empty |
| Jim.Engine.AddRoute | jim.go:35-38 | the handler is stored under `verb-pattern`; last write wins; other keys untouched |
| Jim.Engine.Get | jim.go:47-49 | registers under the verb `GET` |
| Jim.Engine.Post | jim.go:58-60 | registers under the verb `POST` |
| Jim.Engine.ServeHTTP | jim.go:80-87 | the handler is invoked exactly when the key `verb-path` is present; otherwise the 404 text with the URL |
| Jim.RegisterServesExactly | jim.go:80-84 | registering (verb, pattern) makes servable exactly the requests whose key equals `verb-pattern`: no parameter or prefix matching; for verbs without `/` and paths starting with `/`, that is the one request with that verb and that literal path |
| Jim.HelloExample | jim.go:80-87 | with `GET /` and `GET /hello` registered, those two are served; `/hello/x` and `POST /hello` get the 404 text with their URL |

## Left out

- `Run` and `http.ListenAndServe` (jim.go:69-71): socket I/O.
- The response writer: headers, `WriteHeader` and body bytes. A response is recorded as one event holding its code and body.
- `fmt.Sprintf` and `fmt.Fprintf` formatting: the 404 texts are written out as string concatenation.
- JSON encoding and its error path (context.go:123-126). `Fail` records its message as one event instead of a JSON body.
- `HTML` and template execution (context.go:148-154). They use an engine field that the shown `Engine` does not have.
- `Query`, `PostForm` and `SetHeader` (context.go:62-97): thin wrappers over net/http.
- `log.Printf` in addRoute (router.go:61).
- Concurrency: registration happens before serving, and each Context belongs to one request.
- The `Writer`, `Req` and `engine` fields of Context, and the request object. A request is its verb, its path and, for `jim.go`, its URL text.
- Handlers: they are scripts of actions, not arbitrary Go functions. `jim.go` handlers are opaque numbers, because they have a different type from the Context handlers.
- Groups, `Use`, `Logger`, `Recovery` and `Static`: their definitions are not part of this model. The middleware example becomes the explicit chain in `Chain.FailExample`.
- Nothing in the shown code fills `Context.handlers`. `router.handle` calls the matched handler directly, as `Routing.Router.Handle` does through `Context.Call`, and `Context.Next` is modelled over whatever chain the context holds.
- Chain.Run: the cursor is not proved never to decrease, because it can. If a handler calls Next twice, the cursor is past len(handlers); a later Fail then sets it back to exactly len(handlers) (`Chain.FailCanLowerCursor`). What is proved instead: the cursor never falls below its earlier value, unless that value was past the end, and then never below the end.
- RequestContext.Context.Next and Routing.Router.Handle require the cursor to be at least -1. newContext sets it to -1 and no operation lowers it further.
- Keys.RouteKeyInjective: keys are proved distinct only for verbs without `/` and patterns and paths that start with `/`. Verbs may contain `-` (`M-SEARCH`, `VERSION-CONTROL`). Other inputs can share a key (`Keys.KeysCollide`), and the model keeps that sharing: `Jim.RegisterServesExactly` and the handler table are stated on the key itself.
- Integer widths: status codes and the cursor are unbounded integers. No operation comes near Go's `int` range.

## Findings

| source | as written | input that shows it | evidently intended | confidence | as-written member | corrected member |
|---|---|---|---|---|---|---|
| trie.go:78-85 | when no child matches, insert builds a new node, inserts below it, and never attaches it to the children | inserting `/hello` (parts `[hello]`) into an empty root leaves the root unchanged, and searching `[hello]` then finds nothing (`TrieSpec.DefectWitnesses`) | attach the new node as the last child before inserting below it, as the doc comment at trie.go:56-60 describes | high (not executed) | TrieSpec.InsertAsWritten | TrieSpec.Insert |
| trie.go:46 | matchChildren collects the matching children and then returns `nil`, so search never looks below the node it starts from | with `/hello` stored as intended, searching `[hello]` from the root finds nothing (`TrieSpec.DefectWitnesses`, `TrieSpec.SearchAsWrittenOnlyRoot`) | return the collected children | high (not executed) | TrieSpec.MatchIndicesAsWritten | TrieSpec.MatchIndices |

For insert, the as-written half is `TrieSpec.InsertAsWritten`, shown by `TrieSpec.DefectWitnesses`. The corrected half is `TrieSpec.Insert` with the class method `Trie.Node.InsertIntoNewChild`, proved by `TrieSpec.InsertThenSearch`.

For matchChildren, the as-written half is `TrieSpec.MatchIndicesAsWritten`, and `TrieSpec.SearchAsWritten` is the search built on it. It is shown by `TrieSpec.DefectWitnesses` and `TrieSpec.SearchAsWrittenOnlyRoot`. The corrected half is `TrieSpec.MatchIndices` with the class method `Trie.Node.MatchChildren`, proved by `TrieSpec.InsertThenSearch`.

The rest of the model uses the corrected versions. Every trie and getRouter doc-comment example depends on these corrections (trie.go:57-60, router.go:81-82).

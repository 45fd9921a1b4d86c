# go-framework core, modelled in Dafny

This project models the sequential bookkeeping at the centre of the go-framework
web framework (github.com/JUYAFEI/go-framework) and proves properties of it:

- **the route trie** (`tree.go`): `Put` inserts the `/`-separated segments of a
  route, reusing exactly-named children and appending new ones. `Get` walks
  the segments of a request path. A child matches a segment when its name is
  the segment, is `*`, or contains `:`. The first matching child wins, and
  each matched node is stamped with the route name built so far.
- **route registration and dispatch** (`route.go`): `Router.Group`,
  `RouterGroup.Use`, `handle` with its three nested maps, the per-method
  helpers, and `methodHandle`'s middleware composition. The request handler's
  decision covers the groups tried in creation order, the `Any` handler before
  the method's, 405 for a known route without a handler, and 404 when no group
  matches.
- **the worker pool** (`pool/pool.go`, `pool/worker.go`): a bounded pool of
  workers with an oldest-first idle list that is reused from its tail. It has
  a reaper that trims the expired prefix of that list, a once-only `Release`,
  and `Restart`. Each worker has a one-slot inbox and runs one task at a time.
- **the string helpers** (`utils.go`): `isASCII`, `SubStringLast` and
  `StringToBytes`, plus the two parts of Go's `strings` package the router
  relies on: `strings.Index` and `strings.Split(s, "/")`.

Files:
- `wrappers.dfy`: `Option` and `Result`.
- `utils.dfy`: module `Utils`.
- `tree.dfy`: module `RouteTree`. The nodes of a trie live in a table inside
  the `Tree` object, and a node pointer is an index into that table.
- `tree_scenario.dfy`: module `RouteTreeScenario`: the calls tree_test.go makes,
  worked through the model.
- `route.dfy`: module `Route`.
- `pool.dfy`: module `WorkerPool`, with the `Worker` and `Pool` classes.
- `pool_scenario.dfy`: module `WorkerPoolScenario`, short runs of the pool.

Each imperative operation is a method whose contract ties its result and the
new state to a function of the old state. The properties are proved about
those functions as lemmas.

Time is an integer clock passed in by the caller. In the pool, the goroutines,
the mutex and the atomics are gone, and each operation is one atomic step.
Ghost state records which workers hold a task (`busy`), the latest idle stamp
(`clock`) and how many workers were made (`created`).

## Model

| member | source | states |
|---|---|---|
| Utils.IsAscii | utils.go:9-16 | true exactly when every byte is at most 0x7F, so true for the empty string |
| Utils.Index | utils.go:19 | `strings.Index`: -1 exactly when `sub` does not occur; otherwise `sub` occurs at the result and at no earlier index |
| Utils.SubStringLast | utils.go:18-25 | the result is a suffix of `s`, no longer than `s`. It is empty when `sub` does not occur. Otherwise `s == pre + sub + result`, where `pre` holds no earlier occurrence of `sub`. For an empty `sub` it is `s` |
| Utils.StringToBytes | utils.go:27-34 | same length and the same bytes as the string |
| Utils.Split | tree.go:18 | `strings.Split(s, "/")`: at least one piece, no piece contains '/', and joining the pieces with '/' gives `s` back |
| Utils.SplitJoin | tree.go:53 | splitting '/'-free pieces joined by '/' gives the pieces back, so Split is a bijection onto such lists |
| RouteTree.FirstAccepted | tree.go:61-71 | the position of the first child the rule accepts: every earlier child is rejected, and the one there is accepted |
| RouteTree.Child | tree.go:25-31 | None exactly when no child of the node is accepted; otherwise an accepted child of the node, at a later index |
| RouteTree.Grow | tree.go:32-45 | appending a new child keeps the table well formed and adds exactly one node |
| RouteTree.PutFrom | tree.go:19-46 | the table stays well formed and never shrinks, and a non-empty path ends below the start node |
| RouteTree.ExactWalk | tree.go:25-31 | following exactly-named children ends at a node named after the last segment |
| RouteTree.GetFrom | tree.go:55-82 | the table keeps its size and stays well formed; a node found carries the returned route name as its RouterName |
| RouteTree.ChildShape | tree.go:61-62 | the child scan reads only names and children, not RouterName |
| RouteTree.PutFrame | tree.go:32-45 | Put keeps every existing node's name, IsEnd and RouterName. Children lists are only appended to, and nodes before the start are untouched. At most one node is added per segment, and a new node has IsEnd exactly when it is the one the path ends at |
| RouteTree.GrowFinds | tree.go:42-44 | the appended child is the one the next exact scan finds |
| RouteTree.PutWalk | tree.go:16-46 | after Put, following exactly-named children along the path ends at the node Put ended at |
| RouteTree.PutExisting | tree.go:25-31 | Put of a path already present adds no node and changes nothing, IsEnd included |
| RouteTree.PutIdempotent | tree.go:16-48 | putting the same path twice leaves the trie as putting it once |
| RouteTree.GetKeepsShape | tree.go:64-65 | Get writes nothing but RouterName fields |
| RouteTree.Trail | tree.go:55-81 | Get's walk, one entry per segment: the child the segment matched, a later node whose name is the segment, is "*" or contains ':', or nothing when the segment was skipped |
| RouteTree.Matched | tree.go:61-66 | the nodes Get matches, in order, all below the start node |
| RouteTree.MatchedIsPath | tree.go:59-66 | the matched nodes form a path down the trie: the first is a child of the start node, and each next one is a child of the one before |
| RouteTree.GetStamps | tree.go:52-83 | for every table and path: each matched node's RouterName is the route name so far followed by "/" and the name of every node matched up to and including it; no other node changes; the result is what the last segment matched, so nil when it matched nothing, and otherwise the last matched node, with the route name of all matched names |
| RouteTree.RouteNameOfPath | tree.go:54 | the route name accumulated over the segments of a path starting with '/' is the path itself |
| RouteTree.GetExact | tree.go:52-70 | when no sibling captures a segment, Get ends at the exactly-named node and names the route after the segments |
| RouteTree.PutThenGet | tree.go:16-70 | after Put(p), Get(p) returns the node Put ended at. That node is named after p's last segment, and its RouterName is p, given that p starts with '/' and no earlier wildcard sibling captures a segment |
| RouteTree.StarFallbackDead | tree.go:73-79 | Get's fallback scan for a "*" child never finds one, since such a child would already have matched |
| RouteTree.GetSkips | tree.go:73-81 | a segment no child matches is skipped: the walk goes on from the same node with the same route name |
| RouteTree.GetEmptyPath | tree.go:82 | Get("") returns nil |
| RouteTree.Tree.constructor | tree_test.go:10-13 | a trie holding only its root |
| RouteTree.Tree.FindChild | tree.go:25-31 | the loop returns the first child in insertion order that the rule accepts |
| RouteTree.Tree.Put | tree.go:16-48 | the loop leaves the table that PutFrom gives for the path's segments after the first |
| RouteTree.Tree.GetStep | tree.go:59-79 | one turn of Get's loop either ends the lookup with GetFrom's result, or continues it as GetFrom does |
| RouteTree.Tree.Get | tree.go:52-83 | the loop returns GetFrom's node and leaves GetFrom's stamped table |
| RouteTreeScenario.PutFirstRoute | tree_test.go:14 | Put("/user/get/:id") on a bare root builds user, get and :id, and only :id has IsEnd |
| RouteTreeScenario.PutSecondRoute | tree_test.go:15 | Put("/user/create/hello") reuses "user" and appends create and hello after get |
| RouteTreeScenario.PutThirdRoute | tree_test.go:16 | Put("/user/create/aaa") reuses user and create and appends aaa |
| RouteTreeScenario.GetById | tree_test.go:18 | Get("/user/get/1") returns the ":id" node with route name "/user/get/:id" |
| RouteTreeScenario.GetByName | tree_test.go:21 | Get("/user/create/hello") returns the "hello" node with route name "/user/create/hello" |
| RouteTreeScenario.GetPrefix | tree.go:67-69 | Get("/user") returns the interior "user" node, since IsEnd is never consulted |
| RouteTreeScenario.TreeTest | tree_test.go:9-23 | the test's calls on a Tree object find ":id", then "hello" |
| Route.ChainLayers | route.go:50-61 | composing puts the given middlewares around the handler in order, so the last is outermost, and leaves the registered handler at the centre |
| Route.ChainAppend | route.go:50-61 | composing with the group list and then the route list is composing with their concatenation |
| Route.HandlerOf | route.go:155 | `handlerMap[name][method]` with comma-ok: present exactly when both keys are there |
| Route.RouteMiddlewares | route.go:56 | the route's middleware list, or empty when it is missing |
| Route.MethodRoutes | route.go:72 | the method's route list, or empty when it is missing |
| Route.RegisterHandler | route.go:71 | after `handle`, the route's handler for the method is the new one, overwriting; every other lookup is unchanged |
| Route.RegisterMiddlewares | route.go:73 | route middlewares accumulate across registrations; other routes' lists are unchanged |
| Route.RegisterMethodRoutes | route.go:72 | the method's route list gains the name at its end, duplicates kept; other methods' lists are unchanged |
| Route.RegisterKeepsKeys | route.go:66-70 | a route gets its handler map and its middleware map together |
| Route.Decide | route.go:152-168 | a group decides exactly when its trie finds a node. The decision is never 404, and it names the group and the matched route |
| Route.Dispatch | route.go:149-172 | 404 exactly when no group decides; otherwise the decision of the first group that decides, no earlier group deciding |
| Route.FirstDecidedSpec | route.go:151-172 | 404 exactly when no group from `i` on decides. Otherwise the outcome is the first decision, no earlier group decides, and the deciding group is the last one probed |
| Route.DispatchOutcome | route.go:149-172 | 404 exactly when no group's trie finds a node. Otherwise the first group whose trie finds one decides: its Any handler, else the method's, else 405 |
| Route.DecideLayers | route.go:48-62 | a group's handled decision is its registered handler, inside the group middlewares and then the route middlewares |
| Route.HandledLayers | route.go:48-62 | the handler dispatch calls is the registered one, inside the group's then the route's middlewares |
| Route.AbsentGroupSkipped | route.go:152-153 | a group whose "/"+name does not occur in the path finds no node and never decides |
| Route.NoGroupNotFound | route.go:171-172 | when no group's "/"+name occurs in the path, the outcome is 404 |
| Route.RouterGroup.constructor | route.go:24-30 | a group has empty maps, no middlewares and a trie whose root is "/" |
| Route.RouterGroup.Use | route.go:44-46 | group middlewares are appended; the registry is untouched |
| Route.RouterGroup.MethodHandle | route.go:48-62 | the two loops build the group-then-route composition |
| Route.RouterGroup.AddRoute | route.go:66-70 | a route seen for the first time gets empty inner maps, and a known route keeps its maps |
| Route.RouterGroup.SetHandler | route.go:71 | stores the handler under the route and method |
| Route.RouterGroup.AppendRoute | route.go:72 | appends the name to the method's route list |
| Route.RouterGroup.AppendMiddlewares | route.go:73 | appends the middlewares to the route and method's list |
| Route.RouterGroup.Record | route.go:66-73 | the three maps become Register's |
| Route.RouterGroup.Handle | route.go:65-75 | the maps become Register's, the trie gets the route Put into it, and the group middlewares are unchanged |
| Route.RouterGroup.Attempt | route.go:152-168 | one group's turn returns Decide's decision and leaves the trie as the lookup stamped it |
| Route.RouterGroup.Any | route.go:77-79 | `handle` with method "Any" |
| Route.RouterGroup.Get | route.go:81-83 | `handle` with method GET |
| Route.RouterGroup.Post | route.go:85-87 | `handle` with method POST |
| Route.RouterGroup.Delete | route.go:89-91 | `handle` with method DELETE |
| Route.RouterGroup.Put | route.go:92-94 | `handle` with method PUT |
| Route.RouterGroup.Patch | route.go:95-97 | `handle` with method PATCH |
| Route.RouterGroup.Options | route.go:98-100 | `handle` with method OPTIONS |
| Route.RouterGroup.Head | route.go:101-103 | `handle` with method HEAD |
| Route.Router.Group | route.go:23-33 | appends a fresh, empty group and keeps the existing groups in order |
| Route.Router.TryGroup | route.go:151-169 | group `i`'s turn of the loop returns that group's decision; only its trie gets stamped |
| Route.Router.HandleRequest | route.go:149-173 | returns Dispatch over the groups, and stamps exactly the tries it probed |
| WorkerPool.Int32 | pool/pool.go:38 | Go's int32 conversion: in range, equal to x modulo 2^32, and the identity on int32 values |
| WorkerPool.ConfigAsWritten | pool/pool.go:30-41 | the checks as written: an error exactly when cap <= 0 or expire <= 0, BadCap first. Any positive capacity passes and is stored as its int32 conversion, which agrees with it modulo 2^32 only |
| WorkerPool.CapWrapsToZero | pool/pool.go:30-41 | as written, a capacity of 2^32 passes the checks and leaves the pool with capacity 0 |
| WorkerPool.ValidateConfig | pool/pool.go:30-36 | an error exactly when cap <= 0, cap exceeds int32, or expire <= 0; BadCap takes precedence. On success the capacity survives the int32 conversion |
| WorkerPool.ValidateAgrees | pool/pool.go:30-41 | on every capacity int32 can hold, the corrected checks agree with the ones as written |
| WorkerPool.ExpiredCount | pool/pool.go:55-66 | the length of the longest expired prefix: every worker before it is expired, and the one at it is not |
| WorkerPool.SortedTrimIsExact | pool/pool.go:58-61 | on an idle list sorted by idle time, the trimmed prefix is exactly the set of expired workers |
| WorkerPool.UnsortedTrimMisses | pool/pool.go:58-61 | without the order, the stop-at-first-fresh scan can miss an expired worker |
| WorkerPool.AppendKeepsSorted | pool/pool.go:133-135 | appending with a monotone clock keeps the idle list sorted |
| WorkerPool.SliceKeepsSorted | pool/pool.go:95-97 | the tail pop and the reaper's trim keep the idle list sorted |
| WorkerPool.ExpiredCountIs | pool/pool.go:58-63 | the index at which the scan stops is ExpiredCount |
| WorkerPool.NewTimePool | pool/pool.go:30-45 | an error and no pool exactly when the corrected check ValidateConfig fails (see Findings). Otherwise a fresh valid pool: nothing idle, nothing running, not released, reaper on |
| WorkerPool.NewPool | pool/pool.go:26-28 | NewTimePool with expiry 3 |
| WorkerPool.Worker.constructor | pool/pool.go:104-108 | the worker knows its pool, its inbox is empty, and it is alive |
| WorkerPool.Worker.RunOnce | pool/worker.go:15-26 | the nil sentinel ends the worker and leaves the pool untouched. A task sends the worker back to the idle tail stamped `now`, takes one off `running`, and keeps the pool valid |
| WorkerPool.Pool.constructor | pool/pool.go:37-41 | the struct literal: a valid pool with nothing idle or running, not released, reaper on |
| WorkerPool.Pool.IsClosed | pool/pool.go:159-162 | true exactly when the release signal is set |
| WorkerPool.Pool.InRunning | pool/pool.go:128-130 | `running` goes up by one |
| WorkerPool.Pool.DecRunning | pool/pool.go:139-141 | `running` goes down by one |
| WorkerPool.Pool.PutWorker | pool/pool.go:132-137 | stamps the worker with `now` and appends it to the idle list, whether or not the pool is released |
| WorkerPool.Pool.Finish | pool/worker.go:22-23 | the worker leaves the busy set, goes back to the idle tail and `running` goes down by one, and the pool stays valid |
| WorkerPool.Pool.GetWorker | pool/pool.go:89-126 | pops the newest idle worker and leaves the rest in order; otherwise makes a new worker when running < cap; otherwise returns none, and the source would spin. The pool stays valid |
| WorkerPool.Pool.Submit | pool/pool.go:79-87 | Rejected and no change once released, and Blocked and no change when saturated. Otherwise the task is in exactly one worker's inbox, `running` is one higher, and the pool stays valid |
| WorkerPool.Pool.Assign | pool/pool.go:84-85 | the task goes into the worker's inbox and `running` goes up by one, and the pool stays valid |
| WorkerPool.Pool.SignalExpired | pool/pool.go:57-66 | the scan signals exactly the longest expired prefix with the nil sentinel and leaves the rest alone |
| WorkerPool.Pool.ExpireWorkers | pool/pool.go:48-77 | once released, the reaper stops for good. Otherwise it signals and cuts the longest expired prefix, keeps the rest in order and the pool valid, and the cut is exactly the expired workers |
| WorkerPool.Pool.Reap | pool/pool.go:55-73 | the scan and trim of a tick that has not seen the release signal |
| WorkerPool.Pool.DropSignalled | pool/pool.go:67-73 | the two trim branches cut exactly the signalled prefix, and the pool is valid again |
| WorkerPool.Pool.TrimKeepsIdleOk | pool/pool.go:67-73 | a suffix of a duplicate-free, time-ordered list of idle workers is a well-formed idle list |
| WorkerPool.Pool.Release | pool/pool.go:143-157 | the first call detaches the idle workers, empties the list and sets the signal; later calls change nothing. `running` is untouched |
| WorkerPool.Pool.Restart | pool/pool.go:164-170 | always true, and the signal is clear afterwards |
| WorkerPoolScenario.Saturation | pool/pool.go:102-125 | with capacity 2 and no worker finishing, two submissions are accepted and the third would block |
| WorkerPoolScenario.SequentialReuse | pool/pool.go:91-100 | the second of two tasks run one after the other lands in the inbox of the worker that ran the first, and the idle list is empty again |
| WorkerPoolScenario.ReleaseAfterRestart | pool/pool.go:143-170 | Release, Restart, Release leaves the pool open, because the once-guard is spent |
| WorkerPoolScenario.SubmitAfterRelease | pool/pool.go:80-82 | a submission after Release is refused and `running` stays 0 |
| WorkerPoolScenario.PutAfterRelease | pool/pool.go:132-137 | a worker put back after Release lands on the idle list |
| WorkerPoolScenario.ReapTwoOfThree | pool/pool.go:55-73 | with idle stamps 2, 5 and 8, expiry 3 and time 10, one tick removes two workers and keeps one |

Definitions without a row of their own, each stated through the members named:
RouteTree.Accepts (tree.go:26, tree.go:62; through RouteTree.FirstAccepted,
RouteTree.Child and RouteTree.Trail), Route.Chain (route.go:50-61; through
Route.ChainLayers and Route.ChainAppend), Route.Composed (route.go:48-62;
through Route.DecideLayers), Route.Register (route.go:66-73; through
Route.RegisterHandler, Route.RegisterMiddlewares, Route.RegisterMethodRoutes and
Route.RegisterKeepsKeys), Route.RoutePart and Route.Probe (route.go:152-153;
through Route.Decide, Route.AbsentGroupSkipped and Route.DispatchOutcome),
Route.Decisions and Route.FirstDecided (route.go:151-170; through
Route.FirstDecidedSpec and Route.Dispatch). The remaining helpers (Names, Somes,
the step lemmas of GetStamps, IdleSorted and similar) only serve the proofs.

## Left out

- Concurrency: the goroutines, `sync.Mutex`, `atomic.AddInt32` and the
  ticker loop are not modelled. Each pool operation is one atomic step, and a
  worker's `for f := range w.task` loop is one `RunOnce` per received item.
- The unlocked read of the idle list at pool/pool.go:91-92 is a data race and
  has no sequential meaning.
- WorkerPool.Pool.Submit: the busy-wait at pool/pool.go:112-125 is the result
  `Blocked` with no state change, not a loop that waits for another worker.
- WorkerPool.Pool.Release: `w.task = nil` and the nil-ing of the slice slots
  are not modelled. The detached workers' goroutines stay blocked forever,
  which is a runtime leak outside the model.
- WorkerPool.Pool.ExpireWorkers: `idleWorkers[i] = nil` on the signalled
  slots is not modelled. Only the pointers in the trimmed-off part of the
  backing array change.
- `time.Now`, `time.Time` and `time.Duration` are an integer clock in
  seconds. The int64 nanosecond overflow of `time.Duration(expire) *
  time.Second` for huge expiries is not modelled.
- The unused `workerCache` field (pool/pool.go:23) and the task bodies are not
  modelled; a task is an id. A panicking task is not modelled either.
- Submitting a nil task hands a worker the stop sentinel, exactly as in the
  source. That worker leaves without decrementing `running`, so its slot
  stays counted as running.
- Handlers and middlewares are ids, and a middleware's result is a recorded
  `Wrapped` layer. Route.RouterGroup.MethodHandle returns the composed handler
  instead of calling it with the context.
- Route.Router.HandleRequest returns the outcome instead of writing the
  404/405 status and body. The request is reduced to its path and method.
- `ServeHTTP`, `Run`, `Engine.pool` context reuse, template loading, Context.go,
  render/*, log/*, log.go and config/config.go are not part of this model.
- WorkerPool.NewTimePool and WorkerPool.NewPool: these validate with the
  corrected check ValidateConfig, so they reject a capacity above int32's
  range. pool/pool.go:31-38 accepts such a capacity and wraps it; that
  behaviour is WorkerPool.ConfigAsWritten (see Findings).
- Go strings are byte sequences, but the route paths, segments, route names
  and registry keys are Dafny `string`s, sequences of characters, in
  Utils.Split, RouteTree and Route. A path that is not valid UTF-8 cannot be
  written down in the model. Only IsAscii and StringToBytes work on bytes.
- StringToBytes's unsafe pointer aliasing is not modelled; only the resulting
  bytes are.
- RouteTree.Tree.Put and RouteTree.Tree.Get start at the root node only,
  which is the only node the framework calls them on.
- The trie's nodes are entries in a table inside the `Tree` object rather
  than separately allocated objects. Node pointers are table indices, so two
  tries never share nodes.

## Findings

| source | as written | input that shows it | evidently intended | confidence | as-written member | corrected member |
|---|---|---|---|---|---|---|
| pool/pool.go:31-38 | `cap` is checked as an `int` (`cap <= 0`), then stored as `int32(cap)` | `NewTimePool(1 << 32, 1)` is accepted and yields a pool with capacity 0, which can never create a worker | reject capacities that do not fit in int32 | not executed | WorkerPool.CapWrapsToZero | WorkerPool.ValidateConfig |

# Routing trie of toy-web, in Dafny

This project models the router in `web/route.go` of the toy-web framework.
Each HTTP method has its own trie. A node has four kinds of children:
- static children, keyed by their literal segment;
- at most one parameter child (`:id`);
- at most one regex child (`:id(pattern)`);
- at most one star child (`*`).

The operations are:
- `addRoute` and `childOrCreate`: registration, with its conflict rules;
- `findRoute` and `childOf`: a lookup that never backtracks, with a fallback to the last star node passed;
- `findMdls`: collects middleware breadth-first along the path;
- `validatePath`, `isRegExpr`, `matchRegExpr`, `newRouter` and `matchInfo`.

Each `*node` reference becomes an index into an arena of nodes. A trie is
`RouteTrie.Trie(trees, nodes)`, where `trees` maps each HTTP method to its
root. The project has two layers:
- **Value layer**: pure functions give the meaning of every operation. They are
  `RouteTrie.ChildOf`, `RouteTrie.ChildOrCreate`, `RouteTrie.InsertSegs`,
  `RouteTrie.Register`, `Lookup.FindRouteSpec` and `Lookup.FindMdlsSpec`. Lemmas
  prove what the router promises about them. Some of these functions have no
  row of their own in the table below; each is covered by the rows of its
  lemmas:
  - `Paths.ValidatePath`: by `Paths.ValidPathPieces`;
  - `RouteTrie.ChildOf`: by `RouteTrie.ChildOfPrecedence`;
  - `Lookup.Layer`: by `Lookup.LayerEdges`;
  - `Lookup.Collect`: by `Lookup.CollectExtend`;
  - `Lookup.FindMdlsSpec`: by `Lookup.WalkMdlsCollected`.
- **Object layer**: `Routing.Router` is a class with fields `trees` and `nodes`. Its
  methods change that state step by step, with the same loops as the Go code.
  Each method is proved to end in the state, and with the result, that the
  value layer gives.

A panic in `addRoute` becomes a `RouteKinds.RouteError` value. The trie the
failed call leaves behind is still returned, because the Go code does not
undo the nodes it created before panicking. The handler and middleware types
are type parameters. Regex matching is a function parameter
`rx: (body, segment) -> bool` (see "Left out").

Modules:
- `Wrappers`: `Option` and `Result`.
- `RouteKinds`: node kinds and registration errors.
- `Tokens`: `isRegExpr` and the pattern `^:(.+)\((.*)\)`, `matchRegExpr`, and how a segment is classified.
- `Paths`: `strings.Split` on '/', and `validatePath`.
- `RouteTrie`: the trie, its well-formedness invariant, `childOf`, `childOrCreate`, and `addRoute` as a function.
- `Registration`: the properties of registration.
- `Lookup`: `findRoute` and `findMdls` as functions, and their properties.
- `RoundTrip`: a registered route is found again by lookup.
- `Routing`: the mutable `Router`.

## Model

| member | source | states |
|---|---|---|
| RouteTrie.EmptyTrie | web/route.go:19-23 | the new router has no method trees and satisfies the trie invariant |
| Routing.Router.constructor | web/route.go:19-23 | `newRouter`: the object's state is the empty, well-formed trie |
| Tokens.LineEnd | web/route.go:10 | the index of the first newline: the regex `.` matches every character before it and none at it |
| Tokens.RegSplit | web/route.go:10 | a split point exists exactly when the token matches `^:(.+)\((.*)\)`; the split chosen is the greedy one: `(` and `)` at their largest possible indices |
| Tokens.RegName | web/route.go:323-330 | `isRegExpr`: a name exactly when the token matches the pattern; the name is non-empty and the token starts with `:`, then the name, then `(` |
| Tokens.RegSplitIs | web/route.go:10 | a match whose `)` has no later `)` and whose body holds no `(` is the split chosen; the name and body are the slices between the delimiters |
| Tokens.RegNameBody | web/route.go:323-341 | the matched prefix of a regex token is `:` name `(` body `)` |
| Tokens.RegTokenParts | web/route.go:323-341 | any token spelled `:name(body)` followed by text holding no `)`, with a non-empty name, no newline in name or body and no `(` in the body, yields that name and that body |
| Tokens.RegTokenName | web/route.go:323-330 | a whole token `:name(body)` with a non-empty name, no newline in name or body and no `(` in the body is recognised with the name `name` |
| Tokens.MatchRegExprToken | web/route.go:332-341 | `matchRegExpr` on the token a regex node was registered with, `:name(body)`, is true exactly when the body matches the segment |
| Tokens.MatchRegExprNonToken | web/route.go:332-336 | a pattern that `isRegExpr` rejects matches no segment |
| Tokens.ClassifyRegToken | web/route.go:218-233 | a token spelled `:name(body)` is taken by `childOrCreate` as a regex token named `name`, never as a parameter, although it starts with ':' |
| Tokens.ClassifyParamToken | web/route.go:235-253 | a token `:name` whose name holds no '(' is taken as a parameter named `name` |
| Tokens.RegNameExampleId | web/route_test.go:602-605 | `isRegExpr(":id(.*)")` gives the name "id" |
| Tokens.RegNameExampleAnchored | web/route_test.go:606-609 | `isRegExpr(":name(^.+$)")` gives the name "name" |
| Tokens.RegNameExamplesNone | web/route_test.go:610-621 | "*", ":user" and "user" are not regex tokens |
| Paths.Split | web/route.go:56 | `strings.Split(path, "/")`: at least one piece, and no piece holds '/' |
| Paths.JoinSplit | web/route.go:56 | joining the pieces with '/' gives the path back |
| Paths.SplitJoin | web/route.go:56 | splitting pieces that hold no '/', once joined, gives the pieces back |
| Paths.SplitFirstEmpty | web/route.go:56 | the first piece is empty exactly when the path is empty or starts with '/' |
| Paths.SplitLastEmpty | web/route.go:56 | the last piece is empty exactly when the path is empty or ends with '/' |
| Paths.SplitInnerEmpty | web/route.go:56-60 | a piece after the first is empty exactly when the path ends with '/' or holds "//" |
| Paths.ValidPathPieces | web/route.go:343-353 | `validatePath` accepts exactly the paths whose split has an empty first piece, at least two pieces, and a non-empty last piece unless the path is "/" |
| Paths.ValidPathEmptySegment | web/route.go:56-60 | for a valid path other than "/", some segment is empty exactly when the path holds "//" |
| Paths.ValidatePathCases | web/route_test.go:186-221 | "" fails with EmptyPath, "a/b/c" with NoLeadingSlash, "/a/b/c/" with TrailingSlash; "/", "/a/b/c", "/a//b" and "//a/b" pass validation, and the last two have an empty segment |
| Paths.RootSegs | web/route.go:45-54 | "/" splits into one empty segment, which is why `addRoute` and `findRoute` treat it apart |
| RouteTrie.GrowsTrans | web/route.go:201-268 | trie growth (children, handlers and middleware are only ever added) is transitive |
| RouteTrie.ChildOfPrecedence | web/route.go:174-194 | `childOf`: the static child keyed by the segment, if any; else the regex child when its pattern matches; else the parameter child; else the star child; no child exactly when none of these applies |
| RouteTrie.ChildOrCreate | web/route.go:201-268 | a successful `childOrCreate` keeps the trie well-formed, only grows it, returns a node of the trie, and creates at most one node |
| RouteTrie.InsertSegs | web/route.go:56-62 | the segment loop of `addRoute` keeps the trie well-formed and only grows it, even when it fails part-way |
| RouteTrie.AddRootWellFormed | web/route.go:35-43 | adding a root for a new method keeps the trie well-formed and only grows it |
| RouteTrie.RootFor | web/route.go:35-43 | the method's root exists afterwards; an existing root is reused and nothing changes |
| RouteTrie.Register | web/route.go:32-75 | `addRoute`, successful or not, leaves a well-formed trie that has only grown |
| RouteTrie.RegisterAt | web/route.go:45-75 | `addRoute` past the root step leaves a well-formed trie that has only grown |
| RouteTrie.BindWellFormed | web/route.go:64-74 | setting a handler on a node without one, and appending middleware, keeps the trie well-formed and only grows it |
| Registration.ChildOrCreateFails | web/route.go:201-253 | `childOrCreate` fails exactly when a special child of another kind exists (the error names both kinds), or the parameter child has another token; a static segment never fails |
| Registration.ChildOrCreateReuses | web/route.go:209-267 | an existing child of the right kind is returned and nothing is created, including the regex child for any regex token |
| Registration.ChildOrCreateSlot | web/route.go:201-268 | the returned child hangs from the slot the segment's kind selects; a parameter child carries the segment as its token |
| Registration.ChildOrCreateIdempotent | web/route.go:201-268 | a second `childOrCreate` with the same segment returns the same node and creates nothing |
| Registration.ChildOrCreateHitPersists | web/route.go:201-268 | a child that was found stays found, with no change, in any trie grown later |
| Registration.InsertSegsPersists | web/route.go:56-62 | a walk over segments that are all present changes nothing, in this and every grown trie |
| Registration.InsertSegsIdempotent | web/route.go:56-62 | inserting the same segments again returns the same node and creates nothing |
| Registration.InsertSegsEmptySegment | web/route.go:56-62 | with an empty segment the walk fails: with EmptySegment when the segments before the first empty one insert cleanly, otherwise with the conflict met among them; never with DuplicateRoute |
| Registration.InsertSegsNoDuplicate | web/route.go:56-62 | the segment walk never reports DuplicateRoute |
| Registration.BindingsKeptTrans | web/route.go:201-268 | "no handler or middleware changed" is transitive |
| Registration.GrowKeepsBindings | web/route.go:209-266 | a newly created child has no handler and no middleware, and no other node's bindings change |
| Registration.ChildOrCreateKeepsBindings | web/route.go:201-268 | `childOrCreate` sets no handler and attaches no middleware |
| Registration.InsertSegsKeepsBindings | web/route.go:56-62 | the segment loop sets no handler and attaches no middleware |
| Registration.RegisterInvalidPath | web/route.go:343-353 | a path `validatePath` rejects fails with that error and changes nothing |
| Registration.RegisterEmptySegment | web/route.go:35-61 | a valid path holding "//" fails, not with DuplicateRoute, and the method's root exists afterwards (the failure is not atomic); the error is EmptySegment when the segments before the first empty one insert cleanly, otherwise the conflict met among them |
| Registration.RegisterEmptySegmentCases | web/route_test.go:215-221 | on a new router, "/a//b" and "//a/b" fail with EmptySegment |
| Registration.RegisterOkNoEmptySegment | web/route.go:33-60 | a registration that succeeds had a valid path with no empty segment |
| Registration.UseNeverDuplicate | web/route.go:45-69 | registering with no handler (`Use`) never fails with DuplicateRoute |
| Registration.RegisterBinds | web/route.go:45-75 | a successful registration touches only its target node: the handler is set there if one was given and none was set, the middleware is appended there in argument order, and every other node keeps its handler and middleware |
| Registration.RegisterAtSetsOne | web/route.go:64-74 | past the walk, a successful registration rewrites exactly the node reached: its handler and middleware as above |
| Registration.SetNodeKeepsBindings | web/route.go:64-74 | replacing one node keeps every other node's handler and middleware |
| Registration.RegisterAfterWalk | web/route.go:56-74 | a successful registration grows the trie its segment walk built |
| Registration.RegisterTargetPersists | web/route.go:35-62 | after a successful registration, the same method and path reach the same node in every grown trie, creating nothing |
| Registration.RegisterTwiceDuplicate | web/route.go:45-69 | registering a handler again for the same method and path fails with DuplicateRoute and changes nothing, however the trie grew in between |
| Registration.UseAccumulates | web/route.go:52-74 | middleware-only registrations of the same method and path both succeed and accumulate in call order, with no deduplication |
| Lookup.AddValue | web/route.go:315-321 | `addValue` stores the value under the key, keeps every other key and value, and leaves node and middleware alone |
| Lookup.Advance | web/route.go:96-116 | one step of the lookup loop succeeds exactly when `childOf` finds a child, and keeps the loop variables valid |
| Lookup.Walk | web/route.go:95-117 | the lookup loop answers with a node of the trie, if any |
| Lookup.Trail | web/route.go:95-117 | the nodes `childOf` leads to, one per segment, are nodes of the trie and at most one per segment |
| Lookup.TrailStops | web/route.go:96-97 | the trail stops short only where `childOf` finds no child |
| Lookup.LastStar | web/route.go:107-109 | the position found is on the trail |
| Lookup.LastStarIsLast | web/route.go:97-109 | the fallback node is a star node and no star node comes after it; there is none exactly when no node of the trail is a star node |
| Lookup.LastCapture | web/route.go:110-115 | the position of the last node on the trail that captures a name: that node captures it, no later one does, and none does when there is no position |
| Lookup.CaptureAllLastWins | web/route.go:110-115 | a parameter holds the segment of the last node on the trail that captures it; a name no node captures keeps its earlier value |
| Lookup.WalkByTrail | web/route.go:95-117 | the loop's answer: the trail's end when every segment found a child, else the last star node passed, else not found; the parameters are those captured along the trail |
| Lookup.TrailAnswerCons | web/route.go:95-117 | one loop iteration moves the answer one node along the trail |
| Lookup.FindRouteSpec | web/route.go:79-123 | `findRoute` answers with a node of the trie, or not found |
| Lookup.FindRouteByTrail | web/route.go:79-123 | `findRoute` for a path other than "/": the trail's end when every segment found a child, else the last star node passed, else not found; the parameters come from the trail and the middleware from `findMdls`; the node need not carry a handler |
| Lookup.FindRouteParams | web/route.go:92-115 | the parameters found are exactly the names captured along the trail, each holding the segment of its last capture |
| Lookup.ChildOfIsEdge | web/route.go:174-194 | every child `childOf` selects is one `findMdls` visits |
| Lookup.Expand | web/route.go:284-302 | the children one frontier node adds to the queue are nodes of the trie |
| Lookup.ExpandEdges | web/route.go:284-302 | a node is added for a frontier node exactly when it is that node's star child, its parameter child, its regex child with a matching pattern, or its static child keyed by the segment |
| Lookup.LayerEdges | web/route.go:282-304 | the next frontier holds exactly the children some frontier node has an edge to |
| Lookup.MdlsOfAppend | web/route.go:286-300 | the middleware of a concatenation of node lists is the concatenation of their middleware |
| Lookup.FrontierOfEmpty | web/route.go:278-280 | an empty frontier stays empty, so the early exit loses nothing |
| Lookup.CollectExtend | web/route.go:277-305 | one more segment appends exactly the middleware of the frontier it leads to; the layers before it are unchanged |
| Lookup.CollectPrefix | web/route.go:277-305 | more segments only extend the middleware collected |
| Lookup.TrailInFrontier | web/route.go:277-305 | every node the lookup walk passes is in the frontier `findMdls` reaches after the same segments |
| Lookup.MdlsOfHolds | web/route.go:286-300 | a node's middleware appears, contiguously, in the middleware of any node list holding it |
| Lookup.WalkMdlsCollected | web/route.go:272-307 | the middleware of every node the lookup walk passes appears, contiguously and in registered order, in what `findMdls` collects for the same segments |
| RoundTrip.ChildOfFindsCreated | web/route.go:174-268 | for a segment that is not a regex token, `childOf` selects the child `childOrCreate` returned for it, in any grown trie |
| RoundTrip.InsertSegsFound | web/route.go:56-117 | the lookup walk follows inserted segments without regex tokens to the end, reaching the node the insertion ended at |
| RoundTrip.RegisteredRouteFound | web/route.go:32-123 | a successful registration is found again by `findRoute`, now or after any later registrations: its node, with the handler given, without the star fallback |
| RoundTrip.RegisteredMdlsApplied | web/route.go:272-307 | the middleware a registration attached appears, contiguously and in argument order, in what `findRoute` returns for the same method and path |
| RoundTrip.RegisteredMdlsHeld | web/route.go:52-74 | the target node keeps the middleware attached to it, after what it held before |
| RoundTrip.RegisteredTrailEnds | web/route.go:56-122 | for a registered path other than "/" without regex segments, the lookup trail covers every segment and ends at the registered node |
| Routing.Router.ChildOrCreate | web/route.go:201-268 | `childOrCreate` on the object: the result and new state are those of the value-layer `childOrCreate`; an error leaves the state unchanged |
| Routing.Router.AddRoute | web/route.go:32-75 | `addRoute` on the object: the error and new state are those `RouteTrie.Register` gives |
| Routing.Router.AddRouteAt | web/route.go:45-75 | `addRoute` past the root step: error and new state as `RouteTrie.RegisterAt` gives |
| Routing.Router.SetHandler | web/route.go:46-69 | a second handler on one node fails with DuplicateRoute and changes nothing; otherwise the handler is set if given, and nothing else changes |
| Routing.Router.InsertPath | web/route.go:56-62 | the segment loop: node reached, error and new state as `RouteTrie.InsertSegs` gives |
| Routing.Router.AppendMdls | web/route.go:72-74 | the middleware is appended to one node, in order; nothing else changes |
| Routing.Router.FindRoute | web/route.go:79-123 | `findRoute` on the object returns what `Lookup.FindRouteSpec` gives and changes nothing |
| Routing.Router.Visit | web/route.go:285-301 | one child joins the queue and its middleware is appended |
| Routing.Router.VisitChildren | web/route.go:284-302 | star, parameter, matching regex and static child join the queue in that order, with their middleware |
| Routing.Router.VisitLayer | web/route.go:282-303 | the inner loop appends the next layer to the queue and its middleware to the result |
| Routing.Router.NextLayer | web/route.go:282-304 | one outer iteration leaves exactly the next layer in the queue and appends its middleware |
| Routing.Router.FindMdls | web/route.go:272-307 | `findMdls` on the object returns what `Lookup.FindMdlsSpec` gives and changes nothing |

## Left out

- Regex engine: whether a regex body matches a segment is the parameter `rx`. Go's `regexp` is not modelled.
- Regex compile panic: `regexp.MustCompile` in `matchRegExpr` (web/route.go:338) panics on an invalid body at lookup time. The model does not capture this: `rx` is total.
- Panic messages: each panic of `addRoute` and `childOrCreate` is one `RouteError` variant. The message text and the offending path it quotes are not modelled.
- `regExpr` field: the node field `regExpr` is never assigned in the source, so it is not modelled.
- `route` field: it is set on the target node (web/route.go:71). Nothing in the core reads it, and no property is stated about it.
- Nil parameter map: `findRoute` returns a nil map when nothing is captured; the model returns the empty map. `addValue`'s lazy creation of the map is not modelled either.
- Node references: each `*node` is an arena index. The Go code never shares a node between two parents, so aliasing is not modelled.
- Helper methods: `Routing.Router` splits `addRoute` and `findMdls` into helper methods (`AddRouteAt`, `InsertPath`, `SetHandler`, `AppendMdls`, `Visit`, `VisitChildren`, `VisitLayer`, `NextLayer`). The Go code has these steps inline.
- Bytes and runes: strings are sequences of characters. The Go code indexes bytes (`path[0]`, `len(path)`), so this agrees on ASCII paths only.
- Concurrency: there is no locking in the source and none in the model.
- Not part of this model: the server, the request context, sessions, file handling, templates, the middleware packages, homework1 and the test helper `equal`.
- RoundTrip.RegisteredRouteFound: the path must contain no regex segment. Whether a regex child matches its own token's segment depends on the regex engine. This lemma and `RegisteredMdlsApplied` are stated for paths without regex segments.
- RoundTrip.RegisteredTrailEnds: the path must contain no regex segment, for the same reason: whether the lookup trail passes a regex child depends on the regex engine matching the segment against that child's own token.
- RoundTrip.RegisteredMdlsApplied: it proves the registered middleware appears contiguously in the lookup's result. It does not give its exact position, because sibling branches can contribute middleware before it.

Behaviour of the code worth knowing:
- Empty segments at lookup: `childOf` returns the parameter child for any segment, including an empty one (web/route.go:188-190).
- Regex child reuse: a second regex token at a position that already has a regex child gets that child back (web/route.go:225-232). This holds even when the token has another name or pattern. The new name and pattern are silently dropped, not reported as a conflict.
- "//" is rejected in the segment loop, not by validation (web/route.go:56-60). The method's root and the nodes of earlier segments stay in the trie, and a kind conflict at an earlier segment is reported instead of the empty segment.

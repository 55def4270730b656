# SwiftRouter in Dafny

A model of SwiftRouter's core, the `Router` class of `Source/SwiftRouter.swift`, with proofs about it. SwiftRouter maps URL-like route strings such as `/user/:userId` to
view-controller classes or to handler closures. It keeps the registered patterns in a trie keyed by path component.
Looking up a concrete route walks that trie. A literal key is preferred. Otherwise a `:name` key matches any component and binds `name` to it.
Parameters also come from the route's query (`?a=1&b=2`) and fragment (`#...`).

Modules, one file each:

- `Text` (`text.dfy`): the Foundation string operations the router relies on. These are prefix test, first occurrence of a character, and `components(separatedBy:)` as `Split`. Split has its inverse `Join` and the round-trip lemmas.
- `Outcomes` (`outcomes.dfy`): `Option`, the `RouterError` enum with its messages, and `Outcome`.
  `Outcome` is a value or the trap that would have stopped the process: `fatalError`, a forced cast `as!` or a forced unwrap `!`.
- `Schemes` (`schemes.dfy`): `stringByFilterAppSchemes`, which strips the first matching `scheme:` tag. The scheme list is a parameter.
- `Tokenizer` (`tokenizer.dfy`): `pathComponentsInRoute`, which cuts the route at `#` and then at `?`. It takes Foundation's path components and drops every "/" after the first.
- `Query` (`query.dfy`): `paramsFromQuery` as a function, its meaning (the last binding piece wins, pieces without `=` bind nothing), and the dictionary overwrite loop.
- `Trie` (`trie.dfy`): the trie as a value.
  - `Insert` is `insertRoute` and `Walk` is the walk of `findRouteEntry`.
  - Lemmas give the outcome of registration, where it puts the entry, the register-then-lookup round trip, and the literal, dynamic and skip steps of lookup.
- `SwiftRouter` (`router.dfy`): the `Router` class.
  - Its `routeMap` field holds the trie. `DoMap` and `RemoveAllRoutes` reassign it.
  - Its lookup, parameter, handler and controller methods are imperative, with the source's loops. Each is proved equal to a specification function.
  - Lemmas cover parameter precedence, the tests' routes and the effect of a reset.

Behaviour of the code that the model keeps and a reader might not expect:

- Query parameters override fragment parameters. `paramsInRoute` applies the fragment first and the query last, and the assertion at `SwiftRouterTests/SwiftRouterTests.swift:45-48` states that.
- A `?` anywhere in the route, even inside the fragment, ends the path.
- Registering a pattern whose path already exists stops the process. This includes a prefix of an existing pattern.
- The terminal component is recognised by comparing values with the pattern's last component, both when inserting and when looking up. A pattern whose last component also occurs earlier in it may therefore not be found again, and its lookup can trap (`Trie.EarlierLastComponentTraps`).
- `paramsInRoute` strips the scheme tag twice. It strips it once itself and once more inside `findRouteEntry`.

## Model

| member | source | states |
|---|---|---|
| Outcomes.Message | Source/SwiftRouter.swift:31-40 | the text of each error's `message()`, its case name capitalised |
| Outcomes.MessageInjective | Source/SwiftRouter.swift:31-40 | each error has its own message text, so a trap names its cause |
| Text.IndexOf | Source/SwiftRouter.swift:199 | the lower bound of `range(of:)` is the position of the first occurrence |
| Text.Before | Source/SwiftRouter.swift:203 | `substring(to:)` at the first occurrence is a prefix free of the character; it is the whole string when the character is absent |
| Text.After | Source/SwiftRouter.swift:200 | the text after the first occurrence; the string is the part before, the character and the part after |
| Text.FirstOccurrence | Source/SwiftRouter.swift:199-203 | when the character first occurs after `a`, the text before it is `a` and the text after it is the rest |
| Text.Split | Source/SwiftRouter.swift:217 | `components(separatedBy:)` gives at least one piece, and no piece holds the separator |
| Text.JoinSplit | Source/SwiftRouter.swift:217 | splitting loses nothing: the pieces joined with the separator give the text back |
| Text.SplitJoin | Source/SwiftRouter.swift:219 | splitting is the inverse of joining separator-free pieces |
| Text.FirstPiece | Source/SwiftRouter.swift:217 | the text before the first separator is the first piece, and the remaining pieces are those of the text after it |
| Text.SplitNoSeparator | Source/SwiftRouter.swift:219-220 | a text without the separator is one piece, so `kv.count >= 2` fails for a piece with no `=` |
| Text.SplitHead | Source/SwiftRouter.swift:219-222 | the first piece is the text before the first separator; a second piece exists iff the separator occurs |
| Schemes.FilterAppSchemes | Source/SwiftRouter.swift:72-80 | an untagged route is unchanged; otherwise the tag of the first listed scheme that prefixes it is removed |
| Schemes.FilterIsSuffix | Source/SwiftRouter.swift:73-79 | filtering only removes a prefix |
| Schemes.StripsFirstScheme | Source/SwiftRouter.swift:75-76 | a route tagged with the first listed scheme loses exactly `scheme:` |
| Schemes.FilterTwice | Source/SwiftRouter.swift:195 | a second filter is a no-op when the first result carries no listed tag |
| Tokenizer.CutPath | Source/SwiftRouter.swift:230-236 | the path is a prefix of the route without `?`; without `?` in the route it also has no `#` |
| Tokenizer.NonEmpty | Source/SwiftRouter.swift:238 | the kept pieces are non-empty and come from the input |
| Tokenizer.Names | Source/SwiftRouter.swift:238 | every name is non-empty and free of `/` |
| Tokenizer.ComponentsShape | Source/SwiftRouter.swift:238-243 | dropping every "/" after the first from the path components leaves the leading "/" of an absolute path and then the names |
| Tokenizer.DropKeepsNames | Source/SwiftRouter.swift:238-243 | the loop keeps a first component and every name unchanged |
| Tokenizer.TokenizeShape | Source/SwiftRouter.swift:229-245 | the components are "/" for an absolute path, followed by its names; a trailing "/" never survives |
| Tokenizer.TokenizeComponents | Source/SwiftRouter.swift:238-243 | "/" comes first iff the path is absolute and appears nowhere else; every other component is a name |
| Tokenizer.TrailingSlash | Source/SwiftRouter.swift:238-241 | `/n1/.../nk/` and `/n1/.../nk` give the same components, "/" followed by the names: the trailing separator's empty piece is dropped |
| Tokenizer.QueryIgnored | Source/SwiftRouter.swift:231-236 | nothing from the first `?` on reaches the components, even when a `#` precedes it: they are the lead and names of the text before the `?`, and those of the path alone when it has no `#` |
| Tokenizer.FragmentIgnored | Source/SwiftRouter.swift:231-233 | without a `?`, nothing from the first `#` on reaches the components |
| Tokenizer.QuestionMarkInFragment | Source/SwiftRouter.swift:231-236 | in `/a#f?c` the `?` cut wins over the `#`, so `a#f` is a single component |
| Tokenizer.RootRoute | Source/SwiftRouter.swift:238-241 | a non-empty route made only of `/` gives the single root component, so the root can be registered |
| Tokenizer.SlashBeforeQuery | SwiftRouterTests/SwiftRouterTests.swift:33 | a path with a trailing `/` before its query, as in `/user/1/?username=hello`, gives the same components as the bare path: "/" followed by its names |
| Tokenizer.UserOne | SwiftRouterTests/SwiftRouterTests.swift:35 | `/user/1` gives the components "/", `user`, `1` |
| Tokenizer.TokenizeAbsolute | Source/SwiftRouter.swift:229-245 | `/n1/.../nk` gives "/" followed by exactly those names |
| Query.PieceMeaning | Source/SwiftRouter.swift:219-223 | a piece binds iff it has an `=`; the key is the text before the first `=`, the value the text up to the second |
| Query.PiecesStep | Source/SwiftRouter.swift:218-224 | one loop step: the new piece decides a key it binds; other keys keep their value |
| Query.PiecesParamsMeaning | Source/SwiftRouter.swift:216-226 | a key is bound iff some piece binds it, with the value of the last such piece |
| Query.QueryParamsMeaning | Source/SwiftRouter.swift:215-227 | the same for a whole query text cut at `&` |
| Query.TwoBindingsAndPlain | SwiftRouterTests/SwiftRouterTests.swift:45 | `k1=v1&k2=v2&p` with distinct keys binds exactly k1 to v1 and k2 to v2; the piece without `=` binds nothing |
| Query.PiecesValue | Source/SwiftRouter.swift:218-224 | a bound key's value comes from a piece that binds it with no later piece binding it |
| Query.Overwrite | Source/SwiftRouter.swift:200-202 | the keys are the union, and the added mapping wins on shared keys |
| Trie.NewEntry | Source/SwiftRouter.swift:98-104 | the entry has the route as pattern, the class when one is given and otherwise the handler; it is describable iff one of them is present |
| Trie.NodeAtAppend | Source/SwiftRouter.swift:114-121 | following a path in two parts is following the first part and then the second from the node reached |
| Trie.EmptyHasNothingBelow | Source/SwiftRouter.swift:84-88 | an empty trie has only its root node and no entry anywhere |
| Trie.SameBelow | Source/SwiftRouter.swift:116-121 | replacing one child changes only the paths through that child |
| Trie.Insert | Source/SwiftRouter.swift:109-125 | `insertRoute`: it traps only with entryAlreayExisted or invalidRouteEntry; on success the root keeps its entry and gains exactly the first component as a key if it was missing |
| Trie.Register | Source/SwiftRouter.swift:105-106 | registering a pattern's components traps with entryAlreayExisted iff the path exists, with invalidRouteEntry iff it is new and the entry is not describable, and succeeds iff it is new and describable |
| Trie.InsertFresh | Source/SwiftRouter.swift:115-124 | below a new node every component is created, so only the description can trap |
| Trie.InsertOutcome | Source/SwiftRouter.swift:109-125 | registration traps with entryAlreayExisted iff the whole path already exists, and with invalidRouteEntry iff the path is new and the entry has neither class nor handler; otherwise it succeeds |
| Trie.InsertPlaces | Source/SwiftRouter.swift:114-124 | when the last component does not occur earlier in the pattern, a successful insertion stores the entry at the pattern's path and changes no other entry; exactly the path's prefixes are added |
| Trie.LiteralAddsNoSecondParam | Source/SwiftRouter.swift:114-122 | a pattern without `:` components adds no dynamic child anywhere |
| Trie.InsertKeepsUnambiguous | Source/SwiftRouter.swift:109-125 | insertion keeps every node at most one `:` child unless it adds a second `:` key next to an existing one |
| Trie.DynamicKey | Source/SwiftRouter.swift:178 | the dynamic key taken is a child whose name starts with `:` |
| Trie.Walk | Source/SwiftRouter.swift:166-189 | `findRouteEntry`'s walk: a literal child first, else the dynamic child binding its name, else the component is skipped; it ends at the first component equal to the last one. Its steps are stated by WalkThrough, DynamicLookup, DynamicDescend, SkipUnmatched and WalkKeeps |
| Trie.WalkKeeps | Source/SwiftRouter.swift:166-189 | the walk keeps every parameter it was given, and its only trap is the forced cast of line 172 |
| Trie.Resolve | Source/SwiftRouter.swift:162-190 | a lookup of whole components keeps the parameters it was given, and its only trap is the forced cast |
| Trie.WalkThrough | Source/SwiftRouter.swift:169-176 | an existing literal path avoiding the last component is followed key by key |
| Trie.LiteralLookup | Source/SwiftRouter.swift:169-174 | an existing literal path whose last component does not occur earlier in it resolves to its node's entry, and traps on the forced cast when the node has none |
| Trie.DynamicLookup | Source/SwiftRouter.swift:178-183 | a component that is no literal child is taken by the `:name` child, binding `name`; as last component it ends with that child's entry |
| Trie.DynamicDescend | Source/SwiftRouter.swift:178-185 | before the last component, a dynamic match binds and continues below `:name` |
| Trie.SkipUnmatched | Source/SwiftRouter.swift:166-187 | a component matching neither kind of child is skipped |
| Trie.ResolveEmpty | Source/SwiftRouter.swift:166-189 | resolving any components in an empty trie finds nothing and binds nothing |
| Trie.WalkEmpty | Source/SwiftRouter.swift:166-189 | an empty trie finds nothing and binds nothing |
| Trie.WalkParams | Source/SwiftRouter.swift:180 | the walk only writes bindings over the parameters it was given; its result does not depend on them |
| Trie.InsertThenResolve | Source/SwiftRouter.swift:105-106 | a pattern registered successfully, whose last component does not occur earlier in it, is found again by its own components |
| Trie.EarlierLastComponentTraps | Source/SwiftRouter.swift:115-124 | with `/x/z` registered, `/x/y/x` registers successfully under `/x/y`, yet its lookup stops at `/x`, which has no entry, and traps on the forced cast of line 172 |
| Trie.RepeatedLastComponent | Source/SwiftRouter.swift:116 | value comparison stores `/x/y/x` at `/x`, and `/x/q/x` then finds it |
| SwiftRouter.QueryAndFragment | Source/SwiftRouter.swift:199-210 | in `path?query#fragment` the query is the text between `?` and `#` and the fragment the text after `#` |
| SwiftRouter.ParamsPrecedence | Source/SwiftRouter.swift:192-212 | a key is present iff the path, fragment or query binds it; the query beats the fragment, which beats the path |
| SwiftRouter.QueryOverridesFragment | SwiftRouterTests/SwiftRouterTests.swift:45-48 | the route of the test, under a trie whose `/a` has the single dynamic child `:name`, binds name to the path's value, gets the query's password over the fragment's, and keeps the fragment's username |
| SwiftRouter.SingleBinding | Source/SwiftRouter.swift:217-224 | `k=v` binds exactly k to v |
| SwiftRouter.TwoComponents | SwiftRouterTests/SwiftRouterTests.swift:40 | `/a/v?q` gives the components "/", `a`, `v` |
| SwiftRouter.AbsoluteRoute | Source/SwiftRouter.swift:229-245 | `/n1/.../nk?q` gives "/" followed by exactly the names, whatever the query |
| SwiftRouter.ResolveDynamicRoute | SwiftRouterTests/SwiftRouterTests.swift:40-41 | `/a/v?q`, under a single `:name` child of `/a`, resolves to that child's entry and binds name to v |
| SwiftRouter.ResolveLiteralRoute | Source/SwiftRouter.swift:163-174 | when nk does not occur among n1..n(k-1), `/n1/.../nk?q` resolves by literal keys to that node's entry, or traps on the forced cast when the node has none |
| SwiftRouter.LiteralRouteParams | SwiftRouterTests/SwiftRouterTests.swift:61-74 | a handler at a literal path receives exactly the query's parameters |
| SwiftRouter.UnknownRoute | SwiftRouterTests/SwiftRouterTests.swift:76-77 | an unmatched component under the root finds nothing |
| SwiftRouter.FindEmpty | Source/SwiftRouter.swift:162-190 | a lookup in an empty router finds nothing and leaves the parameters as given |
| SwiftRouter.NoFragment | Source/SwiftRouter.swift:199-210 | a route `path?query` without `#` has no fragment parameters, and its query parameters are those of `query` |
| SwiftRouter.AfterReset | SwiftRouterTests/SwiftRouterTests.swift:85-86 | after a reset nothing resolves, and only the query and fragment give parameters |
| SwiftRouter.ControllerParams | Source/SwiftRouter.swift:129-130 | the second lookup writes its path bindings over `paramsInRoute`'s parameters, with the same result as a fresh lookup |
| SwiftRouter.DoubleFiltering | Source/SwiftRouter.swift:195 | the double filter strips `s:s:` from `s:s:/x`, where a single filter leaves `s:/x` |
| SwiftRouter.Router.constructor | Source/SwiftRouter.swift:84-88 | a new router has no routes |
| SwiftRouter.Router.DoMap | Source/SwiftRouter.swift:98-107 | traps with entryAlreayExisted iff the path exists, with invalidRouteEntry iff it is new and there is neither class nor handler, and succeeds iff it is new and there is one; a trap leaves the trie unchanged; on success the trie is the registration result and, when the last component does not occur earlier, the entry sits at the pattern's path and no other entry changes; it keeps every node at most one `:` child unless it adds a second one |
| SwiftRouter.Router.RemoveAllRoutes | Source/SwiftRouter.swift:247-249 | the trie is empty afterwards |
| SwiftRouter.Router.PathComponentsInRoute | Source/SwiftRouter.swift:229-245 | the loop's result is the components Tokenize specifies |
| SwiftRouter.Router.ParamsFromQuery | Source/SwiftRouter.swift:215-227 | the loop's result is QueryParams, whose meaning PiecesParamsMeaning states |
| SwiftRouter.Router.FindRouteEntry | Source/SwiftRouter.swift:162-190 | the nested loops compute the walk over the filtered route's components |
| SwiftRouter.Router.ParamsInRoute | Source/SwiftRouter.swift:192-213 | the path bindings of the doubly filtered lookup, then the fragment's, then the query's; a lookup trap propagates |
| SwiftRouter.Router.AddQueryAndFragment | Source/SwiftRouter.swift:197-210 | the fragment's parameters are written over the given ones, then the query's |
| SwiftRouter.Router.MatchHandler | Source/SwiftRouter.swift:154-160 | the handler of the entry found, none when nothing is found, or the lookup's trap |
| SwiftRouter.Router.RouteURL | Source/SwiftRouter.swift:251-257 | the handler's answer on `paramsInRoute`'s parameters; false with no entry or no handler |
| SwiftRouter.Router.MatchController | Source/SwiftRouter.swift:128-137 | the class and parameters of the entry the second lookup finds, none when nothing is found, and a trap when the entry has no class |

## Left out

- The scheme list read from the application bundle (`Source/SwiftRouter.swift:12-25`) is a parameter of the router: the bundle is not modelled.
- Controller instantiation, `setValuesForKeys` and the storyboard variant (`matchControllerFromStoryboard`, lines 140-152) are left out. They are UIKit and Objective-C runtime calls. `MatchController` stops at the class name and the parameters the instance would receive.
- `routeURL(_:navigationController:)` (lines 259-266) pushes a controller onto a UIKit navigation stack. Its only router logic is `matchController`, which is modelled.
- The two public `map` overloads (lines 90-96) only forward to `doMap` and are not separate members.
- `sharedInstance` is not modelled. The model is one router object, and global sharing and thread safety are not covered.
- The trie is a value inside the `routeMap` field, not nested mutable dictionaries. Aliasing between sub-dictionaries is not represented.
- The entry lives in a separate slot of each node, not under the reserved key `_entry` among the children. A path component spelled `_entry` therefore does not collide with an entry here.
- FindRouteEntry: when a node has several `:` children the source takes whichever its dictionary enumerates first. The lookup members require `Unambiguous` (at most one `:` child per node). `DoMap` keeps that property unless it adds a second `:` child next to an existing one (`Trie.InsertKeepsUnambiguous`). The model does not say which child a lookup takes in that case.
- The print at line 118 is left out, except that its `description` can trap. That trap is modelled as `Fatal(InvalidRouteEntry)`.
- A trap stops the process in the source. The model returns `Trapped` and leaves the router unchanged.
- Foundation's `NSString.pathComponents` is modelled abstractly. The result is "/" for an absolute path, then the non-empty `/`-separated names, then "/" when the path ends in a separator after a name. Tilde expansion and other Foundation normalisation are left out.
- Swift's `==` on strings (the terminal tests at lines 116, 170 and 181) and `hasPrefix` (lines 75 and 178) compare by Unicode canonical equivalence, and `characters.count` (line 76) counts grapheme clusters. The model compares and counts elements of `seq<char>`, so it agrees with the source only on text where the two coincide, such as ASCII.
- A handler is a total function from parameters to a result. Its side effects, and the optional parameter dictionary it is called with, are not modelled.

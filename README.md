# Saber client bootstrap: scroll rule, lazy-visit guard, transition split, page links

This project is a Dafny model of the logic inside Saber's client-side
application factory (`packages/saber/vue-renderer/app/create-app.js`). The
factory is mostly wiring for Vue, vue-router and vue-meta. It also contains
four small pieces of logic of its own, and those are what is modelled here:

- **Scroll restoration** (`scroll.dfy`, module `Scroll`). The router's
  `scrollBehavior` callback: a saved position wins; otherwise a hash scrolls
  to the element it names; otherwise the window goes to `{x: 0, y: 0}`.
- **Lazy-visit guard** (`lazy_guard.dfy`, module `LazyGuard`). In lazy mode,
  a `beforeEach`/`afterEach` pair tracks whether a page has been shown and
  which paths are visited. Once a page is shown, the first navigation to a
  new path is cancelled, the path is marked visited, and a visit request is
  sent. The state is the pure `GuardState` with the functions `BeforeEach`
  and `AfterEach`. The closure is the class `VisitTracker`, whose methods are
  proved against those functions. Lemmas state what holds over any sequence
  of callbacks.
- **Transition split** (`kebab.dfy` and `transition.dfy`, modules `Kebab` and
  `Transition`). `render` copies the transition descriptor. Callback-valued
  props move into `listeners` under a kebab-cased key; every other prop stays
  a prop. The key rewrite changes only the first lower-to-upper boundary,
  because the regular expression has no `g` flag. A JavaScript object is
  modelled as an ordered key/value list with unique keys. The class `Root`
  holds the `transition` field; its `Render` loop is proved against the
  functions `Props` and `Listeners`.
- **Page links** (`posix_path.dfy` and `page_link.dfy`, modules `PosixPath`
  and `PageLink`). `getPageLink` resolves a link against the directory of the
  current page's source file. It then returns the path of the first route
  built from the resulting file, plus any extra parameters. If no route
  matches, it returns the resolved path. `dirname` and `join` follow the
  POSIX semantics of Node's `path` module: `.` and empty segments are dropped,
  and `..` cancels the segment before it.

`wrappers.dfy` holds the `Option` and `Result` types.

## Model

| member | source | states |
|---|---|---|
| `Scroll.ScrollBehavior` | packages/saber/vue-renderer/app/create-app.js:43-53 | A saved position is returned unchanged. Otherwise a non-empty hash gives `{selector: hash}`. Otherwise the result is the origin `{x:0, y:0}`. |
| `Scroll.SavedPositionWins` | packages/saber/vue-renderer/app/create-app.js:44-46 | With a saved position, the result is that position whatever the target's hash and whatever page the navigation starts from. |
| `Scroll.IgnoresFrom` | packages/saber/vue-renderer/app/create-app.js:43 | The page the navigation starts from never affects the result. |
| `Scroll.SelectorExactlyForHash` | packages/saber/vue-renderer/app/create-app.js:47-51 | A selector is returned if and only if nothing is saved and the target has a hash; the selector is that hash. |
| `Scroll.OriginExactlyWhenNothingElse` | packages/saber/vue-renderer/app/create-app.js:44-52 | The origin is returned if and only if nothing is saved and there is no hash, or the saved position is itself the origin. |
| `LazyGuard.VisitRequest` | packages/saber/vue-renderer/app/create-app.js:67 | The request is the endpoint `/_saber/visit-page?route=` followed by the path, which can be read back from it. |
| `LazyGuard.VisitRequestInjective` | packages/saber/vue-renderer/app/create-app.js:67 | Two paths give the same request only if they are equal. |
| `LazyGuard.BeforeEach` | packages/saber/vue-renderer/app/create-app.js:61-68 | The `beforeEach` callback never changes `hasPrevPage`. It only adds to the visited set and the log, and adds at most one request. Once a page has been shown, the path is visited afterwards. `AllowedExactly` and `CancelsFirstVisit` state the decision. |
| `LazyGuard.AfterEach` | packages/saber/vue-renderer/app/create-app.js:70-72 | The `afterEach` callback sets `hasPrevPage` and leaves the visited set and the log alone. |
| `LazyGuard.Navigate` | packages/saber/vue-renderer/app/create-app.js:61-72 | A navigation makes the guard's decision, and changes the visited set and the request log exactly as the guard does. Afterwards a page has been shown exactly when one had been before or the navigation was allowed. |
| `LazyGuard.AllowedExactly` | packages/saber/vue-renderer/app/create-app.js:62 | A navigation is allowed if and only if no page has been shown yet or the path is already visited. An allowed navigation leaves the state unchanged. |
| `LazyGuard.AllowedBeforeFirstPage` | packages/saber/vue-renderer/app/create-app.js:58-62 | While `hasPrevPage` is false, every navigation is allowed and neither the visited set nor the request log changes. |
| `LazyGuard.CancelsFirstVisit` | packages/saber/vue-renderer/app/create-app.js:62-67 | After a page is shown, a navigation to an unvisited path is cancelled. The path joins the visited set, and exactly one request `'/_saber/visit-page?route=' + path` is appended to the log. |
| `LazyGuard.ApplyConsistent` | packages/saber/vue-renderer/app/create-app.js:61-72 | Both callbacks preserve the guard invariant. Nothing is visited or logged before a page is shown, the log holds only visit requests with no duplicates, and a path is visited exactly when its request is in the log. |
| `LazyGuard.RunConsistent` | packages/saber/vue-renderer/app/create-app.js:57-73 | The invariant holds after any sequence of the two callbacks. |
| `LazyGuard.ReportedAtMostOnce` | packages/saber/vue-renderer/app/create-app.js:58-67 | From start-up, no path is ever reported to the server twice, and the reported paths are exactly the visited ones. |
| `LazyGuard.RunMonotone` | packages/saber/vue-renderer/app/create-app.js:62-72 | Along any run, `hasPrevPage` once true stays true, the visited set only grows, and the request log is only appended to. |
| `LazyGuard.RevisitAllowed` | packages/saber/vue-renderer/app/create-app.js:62-66 | Once a path is visited, every later navigation to it is allowed and changes nothing. |
| `LazyGuard.VisitScenario` | packages/saber/vue-renderer/app/create-app.js:57-73 | From start-up: `/a` is allowed and a page is shown. `/b` is then cancelled, visited and reported once. `/b` again is then allowed. |
| `LazyGuard.VisitTracker.constructor` | packages/saber/vue-renderer/app/create-app.js:58-59 | The closure starts with `hasPrevPage` false, nothing visited, nothing requested. |
| `LazyGuard.VisitTracker.OnBeforeEach` | packages/saber/vue-renderer/app/create-app.js:61-68 | The in-place `beforeEach` returns the decision and produces the new state that `BeforeEach` gives. It keeps the invariant. |
| `LazyGuard.VisitTracker.OnAfterEach` | packages/saber/vue-renderer/app/create-app.js:70-72 | The in-place `afterEach` sets `hasPrevPage` and changes nothing else. |
| `Kebab.FirstBoundaryFrom` | packages/saber/vue-renderer/app/create-app.js:101 | The search for `([a-z])([A-Z])` returns the leftmost boundary at or after the start, and none if there is none. |
| `Kebab.KebabKey` | packages/saber/vue-renderer/app/create-app.js:100-103 | The key is returned unchanged exactly when the search finds no boundary. Otherwise it grows by exactly one character, the dash. `KebabKeyAtFirstBoundary` says where the change is. |
| `Kebab.KebabKeyWithoutBoundary` | packages/saber/vue-renderer/app/create-app.js:100-103 | A key is left unchanged if and only if it has no lower-to-upper boundary. |
| `Kebab.KebabKeyAtFirstBoundary` | packages/saber/vue-renderer/app/create-app.js:100-103 | At the first boundary, the rewrite inserts `-` and lower-cases the capital; everything else stays in place. Re-capitalising and dropping the dash recovers the key. |
| `Kebab.LaterBoundariesKept` | packages/saber/vue-renderer/app/create-app.js:100-103 | Every boundary after the first is still a boundary of the result, so only the first one is rewritten. |
| `Kebab.KebabKeyBeforeEnter` | packages/saber/vue-renderer/app/create-app.js:100-103 | `beforeEnter` becomes `before-enter`. |
| `Kebab.KebabKeyFooBarBaz` | packages/saber/vue-renderer/app/create-app.js:100-103 | `fooBarBaz` becomes `foo-barBaz`: the second boundary is left as it is. |
| `Kebab.KebabAllFooBarBaz` | packages/saber/vue-renderer/app/create-app.js:100-103 | A global replace would instead give `foo-bar-baz`. |
| `Kebab.KebabKeyIsGlobalIffOneBoundary` | packages/saber/vue-renderer/app/create-app.js:100-103 | The single rewrite equals the every-boundary rewrite if and only if the key has at most one boundary. |
| `Transition.KeysAt` | packages/saber/vue-renderer/app/create-app.js:98 | `Object.keys` lists each property's key, in property order: the `i`-th key is that of the `i`-th property. |
| `Transition.Keys` | packages/saber/vue-renderer/app/create-app.js:98 | `Object.keys` gives one key per property. `KeysAt` gives the order. |
| `Transition.Lookup` | packages/saber/vue-renderer/app/create-app.js:99 | A read gives a value exactly when the key is present, and that key/value pair is one of the object's properties. |
| `Transition.Put` | packages/saber/vue-renderer/app/create-app.js:104 | `listeners[key] = v` grows the object by one property exactly when the key was new. |
| `Transition.PutLookup` | packages/saber/vue-renderer/app/create-app.js:104 | After `listeners[key] = v`, the key reads `v` and every other key reads as before. |
| `Transition.PutMembers` | packages/saber/vue-renderer/app/create-app.js:104 | Assignment adds no property other than the one assigned. |
| `Transition.PutUnique` | packages/saber/vue-renderer/app/create-app.js:104 | Assignment keeps an object's keys unique. |
| `Transition.DeleteMembers` | packages/saber/vue-renderer/app/create-app.js:105 | `delete d[k]` removes the property `k` and keeps every other property. |
| `Transition.Delete` | packages/saber/vue-renderer/app/create-app.js:105 | `delete d[k]` never adds properties. `DeleteMembers` states which ones remain. |
| `Transition.Own` | packages/saber/vue-renderer/app/create-app.js:96 | `Object.assign({}, t)` copies a null descriptor to the empty object and an object to its own properties. |
| `Transition.Listeners` | packages/saber/vue-renderer/app/create-app.js:97-106 | The listeners object has unique keys. |
| `Transition.Props` | packages/saber/vue-renderer/app/create-app.js:96-107 | The props never outnumber the descriptor's properties. `PropsMembers`, `PropsUnique` and `PropsLookup` state which remain. |
| `Transition.PropsMembers` | packages/saber/vue-renderer/app/create-app.js:96-107 | The props are exactly the descriptor's entries whose value is not a function. |
| `Transition.PropsUnique` | packages/saber/vue-renderer/app/create-app.js:96-107 | The props keep unique keys. |
| `Transition.PropsLookup` | packages/saber/vue-renderer/app/create-app.js:96-107 | A non-function property keeps its value among the props. A function property is absent from them, and so is any missing key. |
| `Transition.ListenersMembers` | packages/saber/vue-renderer/app/create-app.js:99-104 | Every listener is one of the descriptor's callbacks, bound under the kebab form of that callback's key. |
| `Transition.ListenersLookup` | packages/saber/vue-renderer/app/create-app.js:99-104 | If no two callback keys kebab-case alike, every callback `k: f` appears as the listener `KebabKey(k): f`. |
| `Transition.SplitSizes` | packages/saber/vue-renderer/app/create-app.js:96-107 | If no two callback keys kebab-case alike, the props and listeners together have as many entries as the descriptor, so nothing is lost or duplicated. |
| `Transition.ListenerClashExample` | packages/saber/vue-renderer/app/create-app.js:104 | Callbacks under `aB` and `a-b` collapse to one listener `a-b`, and the later one wins. |
| `Transition.FadeSplit` | packages/saber/vue-renderer/app/create-app.js:95-107 | `{name: 'fade', beforeEnter: f}` splits into the props `{name: 'fade'}` and the listeners `{'before-enter': f}`. |
| `Transition.Root.constructor` | packages/saber/vue-renderer/app/create-app.js:90-94 | The instance starts with `transition` null. |
| `Transition.Root.SetTransition` | packages/saber/vue-renderer/app/create-app.js:120-122 | The descriptor is replaced wholesale. |
| `Transition.Root.Render` | packages/saber/vue-renderer/app/create-app.js:95-107 | The copy-and-delete loop returns `Props` and `Listeners` of the descriptor (null counts as `{}`). It has no frame, so `this.transition` is not changed. |
| `Transition.RenderTwice` | packages/saber/vue-renderer/app/create-app.js:95-122 | After `setTransition({name: 'fade', beforeEnter: f})`, two renders give the same props `{name: 'fade'}` and listeners `{'before-enter': f}`, and the descriptor still holds its callback. |
| `PosixPath.Dirname` | packages/saber/vue-renderer/app/create-app.js:125 | `dirname` never returns the empty string. It is absolute exactly when its argument is. It is `.`, `/`, `//` or a proper prefix of the argument. |
| `PosixPath.DirnameOfPlain` | packages/saber/vue-renderer/app/create-app.js:125 | A file name without a separator lies in the directory `.`. |
| `PosixPath.Normalize` | packages/saber/vue-renderer/app/create-app.js:125 | Normalisation never gives the empty string, and keeps a path absolute exactly when it was. `NormalizeIdempotent` states that its result is in normal form. |
| `PosixPath.Join` | packages/saber/vue-renderer/app/create-app.js:125 | `join` never gives the empty string. The result is absolute exactly when its first non-empty argument is. |
| `PosixPath.DirnameOfChild` | packages/saber/vue-renderer/app/create-app.js:125 | The directory of `dir/name` is `dir`. |
| `PosixPath.SplitJoin` | packages/saber/vue-renderer/app/create-app.js:125 | Splitting on `/` undoes joining with `/` for segments without separators. |
| `PosixPath.NormFromNormal` | packages/saber/vue-renderer/app/create-app.js:125 | The normalising scan yields only plain segments, plus leading `..` segments for a relative path. |
| `PosixPath.NormalizeIdempotent` | packages/saber/vue-renderer/app/create-app.js:125 | Normalising a normalised path gives it back, so `join`'s result is in normal form. |
| `PosixPath.JoinPlainName` | packages/saber/vue-renderer/app/create-app.js:125 | Joining a normalised relative directory with a plain file name puts one `/` between them. |
| `PosixPath.JoinParentName` | packages/saber/vue-renderer/app/create-app.js:125 | Joining `dir/sub` with `../name` gives `dir/name`. |
| `PosixPath.JoinDotName` | packages/saber/vue-renderer/app/create-app.js:125 | Joining `.` with a plain name gives the name. |
| `PosixPath.JoinDotSlash` | packages/saber/vue-renderer/app/create-app.js:125 | Joining any directory with `./name` gives the same as joining it with `name`. |
| `PageLink.FindPage` | packages/saber/vue-renderer/app/create-app.js:126-134 | The scan returns the first route in table order whose non-empty `__relative` equals the path, or none if no route has it. |
| `PageLink.Matches` | packages/saber/vue-renderer/app/create-app.js:127-131 | A route matches a path exactly when its `__relative` is present, non-empty and equal to the path. |
| `PageLink.Resolve` | packages/saber/vue-renderer/app/create-app.js:125 | The resolved path is never empty, and is absolute exactly when the current page's file path is. |
| `PageLink.GetPageLink` | packages/saber/vue-renderer/app/create-app.js:124-137 | The call fails exactly when the current route has no `__relative`. `ResultIsPageOrPath`, `LinksToFirstMatch` and `FallsBackToResolvedPath` state what it returns otherwise. |
| `PageLink.ThrowsWithoutCurrentRelative` | packages/saber/vue-renderer/app/create-app.js:125 | Without a current `__relative`, `dirname` throws and so does the call. |
| `PageLink.LinksToFirstMatch` | packages/saber/vue-renderer/app/create-app.js:126-133 | If route `i` is the first whose source file is the resolved path, the link is `routes[i].path` followed by `extraParams`, or by nothing when that is absent. |
| `PageLink.FallsBackToResolvedPath` | packages/saber/vue-renderer/app/create-app.js:135-136 | If no route is built from the resolved path, the link is the resolved path itself. |
| `PageLink.ResultIsPageOrPath` | packages/saber/vue-renderer/app/create-app.js:124-137 | The call always succeeds when the current `__relative` is present. The result is either a matching route's path plus the suffix, or the resolved path. |
| `PageLink.LinksToOwnPage` | packages/saber/vue-renderer/app/create-app.js:126-133 | If source files are unique in the table, resolving to a page's own file links to that page's path plus the suffix. |
| `PageLink.UnlabelledRouteIgnored` | packages/saber/vue-renderer/app/create-app.js:127-131 | A route with a missing or empty `__relative` never matches, so inserting one anywhere in the table changes no link. |
| `PageLink.InsertUnlabelled` | packages/saber/vue-renderer/app/create-app.js:126-134 | Inserting a non-matching route shifts the first match's index but not the route it designates. |
| `PageLink.SiblingLink` | packages/saber/vue-renderer/app/create-app.js:124-137 | From page `dir/file`, a link `name` resolves to `dir/name`, and gives the page built from that file if there is one. |
| `PageLink.TopLevelSibling` | packages/saber/vue-renderer/app/create-app.js:125 | For a top-level page such as `about.md`, the directory is `.`, and a plain link name resolves to itself. |
| `PageLink.TopLevelSiblingLink` | packages/saber/vue-renderer/app/create-app.js:124-137 | From a top-level page, a plain link name gives the page built from that file, or the name itself if there is none. |
| `PageLink.DotSlashLink` | packages/saber/vue-renderer/app/create-app.js:125 | A link written `./name` resolves the same as `name`. |
| `PageLink.ParentLink` | packages/saber/vue-renderer/app/create-app.js:125 | From page `dir/sub/file`, a link `../name` resolves to `dir/name`. |

## Left out

- Plugin registration (`Vue.use`, `Vue.component`, the `$saber` mixin, vue-meta options): framework configuration with no behaviour of its own.
- Router construction, route matching and history handling belong to vue-router, which is not part of this model. Only the `scrollBehavior` callback and the two guard callbacks are modelled. The lemmas over `Run` hold for any order of the two callbacks. So they hold whether or not the router calls `afterEach` after a cancelled navigation. `Navigate` models the case where it does not.
- The build flag `__LAZY__`: the guard model is the lazy build. With the flag off, no guard is installed.
- The network side of `fetch`: each request is appended to a log and never sent. Its failure is never observed, as in the code.
- `visitedRoutes` is a plain object that only ever maps a path to `true`, so it is modelled as a set of paths. Inherited properties such as `constructor` are ignored. Router paths start with `/`, so no path can name one.
- vnode construction with `h(...)` and the `<transition>`/`<router-view>` output are left out. Only the props/listeners split that feeds them is modelled.
- Hot-module replacement of routes and layouts, and `location.reload()`: development-time plumbing.
- `injectConfig`, `extendBrowserApi`, the imported `setTransition` helper and `new Vue(rootOptions)`: these hooks' code is not part of this model. The instance method `setTransition` is modelled.
- `Object.keys` lists integer-like keys first. The model keeps insertion order, which agrees for transition prop names, since none are integer-like.
- `Transition.Root.SetTransition`: accepts only null or an object. The source accepts any value. `Object.assign` would spread a string's characters into props.
- `Transition.Value`: a value is modelled only as far as `typeof v === 'function'` needs. Callbacks are named by an identifier instead of being closures.
- `Transition.ListenersLookup`: stated for descriptors whose callback keys do not clash after kebab-casing. On a clash the later callback wins, as `Transition.ListenerClashExample` shows.
- `PosixPath.Dirname`: follows Node's POSIX `dirname`. The browser bundle's `path` polyfill is not part of this model and may differ on unusual inputs such as repeated separators.
- `PageLink.GetPageLink`: a current route without `__relative` is modelled as an error, because Node's `dirname` rejects a non-string argument. A polyfill that does not check its argument would instead resolve the link against `.`.
- `PosixPath.NormalizeIdempotent`: `join` and `normalize` are stated as POSIX normalisation: `.` and empty segments dropped, and `..` cancelling a preceding plain segment, kept above the start of a relative path and dropped at the root. They are proved on that model, not on Node's implementation.
- `Scroll.ScrollBehavior`: coordinates are integers. Browsers may report fractional scroll offsets.

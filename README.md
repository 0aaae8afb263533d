# Dependency grouping and uniqueness in the ArchUnit HTML visualisation

The ArchUnit HTML report draws packages and classes as nested circles and
the dependencies between them as edges. Many elementary class-to-class
dependencies are collapsed into one grouped dependency per pair of
currently visible nodes. This project models that engine in Dafny:

- `nodes.dfy` (module `Nodes`): a node as the engine sees it, meaning its
  full name and whether it is a package. The two geometric questions the
  engine asks of a pair of nodes (`liesInFrontOf`, `overlapsWith`) are
  relations passed in as parameters.
- `grouping.dfy` (module `Grouping`): the pure parts. These are
  `joinStrings`, `getSingleStyledDependencyType`, the style computed by
  `byGroupingDependencies`, and the `argMax` reduce. Beside them sit the
  lemmas that state what these functions guarantee.
- `dependency.dfy` (module `Dependency`): the stateful parts, as classes.
  - `ElementaryDependency` holds the filter-result map and the violation flag.
  - `GroupedDependency` holds type and violation, visibility, the container
    end node with its "changed" flag, and the calls made on its view.
  - `DependencyCache` holds the map from `origin-target` keys to grouped
    dependencies, with `getOrCreateUniqueDependency` and
    `byGroupingDependencies`.
  - `createElementaryDependency` and `shiftElementaryDependency` build fresh
    records.

The module-level sets of coloured and dashed dependency types are filled
elsewhere in the application. Here they are parameters (`colored`, `dashed`).
The view of a grouped dependency is represented only by the log of calls made
on it (`viewCalls`). The start and end point geometry is represented only by
the end node the relative points were last computed from
(`relativePointsAnchor`).

Three points about the code that a reader might not expect:

- A new grouped dependency's container end node starts as the end node in the
  **foreground** (dependency.js:78), not the one in the background.
- The grouped-dependency constructor passes six arguments to the five-parameter
  elementary constructor (dependency.js:77). A freshly built grouped dependency
  therefore has an empty description and a false (in the source: empty-string)
  violation flag. The flag only becomes right because `withTypeAndViolation`
  runs right after construction (dependency.js:23).
  `GetOrCreateUniqueDependency` proves that the result carries the passed flag
  anyway.
- Nothing in dependency.js rejects a self-loop, so the model accepts any pair
  of nodes.

## Model

| member | source | states |
|---|---|---|
| `Grouping.NonEmpty` | archunit-html-visualization/src/main/app/graph/dependencies/dependency.js:71 | the filter keeps exactly the non-empty parts, each as often as it occurs (multiset), and never yields an empty one |
| `Grouping.NonEmptyOfConcat` | archunit-html-visualization/src/main/app/graph/dependencies/dependency.js:71 | the filter works part by part, so it keeps the order and the repeats of its input |
| `Grouping.JoinStrings` | archunit-html-visualization/src/main/app/graph/dependencies/dependency.js:71 | the joined string is empty iff every part is empty; its other promises are `JoinStringsOfTwo` and `JoinStringsRoundTrip` |
| `Grouping.JoinStringsOfTwo` | archunit-html-visualization/src/main/app/graph/dependencies/dependency.js:71 | joining two tokens: two empties give `""`, one empty gives the other token, two non-empties give `a + sep + b` |
| `Grouping.JoinStringsRoundTrip` | archunit-html-visualization/src/main/app/graph/dependencies/dependency.js:71 | if no part contains the separator character, splitting the joined string into class tokens gives back exactly the non-empty parts, in order |
| `Grouping.Distinct` | archunit-html-visualization/src/main/app/graph/dependencies/dependency.js:184 | the set of types has no duplicates and holds exactly the values of the input |
| `Grouping.KeepStyled` | archunit-html-visualization/src/main/app/graph/dependencies/dependency.js:185 | keeps exactly the styled values and keeps them duplicate-free |
| `Grouping.SingleStyledDependencyType` | archunit-html-visualization/src/main/app/graph/dependencies/dependency.js:183-193 | the result is `""`, the mixed marker, or a styled type that occurs among the dependencies; the full rule is `SingleStyledRule` |
| `Grouping.SingleStyledRule` | archunit-html-visualization/src/main/app/graph/dependencies/dependency.js:183-193 | with no distinct styled type present the result is `""`; with exactly one it is that type; with two or more it is the mixed marker; duplicates count once |
| `Grouping.SingleStyleIsShared` | archunit-html-visualization/src/main/app/graph/dependencies/dependency.js:183-193 | a result other than `""` and the mixed marker is a styled type that every styled type present equals |
| `Grouping.GroupedDependencyType` | archunit-html-visualization/src/main/app/graph/dependencies/dependency.js:197-208 | definition of the type `byGroupingDependencies` passes on; its promises are `GroupedTypeIsPlainIff` and `GroupedTypeTokens` |
| `Grouping.StyledGroupingExists` | archunit-html-visualization/src/main/app/graph/dependencies/dependency.js:201-205 | between two non-packages a single coloured type and nothing dashed gives that type as the grouped type |
| `Grouping.GroupedTypeIsPlainIff` | archunit-html-visualization/src/main/app/graph/dependencies/dependency.js:197-208 | the grouped type is `""` iff an end is a package or no type is coloured and none is dashed (if `""` is not a style) |
| `Grouping.GroupedTypeTokens` | archunit-html-visualization/src/main/app/graph/dependencies/dependency.js:201-205 | between non-packages, the class tokens of the grouped type are the colour token followed by the dash token, each present only if non-empty |
| `Grouping.Reduce` | archunit-html-visualization/src/main/app/graph/dependencies/dependency.js:73 | the reduce ends on the seed or on an element of the array |
| `Grouping.ArgMax` | archunit-html-visualization/src/main/app/graph/dependencies/dependency.js:73 | `undefined` exactly for an empty array, otherwise an element of the array |
| `Grouping.ArgMaxOfPair` | archunit-html-visualization/src/main/app/graph/dependencies/dependency.js:73 | on a pair, the seed's comparison with itself is harmless: the second wins exactly when it beats the first |
| `Grouping.ArgMaxIsMaximal` | archunit-html-visualization/src/main/app/graph/dependencies/dependency.js:73 | under a strict order, no element beats the returned one |
| `Dependency.CacheKey` | archunit-html-visualization/src/main/app/graph/dependencies/dependency.js:18 | definition of the key `origin-target`; its promise is `CacheKeyInjective` |
| `Dependency.CacheKeyInjective` | archunit-html-visualization/src/main/app/graph/dependencies/dependency.js:18 | if origin names contain no `-`, two pairs share a key iff they are the same pair |
| `Dependency.CacheKeyCollision` | archunit-html-visualization/src/main/app/graph/dependencies/dependency.js:18 | without that restriction, `("a-b","c")` and `("a","b-c")` share a key |
| `Dependency.AllTrueAfterUpdate` | archunit-html-visualization/src/main/app/graph/dependencies/dependency.js:46-52 | after storing one filter result, all filters pass iff the new result and all other stored results are true |
| `Dependency.ElementaryDependency.constructor` | archunit-html-visualization/src/main/app/graph/dependencies/dependency.js:27-36 | the record holds the end nodes, their full names as `from`/`to`, type, description and flag, and no filter results |
| `Dependency.ElementaryDependency.SetMatchesFilter` | archunit-html-visualization/src/main/app/graph/dependencies/dependency.js:46-48 | stores one filter result and leaves the others alone; reading it back gives the stored value |
| `Dependency.ElementaryDependency.MatchesFilter` | archunit-html-visualization/src/main/app/graph/dependencies/dependency.js:54-56 | definition: the map lookup, `undefined` (`None`) for a key never set; what it reads back is stated by `SetMatchesFilter` and the constructor's empty map |
| `Dependency.ElementaryDependency.MatchesAllFilters` | archunit-html-visualization/src/main/app/graph/dependencies/dependency.js:50-52 | true iff every stored filter result is true, so vacuously true with none stored |
| `Dependency.ElementaryDependency.MarkAsViolation` | archunit-html-visualization/src/main/app/graph/dependencies/dependency.js:62-64 | the flag is set whatever it was |
| `Dependency.ElementaryDependency.UnMarkAsViolation` | archunit-html-visualization/src/main/app/graph/dependencies/dependency.js:66-68 | the flag is cleared whatever it was |
| `Dependency.CreateElementaryDependency` | archunit-html-visualization/src/main/app/graph/dependencies/dependency.js:216-217 | a fresh record with the given ends, type and description that is not a violation |
| `Dependency.ShiftElementaryDependency` | archunit-html-visualization/src/main/app/graph/dependencies/dependency.js:212-214 | a fresh record between the new ends with `from`/`to` their full names, empty type and description, and the original's violation flag; the original is not modified |
| `Dependency.SomeViolation` | archunit-html-visualization/src/main/app/graph/dependencies/dependency.js:199 | definition: `dependencies.some(d => d.isViolation)`; used by `ByGroupingDependencies` |
| `Dependency.TypesOf` | archunit-html-visualization/src/main/app/graph/dependencies/dependency.js:184 | definition: `dependencies.map(d => d.type)`; used by `ByGroupingDependencies` |
| `Dependency.GroupedDependency.constructor` | archunit-html-visualization/src/main/app/graph/dependencies/dependency.js:76-90 | a new grouped dependency has an empty description, a false violation flag whatever was passed, the foreground end node as container end node, is visible, and has no pending container change |
| `Dependency.GroupedDependency.WithTypeAndViolation` | archunit-html-visualization/src/main/app/graph/dependencies/dependency.js:128-132 | type and flag are overwritten in place and the same object is returned |
| `Dependency.GroupedDependency.Key` | archunit-html-visualization/src/main/app/graph/dependencies/dependency.js:178-180 | definition: `origin-target`, the dependency's `toString`; the cache keeps each entry under it (`DependencyCache.Valid`) |
| `Dependency.GroupedDependency.CalcEndNodeInForeground` | archunit-html-visualization/src/main/app/graph/dependencies/dependency.js:134-136 | the target if it lies in front of the origin, else the origin |
| `Dependency.GroupedDependency.CalcEndNodeInBackground` | archunit-html-visualization/src/main/app/graph/dependencies/dependency.js:138-140 | the origin if the target lies in front of it, else the target |
| `Dependency.GroupedDependency.EndNodesAreOpposite` | archunit-html-visualization/src/main/app/graph/dependencies/dependency.js:134-140 | for two different end nodes, foreground and background are the two ends, one each |
| `Dependency.GroupedDependency.HasDetailedDescription` | archunit-html-visualization/src/main/app/graph/dependencies/dependency.js:142-144 | true iff some input makes grouping give a styled (non-empty) type, which happens exactly when neither end is a package |
| `Dependency.GroupedDependency.OnContainerEndNodeApplied` | archunit-html-visualization/src/main/app/graph/dependencies/dependency.js:105-107 | the changed flag is cleared |
| `Dependency.GroupedDependency.SetContainerEndNode` | archunit-html-visualization/src/main/app/graph/dependencies/dependency.js:113-119 | assigning the node already held changes nothing; another node is stored, the flag set and the relative points recomputed from it |
| `Dependency.GroupedDependency.JumpToPosition` | archunit-html-visualization/src/main/app/graph/dependencies/dependency.js:146-149 | the points are recomputed from the current container end node and the view is asked to jump and refresh |
| `Dependency.GroupedDependency.OnNodesFocused` | archunit-html-visualization/src/main/app/graph/dependencies/dependency.js:121-126 | with a pending change the view is told of it and the dependency jumps; otherwise nothing happens; the flag is not cleared |
| `Dependency.GroupedDependency.Hide` | archunit-html-visualization/src/main/app/graph/dependencies/dependency.js:156-159 | invisible afterwards whatever before, and the view is refreshed once |
| `Dependency.GroupedDependency.Show` | archunit-html-visualization/src/main/app/graph/dependencies/dependency.js:161-164 | visible afterwards whatever before, and the view is refreshed once |
| `Dependency.GroupedDependency.IsVisible` | archunit-html-visualization/src/main/app/graph/dependencies/dependency.js:166-168 | definition: reads the visibility flag set by `Hide`, `Show` and `Refresh` |
| `Dependency.GroupedDependency.Refresh` | archunit-html-visualization/src/main/app/graph/dependencies/dependency.js:170-176 | visible afterwards iff the origin does not overlap the target, and the view is refreshed once |
| `Dependency.DependencyCache.constructor` | archunit-html-visualization/src/main/app/graph/dependencies/dependency.js:14 | the cache starts empty |
| `Dependency.DependencyCache.GetOrCreateUniqueDependency` | archunit-html-visualization/src/main/app/graph/dependencies/dependency.js:16-24 | the cache gains at most the one key; a cached object is returned with visibility, share flag, container end node and its flag, anchor and view log unchanged; a new one is fresh in the constructor's initial state with `from`/`to` the requested names; entries under other keys are unchanged; the result carries the call's type and flag |
| `Dependency.DependencyCache.GetOrCreateTwice` | archunit-html-visualization/src/main/app/graph/dependencies/dependency.js:16-24 | two lookups of one pair return the same object, carrying the second call's type and flag |
| `Dependency.DependencyCache.ByGroupingDependencies` | archunit-html-visualization/src/main/app/graph/dependencies/dependency.js:195-210 | the cached dependency for the pair gets the derived type (`""` when an end is a package) and is a violation iff some elementary dependency is one; a reused object keeps its visibility and container state, a new one starts in the initial state; other entries are unchanged |

## Left out

- `recalculatePoint` and `_recalculateRelativePoints` (dependency.js:92-103) compute start and end points with an external geometry function and vectors over floating-point circles. The model keeps only which end node the relative points were last computed from.
- `moveToPosition` (dependency.js:151-154) is an animated transition whose promise later calls `refresh`. It is asynchronous rendering; `Refresh` is modelled on its own.
- The construction of the view and the detailed view, and the mouse-over/out wiring (dependency.js:79-85), are rendering. Calls on the view are recorded in `viewCalls` only.
- `liesInFrontOf` and `overlapsWith` belong to the node tree, which is not part of this model. They are arbitrary relations passed in.
- Node identity (`!==` in the container-end-node setter) is value equality on `(fullName, isPackage)`. Full names are unique in the node tree.
- `mustShareNodes` is only initialised in this file. It is set by layout code that is not part of this model.
- `ElementaryDependency.toString` (dependency.js:58-60) only returns the description for display. `GroupedDependency.toString` is `Key`.
- The grouped dependency inherits the filter map of the elementary record, but nothing reads it there. It is not a field of `GroupedDependency`.
- Filter values may be any JavaScript value and are read by truthiness. The model stores booleans.
- `getDefaultDependencyTypes` is the constant `DefaultDependencyTypes`.
- Dependency.DependencyCache.GetOrCreateUniqueDependency: the result's `from`/`to` are stated to equal the requested full names only when no origin name contains `-`. Otherwise two pairs can share a key (see `CacheKeyCollision`), and the source then returns the other pair's object.
- Grouping.ArgMaxIsMaximal: stated only for a strict order. `liesInFrontOf` is not assumed transitive, and for it the exact two-element result (`ArgMaxOfPair`) is what the model uses.

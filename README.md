# react-descendants: the descendant registry, in Dafny

`createDescendantContext` (src/index.tsx) gives a container component a way
to number its children without listing them. The provider owns a registry:
a map from an item id to `{index, props}` plus an index counter. On every
render the provider calls `reset`, then each descendant calls `get(id, props)`
with the id `useId` gave it. A new id gets the next index, or -1 when its
props say `hidden: true`. A known id keeps its index and only has its props
replaced. After the render the provider publishes the number of keys in the
map as the total. Four hooks read the index and the total: the lenient ones
return `null` outside a provider, the strict ones throw there.

The project has these modules:

- `Wrappers` (wrappers.dfy) defines `Option` and `Result`.
- `Descendants` (descendants.dfy) holds the registry.
  - `State` is the registry as a value, and `Register` is one `get` on it.
  - `Invariant` is what holds between calls. Visible indices are unique and
    exactly 0 .. counter - 1, hidden ones are -1, and the counter counts the
    visible records.
  - `Run` is a pass of `get` calls in order.
  - The class `DescendantRegistry` is the mutable registry the provider
    holds. Its `Reset` and `Get` methods update its fields in place and are
    proved against `ResetState` and `Register`.
- `Provider` (provider.dfy) is the published total and what it counts.
- `Accessors` (accessors.dfy) holds the strict and lenient hooks.
- `Scenarios` (scenarios.dfy) holds concrete registration passes.

Props are `Option<Props<P>>`. `None` is a `null` props argument. `hidden` is
an `Option<bool>`, so an absent flag is `None`. Only `Some(true)` hides,
which matches `props ? props.hidden : false` read as a truth value. The
rest of `TProps` is an opaque payload `P` that the registry only stores.
The code guards against a `null` props argument: a `null` props does not
hide the item.
A context that may be missing is an `Option`: `None` stands for the `null`
default of `React.createContext`.

## Model

| member | source | states |
|---|---|---|
| `Descendants.ResetState` | src/index.tsx:28-31 | after `reset` the map is empty and the counter is 0, and the invariant holds |
| `Descendants.ResetIdempotent` | src/index.tsx:28-31 | `reset` twice in a row leaves the same registry as `reset` once |
| `Descendants.IsHidden` | src/index.tsx:34 | only a present props whose `hidden` is `true` hides; a `null` props, an absent flag or `false` does not |
| `Descendants.Register` | src/index.tsx:33-40 | the returned index is the one stored for the id, next to the new props; only that id may be added and no other record changes; a known id keeps its index (even if `hidden` flipped) and the counter; a new hidden id gets -1 and the counter stays; a new visible id gets the old counter and the counter grows by exactly one |
| `Descendants.RegisterPreservesInvariant` | src/index.tsx:33-39 | `get` keeps the invariant: indices are -1 or below the counter, non-negative ones are pairwise distinct, every index below the counter is held, and the counter equals the number of visible records |
| `Descendants.RunPreservesInvariant` | src/index.tsx:33-39 | any sequence of `get` calls keeps the invariant |
| `Descendants.RunKeys` | src/index.tsx:35-36 | after a sequence of `get` calls the map's keys are the old keys plus exactly the ids called |
| `Descendants.IndexFixedWithinEpoch` | src/index.tsx:35-39 | once an id is registered, later calls never change its index, and every later call for it returns that index |
| `Descendants.RepeatedIdSameIndex` | src/index.tsx:35-39 | two calls for the same id in one pass return the same index, the one given at its first registration |
| `Descendants.StoredIndexIsReturned` | src/index.tsx:36-39 | after a pass, each id called is in the map, stored with the index its calls returned |
| `Descendants.RunFreshIndices` | src/index.tsx:34-36 | distinct new ids get, in call order, the counter plus the number of visible ones before them, or -1 when hidden; the counter grows by the number of visible ones |
| `Descendants.EpochIndices` | src/index.tsx:28-36 | after `reset`, distinct ids get 0, 1, 2, ... when visible and -1 when hidden, and the counter ends at the number of visible ones; the same calls after another `reset` give the same indices whatever the registry held before |
| `Descendants.DescendantRegistry.constructor` | src/index.tsx:24-25 | a new registry has an empty map and a zero counter, and satisfies the invariant |
| `Descendants.DescendantRegistry.Reset` | src/index.tsx:28-31 | in place: the map is emptied and the counter set to 0, so the invariant holds |
| `Descendants.DescendantRegistry.Get` | src/index.tsx:33-40 | in place: the new fields and the returned index are exactly what `Register` gives for the old fields, and the invariant is kept |
| `Provider.Total` | src/index.tsx:52 | the total is the number of keys in the map: the visible records plus the hidden ones |
| `Provider.TotalCountsHidden` | src/index.tsx:52 | the published total is the number of visible items (the counter) plus the number of hidden ones |
| `Provider.RegisterTotal` | src/index.tsx:52 | one `get` raises the total by one for a new id and leaves it alone for a known one |
| `Provider.RepeatedGetKeepsTotal` | src/index.tsx:52 | calling `get` again for the same id, with any props, does not change the total |
| `Provider.EpochTotal` | src/index.tsx:46-53 | after `reset` and a pass of `get` calls, the total is the number of distinct ids called, hidden ones included |
| `Provider.EpochTotalDistinct` | src/index.tsx:52 | when no id repeats, that total is the number of calls |
| `Accessors.RequireScope` | src/index.tsx:93-96 | a missing value becomes the missing-provider error; any present value, 0 included, passes through unchanged |
| `Accessors.MaybeDescendantTotal` | src/index.tsx:87-89 | the published total unchanged inside a provider, `None` (`null`) outside one |
| `Accessors.DescendantTotal` | src/index.tsx:91-97 | the strict total fails exactly when the lenient one is `null`, and otherwise returns the same value |
| `Accessors.MaybeDescendant` | src/index.tsx:73-85 | outside a provider the result is `null` (distinct from -1); inside one it is the index `get` returns for the id, and the registry changes as `get` says |
| `Accessors.Descendant` | src/index.tsx:64-71 | the strict index hook fails exactly when there is no provider, and otherwise returns the lenient hook's index with the same registry change |
| `Scenarios.ThreeVisibleIndices` | src/index.tsx:33-40 | A, B, C, none hidden, after `reset`: indices 0, 1, 2 |
| `Scenarios.ThreeVisibleTotal` | src/index.tsx:52 | A, B, C, none hidden: total 3 |
| `Scenarios.HiddenInTheMiddleIndices` | src/index.tsx:33-40 | A, hidden B, C: indices 0, -1, 1 |
| `Scenarios.HiddenInTheMiddleTotal` | src/index.tsx:52 | A, hidden B, C: total 3, counting B |
| `Scenarios.RemovedBetweenPassesIndices` | src/index.tsx:28-40 | a new pass, after `reset`, with only A and C: indices 0, 1 |
| `Scenarios.RemovedBetweenPassesTotal` | src/index.tsx:52 | that pass publishes total 2 |
| `Scenarios.HiddenFlipKeepsIndex` | src/index.tsx:35-39 | A visible, then A hidden in the same pass: both calls return 0 and the total is 1 |

## Left out

- React itself is not modelled: `createContext`, `useContext`, `useRef`, `useState`, `useLayoutEffect`, `useId` and the JSX providers (src/index.tsx:18-21, 45-62, 74-82). A context is an `Option`, and the item id is a string argument.
- Effect timing is not modelled. The total is published one render late by a layout effect, and a change of total triggers a re-render. Both depend on React's commit order. `Run` models one pass as the sequence of `get` calls the descendants make after the provider's `reset`.
- `Accessors.MaybeDescendant`: the hook calls `get` on every render, because the `useState` argument is evaluated eagerly and only its first value becomes state. It calls `get` again in every layout effect. It returns the index held in React state, which can lag one commit behind. The model makes one `get` call and returns its index. Repeated calls within a pass return the same index (`IndexFixedWithinEpoch`).
- The defensive `if (!mapRef.current)` at src/index.tsx:26 is never taken, because `useRef({})` always holds an object. It is omitted.
- The error messages are not modelled. `MissingScope` is the only error.
- `TProps` is generic beyond `hidden`. Its other fields are an opaque payload, and `hidden` is treated as a boolean, as its declared type says. A non-boolean truthy `hidden` is not modelled.
- The map is a plain dictionary. In JavaScript, `mapRef.current[id]` on a `{}` also sees inherited `Object.prototype` members such as `constructor`, so such an id would never be inserted. Ids come from `useId` and never take those names, so the model ignores this.
- Indices and the counter are unbounded integers. JavaScript numbers lose precision above 2^53, which is not modelled.

# Pokedex list logic, modelled in Dafny

The Pokedex viewer is a single React component (`src/App.tsx`). It fetches a
page of creature records, shows them as a catalog that can be filtered by
name and by type, and lets the user "capture" records into a list that is
saved in browser storage and can later be "released". This project models
the list logic inside that component, with the UI and network code taken
away:

- **Records** (`records.dfy`): the validated record `Pokemon(id, name, image, types)`,
  where `image` is `sprites.front_default` and `types` are the names under
  `types[].type.name`. It also holds the `some(c => c.id === id)` membership
  test (`AnyWithId`) and the "distinct ids" invariant.
- **Type options** (`type_options.dfy`): the drop-down options. The code
  flattens all type names and deduplicates them with a `reduce` whose
  accumulator is pushed to in place. This is modelled as a loop method
  (`DeriveTypeOptions`) proved equal to a reference function (`Dedup`). The
  lemmas show that `Dedup` has no duplicates, holds exactly the names of the
  catalog, follows first-occurrence order, and is the only list with those
  three properties.
- **Catalog filter** (`catalog_filter.dfy`): the visible catalog is two
  `filter` calls in a row. The first is a case-insensitive name-substring test
  and the second an exact type-membership test. An empty criterion lets every
  record through.
- **Capture store** (`capture_store.dfy`): the pure updaters `CaptureInto`
  (append if the id is absent) and `Released` (remove by id). Lemmas cover
  them, and a replay of any sequence of user actions keeps ids distinct. The
  class `Store` has the `captured` list and a `persisted` field that stands
  for the value stored under `"savedpokemons"`. It also has a ghost count of
  storage writes, so the model shows that a capture which changes nothing
  writes nothing, while a release always writes.
- **Scenario** (`scenario.dfy`): a two-record example. Selecting "fire"
  shows only the fire record. One client method derives the type options and
  finds "fire" among them; another captures and releases a record through
  `Store`.
- `seqs.dfy` holds the generic helpers: an order-preserving `Filter` (the
  model of `Array.prototype.filter`), the subsequence relation, "no
  duplicates" and "first index".

## Model

| member | source | states |
|---|---|---|
| Records.AnyWithId | src/App.tsx:156-158 | the captured indicator for an id is true exactly when some record of the list has that id |
| TypeOptions.TypeNames | src/App.tsx:127-128 | the flattened names are exactly the type names of some catalog record |
| TypeOptions.Dedup | src/App.tsx:129-134 | the accumulated options have no duplicates and hold exactly the names seen |
| TypeOptions.DedupKeepsFirstSeenOrder | src/App.tsx:129-134 | the options are ordered by the position where each name first occurs |
| TypeOptions.DedupIsUnique | src/App.tsx:129-134 | any duplicate-free list with the same names in first-seen order equals the accumulated options |
| TypeOptions.DeriveTypeOptions | src/App.tsx:127-134 | the push-if-not-included loop yields the reference deduplication, which has no duplicates, holds every type name of every record and nothing else, and is in first-seen order |
| Seqs.Filter | src/App.tsx:136-148 | `filter` returns no more elements than its input, only elements of the input that pass the test, and every element that passes |
| Seqs.FilterIsSubsequence | src/App.tsx:136-148 | the result of `filter` is an order-preserving subsequence of its input |
| Seqs.FilterMultiplicity | src/App.tsx:136-148 | each value occurs in the result of `filter` as often as in the input when it passes the test, and not at all otherwise |
| CatalogFilter.LowerChar | src/App.tsx:141 | folding never yields an ASCII capital, maps each capital to its small letter and leaves every other character alone |
| CatalogFilter.Lower | src/App.tsx:141 | `toLowerCase` keeps the length, turns each ASCII capital into its own small letter (so no capital is left), and leaves every other character where it was |
| CatalogFilter.Includes | src/App.tsx:141 | `includes` holds exactly when the needle occurs at some position of the haystack |
| CatalogFilter.NameMatchIgnoresCase | src/App.tsx:141 | the name test gives the same answer for the typed text and its lower-case form |
| CatalogFilter.VisibleIsOneFilter | src/App.tsx:136-148 | the name filter followed by the type filter equals one filter by both tests |
| CatalogFilter.VisibleIsFilteredSubsequence | src/App.tsx:136-148 | the visible catalog is an order-preserving subsequence of the catalog; a record is visible exactly when it is in the catalog and passes both tests, as often as it occurs there |
| CatalogFilter.VisibleNameOccurs | src/App.tsx:138-141 | with a name typed, every visible record's folded name contains the folded text at some position |
| CatalogFilter.VisibleUnfiltered | src/App.tsx:136-148 | with an empty name and "All types" the visible catalog is the whole catalog, in order |
| CatalogFilter.VisibleUnknownType | src/App.tsx:143-148 | selecting a type that no catalog record has leaves nothing visible |
| CaptureStore.CaptureInto | src/App.tsx:165-168 | after capture the id is present; a present id leaves the list unchanged; an absent id appends the record at the end, keeps the earlier records and adds exactly one; distinct ids stay distinct |
| CaptureStore.CaptureIdempotent | src/App.tsx:166-167 | capturing the same record twice gives the list of capturing it once |
| CaptureStore.Released | src/App.tsx:191-193 | after release no record has the id, and the remaining records are exactly those of the list with another id |
| CaptureStore.ReleaseKeepsOthersInOrder | src/App.tsx:191-193 | release keeps the other records in their original relative order, each as often as before |
| CaptureStore.ReleaseAbsentIsNoOp | src/App.tsx:191-193 | releasing an id that is not captured leaves the list unchanged |
| CaptureStore.ReleaseKeepsIdsUnique | src/App.tsx:191-193 | release keeps ids distinct |
| CaptureStore.ReleaseUndoesCapture | src/App.tsx:165-193 | releasing the id of a record just captured under a fresh id restores the list before the capture |
| CaptureStore.ReplayKeepsIdsUnique | src/App.tsx:165-193 | from a list with distinct ids, any sequence of captures and releases keeps the ids distinct |
| CaptureStore.ReplayFromEmptyKeepsIdsUnique | src/App.tsx:96-99 | starting from the empty list, the captured list never holds two records with the same id |
| CaptureStore.IndicatorAfterStep | src/App.tsx:156-158 | the indicator is true right after capturing an id and false right after releasing it |
| CaptureStore.Store.constructor | src/App.tsx:96-99 | with nothing stored the captured list starts empty, storage holds the same list, and nothing has been written |
| CaptureStore.Store.Capture | src/App.tsx:164-175 | a present id changes nothing and writes nothing; an absent id appends the record, writes the new list to storage once, and the id becomes captured; distinct ids and storage equal to memory are preserved |
| CaptureStore.Store.Release | src/App.tsx:189-200 | the list becomes the release of the old one: the id is gone, the others stay in order, and an absent id changes nothing; storage is written once in every case and equals the new list |
| Scenario.FireSelectsCharmander | src/App.tsx:143-148 | in a catalog of a grass/poison record and a fire record, selecting "fire" shows only the fire record |

## Left out

- Network fetching (`fetch`, `Promise.all`, `response.json()`, the batch size `AMOUNT = 10`, the `useEffect` wiring, src/App.tsx:105-125) is asynchronous I/O. The catalog is a parameter of every operation.
- Schema validation with valibot (`v.parse`, `PokemonSchema`, `PokemonsSchema`) calls a library that is not part of this model. Validated records are given directly as the `Pokemon` datatype.
- Loading the captured list at startup (src/App.tsx:96-103) is modelled only for the case where nothing is stored, and the store starts empty. As written, line 101 passes the raw stored string to an array schema, not the parsed JSON, so any non-empty stored value fails validation. No save/load round trip is claimed. The model also treats "nothing stored" and "an empty list stored" as one state (`persisted == []`). In the source they differ: a missing entry loads as `[]` (lines 98-99), but the string `"[]"` stored after the last release is passed raw to the schema at line 101 and throws.
- Real `localStorage` and `JSON.stringify` are not modelled. `persisted` holds the list value itself. Storage write failures (quota, disabled storage) are not modelled.
- Rendering is not modelled: the `Card` and `Filters` components, JSX, button enabling and the `types.join(", ")` display on line 40.
- React's hook scheduling and its functional-updater semantics are not modelled. Each capture or release is one atomic method call on the current list.
- CatalogFilter.LowerChar: folds only the ASCII capitals `A`-`Z`, whereas JavaScript's `toLowerCase` applies full Unicode case mapping.
- CatalogFilter.Lower: inherits the ASCII-only folding of `LowerChar`, so it does not capture Unicode case mapping or length-changing mappings.

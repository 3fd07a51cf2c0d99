# Favorites store of the rental-car front end, in Dafny

This project models the client-side favorites of a car-rental listing front end:

- the favorites store (`store/useFavoritesStore.ts`), an ordered sequence of car
  records kept unique by `id`, starting empty, changed only by `toggleFavorite`
  (remove every car with that `id` if one is present, otherwise append the car)
  and queried by `isFavorite` (is some car with that `id` present);
- the hydration-gated view of the home page (`app/page.tsx`): the favorites slice
  is `undefined` until the persisted data has been loaded, modelled as
  `Option<seq<Car>>`, and from it the page derives `isHydrated`, whether the test
  car is shown as favorited (`active`), skeleton versus toggle button, and the
  count it displays.

Files: `wrappers.dfy` (the `Option` type), `car.dfy` (the car record, all of
whose fields except `id` are payload), `favorites_store.dfy` (module
`FavoritesStore`) and `home_page.dfy` (module `HomePage`). Everything is a pure
function over immutable values; the store's mutable state is the sequence
passed in and returned.

The `some(item => item.id === …)` scan appears three times in the source (the
store's toggle test, `isFavorite`, the page's `active`); it is defined once, as
`FavoritesStore.IsFavorite`. The store's `filter` is `FavoritesStore.Without`;
its order preservation is stated as distribution over concatenation, which
together with its effect on a single car pins it down completely.

In a unique collection, toggling the same car twice restores the collection
exactly when its `id` was absent beforehand, or when the favorite holding that
`id` is the last one and equals the car (`ToggleTwiceRestores`). Otherwise the
first toggle removes the stored favorite and the second appends the car at the
end, so the stored payload is replaced and the collection can be reordered
(`ToggleTwicePresent`, `ToggleTwiceReorders`). The name "toggle" suggests that
toggling twice is the identity; under this code that holds only in those cases.

The page reads the favorites through a hook that is not part of this model;
the model takes it that, once hydrated, the slice it returns is the store's
collection, so a click on the button is a `Toggle` of that slice.

`HomePage.TestCar` is the page's fixed test car (app/page.tsx:15-32, id `"1"`);
`HomePage.CountPlaceholder` is the `"..."` shown before hydration
(app/page.tsx:78).

## Model

| member | source | states |
|---|---|---|
| FavoritesStore.IsFavorite | store/useFavoritesStore.ts:26 | holds exactly when some index of the collection holds a car with the given id |
| FavoritesStore.IsFavoriteElement | store/useFavoritesStore.ts:26 | the membership query holds exactly when some car in the collection carries the given id |
| FavoritesStore.InitialFavorites | store/useFavoritesStore.ts:14 | the initial collection reports no id as favorite and is unique |
| FavoritesStore.Without | store/useFavoritesStore.ts:20 | afterwards exactly the ids that were present and differ from the removed one are present; the length is unchanged exactly when the id was absent |
| FavoritesStore.Toggle | store/useFavoritesStore.ts:16-23 | membership of the car's id flips; membership of every other id is unchanged; an absent car is appended at the end (length + 1); removing a present id shortens the collection |
| FavoritesStore.AppendMembership | store/useFavoritesStore.ts:22 | appending a car adds exactly its id to the ids present, leaving every other id's membership as it was |
| FavoritesStore.WithoutAbsent | store/useFavoritesStore.ts:20 | filtering out an id that no car carries returns the collection unchanged |
| FavoritesStore.WithoutConcat | store/useFavoritesStore.ts:20 | filtering distributes over concatenation, so the remaining cars keep their relative order |
| FavoritesStore.WithoutUnique | store/useFavoritesStore.ts:20 | filtering a unique collection leaves it unique |
| FavoritesStore.WithoutPresentLength | store/useFavoritesStore.ts:18-20 | in a unique collection, filtering out a present id shortens it by exactly one |
| FavoritesStore.TogglePreservesUnique | store/useFavoritesStore.ts:16-23 | if no two cars share an id before a toggle, none do after it |
| FavoritesStore.TogglePresent | store/useFavoritesStore.ts:18-20 | in a unique collection, toggling the id held by one car removes just that car; the cars before and after it stay in order |
| FavoritesStore.WithoutAppended | store/useFavoritesStore.ts:20-22 | appending a car with an absent id and then filtering that id out gives back the original collection |
| FavoritesStore.ToggleTwiceAbsent | store/useFavoritesStore.ts:18-23 | toggling a car with an absent id twice restores the original collection exactly |
| FavoritesStore.ToggleTwiceRestores | store/useFavoritesStore.ts:18-22 | in a unique collection, two toggles of a car give back the collection exactly when its id was absent or the last favorite is that very car |
| FavoritesStore.ToggleTwicePresent | store/useFavoritesStore.ts:18-23 | toggling a car with a present id twice yields the other cars followed by that car |
| FavoritesStore.ToggleTwiceReorders | store/useFavoritesStore.ts:18-23 | for two cars with distinct ids, toggling the first twice turns [a, b] into [b, a] |
| FavoritesStore.ToggleAllPreservesUnique | store/useFavoritesStore.ts:14-23 | any sequence of toggles applied to a unique collection (the initial one included) leaves it unique |
| HomePage.Render | app/page.tsx:13-78 | hydrated exactly when the slice is defined; never active before hydration; once hydrated, active exactly when some favorite has the test car's id; skeleton exactly when not hydrated, otherwise a button showing the active state; count is the slice's length when hydrated and the placeholder "..." otherwise |
| HomePage.Click | app/page.tsx:55-61 | a click is possible only when hydrated and then flips the active flag; before hydration the slice is untouched |
| HomePage.ClickMovesCountByOne | app/page.tsx:36-78 | on a unique collection a click raises the displayed count by one when the car was not active and lowers it by one when it was |
| HomePage.ClickTwiceFromInactive | app/page.tsx:35-61 | two clicks starting from an inactive button restore the slice exactly |
| HomePage.ClickTwiceFromActive | app/page.tsx:35-61 | on a unique slice with an active button, two clicks restore the slice exactly when the test car is its last favorite |
| HomePage.ClickScenario | app/page.tsx:35-78 | from an empty hydrated store, one click shows the car as favorited with count 1 and a second click shows it not favorited with count 0 |

## Left out

- Persistence: the `persist` middleware, `createJSONStorage`, `localStorage` and the storage key (store/useFavoritesStore.ts:12, 28-31) belong to a library that is not part of this model; no envelope format, decode failure or persistence round trip is modelled.
- The `useStore` hook (app/page.tsx:4, 9) is not part of this model; only its result, defined or `undefined`, is modelled, not when it becomes defined.
- Rendering details of app/page.tsx: JSX structure, CSS classes, button labels and animations.
- lib/axios.ts: HTTP client configuration and logging, network plumbing.
- app/layout.tsx: fonts, metadata and the HTML shell.
- `ICarFilters` (types/car.ts:20-25): not used by any modelled logic.
- Car payload: the non-id fields of the car record are carried but take part in no behaviour; JavaScript numbers are modelled as unbounded integers.
- Subscriptions and re-rendering of the reactive store are not modelled; each operation maps one collection to the next.

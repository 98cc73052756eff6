# Favourites of an art-catalog app, modelled in Dafny

The app lists art items, and the user can mark items as favourites. This
project models the three places that handle favourites:

- **`FavoritesProvider`** (`context/FavoritesContext.tsx`) keeps an
  in-memory list of item ids. `toggleFavorite` removes every copy of an id
  that is present and appends one that is absent. `isFavorite` is list
  membership. Module `FavoritesContext`, written as functions and lemmas.
- **The `useFavorites(id, item?)` hook** (`hooks/useFavourite.ts`) holds a
  boolean `isFavorite`. `checkFavorite` sets it from the list stored under
  the AsyncStorage key `"favorites"`. `toggleFavorite` does a
  read-modify-write of that stored list and then flips the flag. Module
  `UseFavourite`, class `FavouriteHook`.
- **The `ArtCard` component** (`components/ArtCard.tsx`) runs the same
  read-modify-write. It then calls `onFavoriteChange`, and it resets its flag
  from the `favorites` id list prop whenever that prop or `item.id` changes.
  Module `ArtCard`, class `Card`.

The other modules are shared:

- `Storage`: the stored entries, the store cell and the array operations on
  entries.
- `Arrays`: `includes`, filter-by-inequality and duplicate-freedom.
- `Wrappers`: `Option` and `Result`.

The store is a class `Storage.Store` with one field, `favorites:
Option<Blob>`:

- `None` means the key is missing.
- `Blank` is the empty string. It is falsy in JavaScript, so both
  `favorites ? … : []` and `if (favorites)` treat it like a missing key.
- `Malformed` is text on which `JSON.parse` throws.
- `NonArray(json)` is JSON that parses to a value other than an array, such
  as `null`, `{}` or `5`. `json` stands for that value. `JSON.parse` does not
  throw on it, but `filter`, `push` and `some` are not functions of it.
- `Entries(list)` is a parsed array.

A hook and a card hold a reference to the same store. Reading and writing
can fail, and whether they do is passed in as the parameters `readFails` and
`writeFails`. The error that a `catch` block logs is returned as
`Fail(fault)`. There is no `catch` in `checkFavorite`, so there the same value
stands for the rejected promise.

What the model states about the code as written:

- Both persisted toggles branch on the flag they hold, not on whether the id
  is in the list they just read. A flag that is clear while the item is
  stored therefore appends a second copy (`ArtCard.StaleFlagDuplicates`).
- If the flag was in sync before a toggle, the list stays duplicate-free and
  the flag keeps agreeing with it (`ArtCard.UpdatedKeepsSync`,
  `Card.ToggleFavorite`).
- If the hook has no `item`, a toggle with the flag clear writes back the
  list it read (`[]` for a missing key or an empty string), yet still sets
  the flag. A hook that was in sync before is
  out of sync after (`FavouriteHook.ToggleFavorite`).
- On that same path no array method runs, so a stored non-array value is
  written back and the toggle succeeds. Every other path on a non-array value
  throws, including every card toggle and `checkFavorite`.
- The flag and the callback change only after the write succeeds. On any
  failure the store, the flag and the callback count are unchanged.
- A successful toggle always writes a key that was missing: the card or hook
  writes `[]` or a longer list where there was no value before.

Behaviour a reader might expect that the code does not have:

- Toggle does not test membership by id in the list it just read. It tests
  the flag it holds.
- Ids are not kept unique. A stale flag duplicates one (see above).
- Toggling twice does not always change nothing. For the in-memory provider
  it gives back the list exactly when the id was absent, or occurred once as
  the last element (`FavoritesContext.ToggleTwiceRestores`). Otherwise all
  copies of the id collapse into one copy at the end
  (`FavoritesContext.TogglePresentTwice`,
  `FavoritesContext.ToggleTwiceReorders`).
- A corrupt blob does not read as the empty list. Unparsable text makes
  `JSON.parse` throw, and a non-array value makes the array method after it
  throw. The toggles then log and change nothing, except on the no-item path
  above. `checkFavorite` rejects without touching the flag.

## Model

| member | source | states |
|---|---|---|
| `Arrays.Includes` | context/FavoritesContext.tsx:24 | `includes` is true exactly when the value is an element of the list |
| `Arrays.Without` | context/FavoritesContext.tsx:19 | filtering by `!== x` leaves no `x`, keeps every other value with its multiplicity, and shortens the list by the number of copies of `x` |
| `Arrays.WithoutConcat` | context/FavoritesContext.tsx:19 | the filter distributes over concatenation, so the kept values stay in their original order |
| `Arrays.WithoutAbsent` | context/FavoritesContext.tsx:19 | filtering out a value that does not occur returns the list unchanged |
| `Arrays.NoDupIffDistinct` | context/FavoritesContext.tsx:16-22 | a list where every value occurs at most once is the same as a list whose positions hold pairwise different values |
| `FavoritesContext.IsFavorite` | context/FavoritesContext.tsx:24 | `isFavorite(id)` is true exactly when `id` is in `favorites` |
| `FavoritesContext.Toggle` | context/FavoritesContext.tsx:16-22 | a toggle negates the membership of the toggled id and leaves the count of every other id unchanged |
| `FavoritesContext.ToggleAbsent` | context/FavoritesContext.tsx:17-20 | an absent id gives the old list, unchanged, followed by that id at the end |
| `FavoritesContext.TogglePresent` | context/FavoritesContext.tsx:18-19 | a present id loses every copy, the list shrinks by exactly that count, and the result is the filtered list |
| `FavoritesContext.ToggleKeepsOthers` | context/FavoritesContext.tsx:19-20 | with the toggled id filtered out, the lists before and after are equal, so the other ids keep their membership and relative order |
| `FavoritesContext.ToggleKeepsNoDup` | context/FavoritesContext.tsx:16-22 | a duplicate-free list stays duplicate-free after a toggle |
| `FavoritesContext.ToggleAbsentTwice` | context/FavoritesContext.tsx:16-22 | toggling an absent id twice gives back exactly the original list |
| `FavoritesContext.TogglePresentTwice` | context/FavoritesContext.tsx:16-22 | toggling a present id twice gives the filtered list with one copy of the id at the end |
| `FavoritesContext.ToggleTwiceRestores` | context/FavoritesContext.tsx:16-22 | toggling twice gives back the list exactly when the id was absent, or occurred once as the last element |
| `FavoritesContext.WithoutLastOnce` | context/FavoritesContext.tsx:19 | filtering out an id that occurs once, as the last element, leaves the list without that last element |
| `FavoritesContext.ToggleTwiceReorders` | context/FavoritesContext.tsx:16-22 | toggling `"a"` twice in `["a", "b"]` gives `["b", "a"]`, so a double toggle can reorder the list |
| `FavoritesContext.ToggleParity` | context/FavoritesContext.tsx:16-24 | after n toggles of one id, membership equals the initial membership when n is even and its negation when n is odd |
| `FavoritesContext.ReachableNoDup` | context/FavoritesContext.tsx:16-22 | any sequence of toggles keeps a duplicate-free list duplicate-free |
| `FavoritesContext.FromEmptyNoDup` | context/FavoritesContext.tsx:14-22 | every list reachable from the initial empty state by toggles is duplicate-free |
| `Storage.Ids` | components/ArtCard.tsx:49 | the id list the card tests against has one id per stored entry, position by position; it is the `map(fav => fav.id)` the catalog screen (app/(tabs)/home.tsx, line 38) passes as the `favorites` prop |
| `Storage.SomeId` | hooks/useFavourite.ts:23 | `some(fav => fav.id === id)` holds exactly when some position has that id, that is, when the id is in the id list |
| `Storage.RemoveById` | components/ArtCard.tsx:58 | filtering by `fav.id !== id` leaves no entry with that id and keeps every other entry with its multiplicity |
| `Storage.IdsRemoveById` | hooks/useFavourite.ts:33 | the ids of the filtered entries are the id list with that id filtered out, in the same order |
| `Storage.RemoveByIdConcat` | components/ArtCard.tsx:58 | filtering entries distributes over concatenation, so the order is kept |
| `Storage.RemoveByIdAbsent` | hooks/useFavourite.ts:33 | filtering out an id that no entry has returns the list unchanged |
| `Storage.AppendCount` | components/ArtCard.tsx:67 | `push` raises the count of the pushed entry's id by one and leaves every other id's count unchanged |
| `Storage.Store.constructor` | hooks/useFavourite.ts:29 | the AsyncStorage cell under the key `"favorites"` holds the given initial value (`None` for a missing key) |
| `UseFavourite.Updated` | hooks/useFavourite.ts:32-36 | with the flag set, no entry has the hook's id and every other entry keeps its count; with the flag clear, the list read is kept as a prefix, followed by the item when one was given and by nothing otherwise |
| `UseFavourite.UpdatedRemoves` | hooks/useFavourite.ts:32-33 | with the flag set, the written list has no entry with the hook's id, its ids are the old ids minus that id in order, and every other entry keeps its count |
| `UseFavourite.UpdatedAppendsUnchecked` | hooks/useFavourite.ts:34-35 | with the flag clear and an item given, the item is appended with no membership check: its id's count goes up by one, and the result has a duplicate when the id was already stored |
| `UseFavourite.UpdatedWithoutItem` | hooks/useFavourite.ts:34-38 | with the flag clear and no item, the list read is written back unchanged |
| `UseFavourite.UpdatedKeepsSync` | hooks/useFavourite.ts:32-39 | if the flag agrees with a duplicate-free list and the item carries the hook's id, the written list is duplicate-free and its membership is the flipped flag |
| `UseFavourite.FavouriteHook.constructor` | hooks/useFavourite.ts:13 | the flag starts false |
| `UseFavourite.FavouriteHook.CheckFavorite` | hooks/useFavourite.ts:19-24 | a stored array sets the flag to whether some entry has the id; a missing key or empty string leaves the flag unchanged; a failed read, a failed parse or a non-array value (on which `some` throws) rejects and leaves the flag unchanged |
| `UseFavourite.FavouriteHook.ToggleFavorite` | hooks/useFavourite.ts:27-43 | a failed read, parse or write, or `filter`/`push` on a non-array value, leaves store and flag unchanged; unparsable text fails with the parse error; otherwise the flag is flipped, even with no item, and the store holds the updated list computed from the stored array, or from `[]` for a missing key or an empty string, or a non-array value written back on the no-item path; sync is kept when the item matches, and lost when a clear flag has no item |
| `ArtCard.Updated` | components/ArtCard.tsx:57-67 | with the flag set, no entry has `item.id` and every other entry keeps its count; with the flag clear, the list read is kept as a prefix, followed by the item |
| `ArtCard.UpdatedAsHook` | components/ArtCard.tsx:57-67 | the card writes the same list as the hook does for the item under the item's own id |
| `ArtCard.UpdatedRemoves` | components/ArtCard.tsx:57-58 | with the flag set, no entry has `item.id`, the remaining ids keep their order, and every other entry keeps its count |
| `ArtCard.StaleFlagDuplicates` | components/ArtCard.tsx:66-67 | with the flag clear, the item is appended with no membership check, so a stale flag creates a duplicate id |
| `ArtCard.UpdatedKeepsSync` | components/ArtCard.tsx:57-78 | if the flag agrees with a duplicate-free list, the written list is duplicate-free and agrees with the flipped flag |
| `ArtCard.UpdatedTwice` | components/ArtCard.tsx:57-78 | an add followed by a remove leaves the original list minus every entry with the item's id, which is the original list when the id was absent |
| `ArtCard.Card.constructor` | components/ArtCard.tsx:40 | the flag starts false and no change has been reported |
| `ArtCard.Card.SyncFavorite` | components/ArtCard.tsx:46-50 | the flag becomes `favorites.includes(item.id)`; when the prop is the id list of the stored duplicate-free list, the card is in sync with the store |
| `ArtCard.Card.ToggleFavorite` | components/ArtCard.tsx:52-86 | a failed read, parse or write, or a non-array value (on which `filter` or `push` throws), leaves store, flag and callback count unchanged, and unparsable text fails with the parse error; otherwise the store holds the updated list computed from the stored array, or from `[]` for a missing key or an empty string, the flag is flipped, `onFavoriteChange` runs exactly once if given, and sync is preserved |
| `ArtCard.ToggleTwice` | components/ArtCard.tsx:57-78 | two successful toggles from a clear flag, with no other writer, leave the stored list as the original minus every entry of the item's id (the original itself when the id was absent), with the flag clear again |

## Left out

- UI and animation in `ArtCard`: shared values, styles, image loading state and navigation. `Toast.show` is left out too, although it runs before the write, so a failed write still shows its toast.
- Price and rating display in `ArtCard` (`formatPrice`, `discountedPrice`, the averaged rating). These are floating-point formatting, and the entry's price and ratings are carried as opaque `real` fields.
- JSON text: the store holds parsed values. `Malformed` stands for every text `JSON.parse` rejects, and `NonArray` for every parsed value that is not an array. An array whose elements are not entries is not modelled. Neither are the details of `JSON.stringify`/`JSON.parse`: a non-array value written back is taken to be the value that was read.
- AsyncStorage itself: whether a call rejects is a parameter, and a rejected `setItem` is taken to have stored nothing (no partial write).
- Concurrency and closures: each toggle is one sequential step against the store. Interleaving two screens' async toggles is not modelled. Neither is a callback that runs with the flag value captured by an earlier render.
- When React re-runs the card's effect: `SyncFavorite` models one run of the effect. The caller decides when it runs, which React does on a change of the `favorites` array reference or of `item.id`.
- The provider's `useFavorites` guard that throws outside a `FavoritesProvider` is provider wiring.
- The favourites screen (swipe delete, batch selection, clear-all), the detail screen's own toggle, the catalog search and brand filter, and the plain `useState` contexts are not part of this model.

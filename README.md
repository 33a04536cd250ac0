# Momo's Arcade: catalogue state model

This project models the client-side catalogue logic of Momo's Arcade, a
browser launcher for embedded web games. The page holds:

- a catalogue of games;
- a list of favourite game ids, with a copy written to browser storage after every change;
- a search query and an active category;
- the game currently open in the overlay, if any.

The model covers:

- **The filter engine** (`filteredGames`). It returns the catalogue games that pass two tests:
  - a case-insensitive search of the title and the tags;
  - a category rule with three cases: `All`, `Favorites`, and a concrete category.
- **The favourites toggle** (`toggleFavorite`). It works on a list:
  - if the id is present, all of its occurrences are removed;
  - if it is absent, it is appended at the end.
- **The page's state slots and the handlers that replace them**: select a card, play the featured game, close the view, change the category or the query, clear all filters.

Layout, one module per concern:

| file | module | models |
|---|---|---|
| `types.dfy` | `Types` | the `Category` union and the `Game` record |
| `array_ops.dfy` | `ArrayOps` | JavaScript `filter`, `some` and `find` on sequences, with `Option` for `undefined`/`null` |
| `string_ops.dfy` | `StringOps` | ASCII `toLowerCase` and `String.includes` as a substring test |
| `filter_engine.dfy` | `FilterEngine` | `filteredGames` and its search and category tests |
| `favorites.dfy` | `FavoritesList` | the favourites updater |
| `arcade.dfy` | `ArcadeApp` | the page state as class `Arcade`, and the featured-game lookup |

Two consequences of the code's own types:

- **The favourites are a list, not a set.**
  - Toggling an absent id twice restores the list exactly.
  - Toggling a present id twice keeps the same members but moves that id to the end. Any duplicate copies of it collapse into one.
  - On a list without duplicates, one toggle changes the set of ids by exactly that id (a symmetric difference). `ToggleKeepsDistinct` proves this.
- **A game may carry any of the seven categories.** `Game.category` has the full `Category` type (types.ts:10), so a game may carry `All` or `Favorites`. The category rule is modelled over all seven values (`CategoryRuleCases`):
  - a game tagged `Favorites` is not thereby shown under `Favorites`;
  - a game tagged `All` is shown under `All` like every other game.

## Model

| member | source | states |
|---|---|---|
| `Types.Categories` | components/Navbar.tsx:19 | the category list has seven distinct entries, from `All` first to `Favorites` last |
| `Types.CategoriesComplete` | types.ts:2 | the enumeration is closed: every `Category` value is in that list |
| `ArrayOps.Filter` | App.tsx:57-65 | `filter` returns only passing elements of the input, keeps every passing element, and is no longer than the input |
| `ArrayOps.FilterKeepsOrder` | App.tsx:57-65 | the result of `filter` is the input read at strictly increasing positions, and every passing position is among them: an order-preserving subsequence |
| `ArrayOps.FilterCount` | App.tsx:57-65 | a passing value occurs in the result exactly as often as in the input; a failing value does not occur at all |
| `ArrayOps.AnyOf` | App.tsx:59 | `some` is true iff some position of the sequence passes the test |
| `ArrayOps.Find` | App.tsx:104 | `find` gives none iff no element passes; otherwise it gives an element that passes and that no earlier element does |
| `StringOps.ToLower` | App.tsx:58 | lower-casing keeps the length, leaves no upper-case ASCII letter, keeps every other character and moves each upper-case letter 32 code points up |
| `StringOps.ToLowerIdempotent` | App.tsx:58-59 | lower-casing an already lower-cased string changes nothing |
| `StringOps.SameLowerIffCaseVariants` | App.tsx:58-59 | two strings have the same lower-case form iff they have the same length and agree position by position up to letter case |
| `StringOps.Includes` | App.tsx:58 | `includes` is true iff the query occurs in the string as a contiguous block at some position |
| `StringOps.IncludesEmpty` | App.tsx:58 | every string includes the empty string |
| `FilterEngine.MatchesSearchIff` | App.tsx:58-59 | the search test `MatchesSearch` holds iff the lower-cased query occurs in the lower-cased title or in some lower-cased tag |
| `FilterEngine.CategoryRuleCases` | App.tsx:61-62 | the category test `MatchesCategory`, case by case over all seven active categories: `All` admits every game, `Favorites` exactly the games whose id is a favourite, any other category exactly its own games; a game carrying `Favorites` is shown under `Favorites` only when its id is a favourite |
| `FilterEngine.FilteredGames` | App.tsx:56-66 | every listed game is a catalogue game passing search and category; every catalogue game passing both is listed |
| `FilterEngine.FilteredGamesInCatalogOrder` | App.tsx:57-65 | the listed games are exactly the visible catalogue positions, in catalogue order |
| `FilterEngine.FilteredGamesCount` | App.tsx:57-65 | no game is duplicated: a visible game appears as often as in the catalogue, an invisible one never |
| `FilterEngine.EmptyQueryMatchesEveryGame` | App.tsx:58-59 | the empty query matches every game |
| `FilterEngine.ClearedFiltersShowCatalogue` | App.tsx:58-61 | with query `""` and category `All` the result is the whole catalogue, unchanged |
| `FilterEngine.SearchIsCaseInsensitive` | App.tsx:58-59 | two queries with the same lower-case form give identical results |
| `FilterEngine.FavoritesShowsOnlyFavorites` | App.tsx:61-62 | under `Favorites`, every listed game's id is a favourite, every matching favourite game is listed, and an empty favourites list lists nothing |
| `FilterEngine.ConcreteCategoryShowsOnlyItsGames` | App.tsx:61-62 | under any category other than `All` and `Favorites`, every listed game has that category, and every matching game of that category is listed |
| `FilterEngine.AllIgnoresFavorites` | App.tsx:61 | under `All` the favourites list has no effect, and a game is listed iff it is in the catalogue and matches the search |
| `FavoritesList.Without` | App.tsx:52 | striking an id out removes every occurrence of it, keeps every other id's membership, never lengthens the list, and leaves a list without that id unchanged |
| `FavoritesList.Toggle` | App.tsx:51-53 | after a toggle the id is a member iff it was not before; every other id keeps its membership; an absent id is appended at the end; a present id's removal shortens the list |
| `FavoritesList.ToggleKeepsOthers` | App.tsx:52 | with the toggled id struck out, the lists before and after are equal: other ids keep their occurrences and relative order |
| `FavoritesList.ToggleCounts` | App.tsx:52 | after a toggle a present id occurs zero times (all occurrences removed), an absent id once, and every other id as often as before |
| `FavoritesList.ToggleTwiceAbsentRestores` | App.tsx:52 | toggling an absent id twice returns exactly the original list |
| `FavoritesList.ToggleTwicePresentMovesToEnd` | App.tsx:52 | toggling a present id twice gives the list without it plus the id at the end, with the same members as before |
| `FavoritesList.ToggleKeepsDistinct` | App.tsx:52 | on a list without repeats the result has none, and its set of ids is the old set with the id removed or added |
| `ArcadeApp.FeaturedGame` | App.tsx:104 | the featured lookup gives none iff no catalogue game has id `geometry-dash`; otherwise it gives the first such game |
| `ArcadeApp.ToggleKeepsOrigins` | App.tsx:52 | toggling a catalogue id keeps every favourite traceable to the restored list or the catalogue, and never removes an id that no catalogue game carries |
| `ArcadeApp.VisibleCardIds` | App.tsx:134-139 | a card is rendered only for a game in `filteredGames`, and such a game's id is a catalogue id: the heart button always passes a catalogue id |
| `ArcadeApp.Arcade.Visible` | App.tsx:56-66 | the games on screen for the current slots, never more than the catalogue holds |
| `ArcadeApp.Arcade.constructor` | App.tsx:11-15 | the page starts with the catalogue, category `All`, the empty query and no open game, so the whole catalogue is shown; the favourites are the restored list, or empty when nothing could be restored, and that list is recorded as the start-up origin of every later favourite |
| `ArcadeApp.Arcade.ToggleFavorite` | App.tsx:49-54 | called with a catalogue id, as every visible card's heart button passes (components/GameCard.tsx:46); the list becomes its toggle, the id's membership flips, the stored copy equals the list afterwards, a favourite that no catalogue game carries is never removed, the invariant is kept, and nothing else changes |
| `ArcadeApp.Arcade.SelectGame` | App.tsx:140 | clicking a visible card opens that game, replacing any open one; nothing else changes |
| `ArcadeApp.Arcade.PlayFeatured` | App.tsx:104 | the featured button opens the featured game, or no game when the catalogue has none; nothing else changes |
| `ArcadeApp.Arcade.CloseGame` | App.tsx:168 | closing leaves no game open; nothing else changes |
| `ArcadeApp.Arcade.SetCategory` | components/Navbar.tsx:54 | a category button sets the active category; nothing else changes |
| `ArcadeApp.Arcade.SetSearchQuery` | components/Navbar.tsx:44 | the search box sets the query; nothing else changes |
| `ArcadeApp.Arcade.ClearFilters` | App.tsx:154 | "Clear all filters" sets category `All` and the empty query, after which the whole catalogue is shown; nothing else changes |

Every method of `Arcade` keeps the class invariant `Valid()`:

- the stored copy of the favourites equals the list;
- an open game is a catalogue game;
- every favourite came from the list restored at start-up or is the id of a catalogue game. Ids restored from storage that no catalogue game carries have no card, so nothing can remove them.

## Left out

- **Catalogue fetch and the `loading` flag** (App.tsx:19-30). This is network I/O. The constructor takes the loaded catalogue. A failed fetch corresponds to an empty catalogue.
- **Reading favourites back from storage** (App.tsx:33-42). `localStorage` and `JSON.parse` are foreign calls.
  - The constructor takes the parse outcome as `restored`. `None` stands for a missing, empty or unparseable slot.
  - The model assumes a successful parse yields a list of strings. The source does not check the parsed JSON's shape.
- **Order of storage writes at start-up.** Writing to storage (App.tsx:45-47) is modelled only as the `storedFavorites` field, which equals the list after every change. At start-up the source writes the empty list once before the restored list arrives; that transient write is not modelled.
- `e.stopPropagation()` (App.tsx:50) is DOM event plumbing. Toggling and selecting are separate methods.
- StringOps.ToLower: models `toLowerCase` on ASCII letters only. Non-ASCII case mappings (accented letters, special casings that change the length) are not modelled.
- **Rendering conditions and markup.** The hero section is shown only under `All` with an empty query (App.tsx:90). `PlayFeatured` has no such precondition. The empty-state view (App.tsx:132), styling and layout are also left out.
- **The game overlay**: iframe reload, fullscreen and its loading spinner (components/GameView.tsx). Also the markup of components/Footer.tsx and components/GameCard.tsx.

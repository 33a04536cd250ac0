/** The arcade page's state: the catalogue, the favourites list and its
    stored copy, the filter inputs and the game currently open. Each event
    handler of the page replaces some of these slots. */
module ArcadeApp {
  import opened Types
  import opened ArrayOps
  import opened FilterEngine
  import opened FavoritesList

  /** The id the featured-game button looks up. */
  const FeaturedId: string := "geometry-dash"

  /** The featured game: the first catalogue entry whose id is `FeaturedId`,
      or none when the catalogue has no such entry. */
  function FeaturedGame(games: seq<Game>): (r: Option<Game>)
    ensures r.None? <==> forall i :: 0 <= i < |games| ==> games[i].id != FeaturedId
    ensures r.Some? ==> exists i :: 0 <= i < |games| && games[i] == r.value && r.value.id == FeaturedId
                                    && forall j :: 0 <= j < i ==> games[j].id != FeaturedId
  {
    Find(games, (g: Game) => g.id == FeaturedId)
  }

  /** The ids of the catalogue's games. */
  ghost function CatalogueIds(games: seq<Game>): set<string>
  {
    set g | g in games :: g.id
  }

  /** Every id of `ids` came from `restored` or is the id of a game. */
  ghost predicate FromOrigins(ids: seq<string>, restored: seq<string>, games: seq<Game>)
  {
    forall x :: x in ids ==> x in restored || x in CatalogueIds(games)
  }

  /** Toggling the id of a catalogue game keeps every favourite traceable to
      the restored list or the catalogue, and never removes a stale id. */
  lemma ToggleKeepsOrigins(prev: seq<string>, id: string, restored: seq<string>, games: seq<Game>)
    requires FromOrigins(prev, restored, games)
    requires id in CatalogueIds(games)
    ensures FromOrigins(Toggle(prev, id), restored, games)
    ensures forall x :: x in prev && x !in CatalogueIds(games) ==> x in Toggle(prev, id)
  {
    var next := Toggle(prev, id);
    forall x | x in next ensures x in restored || x in CatalogueIds(games) {
      if x != id {
        assert x in prev;
      }
    }
  }

  /** Every game on screen is a catalogue game, so its id is a catalogue id:
      the heart button of a visible card always passes a catalogue id. */
  lemma VisibleCardIds(games: seq<Game>, query: string, active: Category, favorites: seq<string>, g: Game)
    requires g in FilteredGames(games, query, active, favorites)
    ensures g.id in CatalogueIds(games)
  {
    VisibleInCatalogue(games, query, active, favorites, g);
  }

  /** The page invariant on the values of its slots: the stored copy never
      lags behind the list, an open game is one of the catalogue's, and every
      favourite either came from the persistent slot or is the id of a
      catalogue game. */
  ghost predicate Consistent(games: seq<Game>, favorites: seq<string>, stored: seq<string>,
                             selected: Option<Game>, restored: seq<string>)
  {
    && stored == favorites
    && (selected.Some? ==> selected.value in games)
    && FromOrigins(favorites, restored, games)
  }

  class Arcade {
    var games: seq<Game>
    var favorites: seq<string>
    /** The copy of `favorites` kept in the browser's persistent slot. */
    var storedFavorites: seq<string>
    var activeCategory: Category
    var searchQuery: string
    var selectedGame: Option<Game>
    /** The favourites list as restored from the persistent slot at start-up. */
    ghost var restoredFavorites: seq<string>

    /** `Consistent` on the current slots. */
    ghost predicate Valid()
      reads this
    {
      Consistent(games, favorites, storedFavorites, selectedGame, restoredFavorites)
    }

    /** `id` is the id of no catalogue game: a stale entry. */
    ghost predicate IsStale(id: string)
      reads this
    {
      id !in CatalogueIds(games)
    }

    /** The games on screen for the current inputs. */
    function Visible(): (r: seq<Game>)
      reads this
      ensures |r| <= |games|
    {
      FilteredGames(games, searchQuery, activeCategory, favorites)
    }

    /** The page once the catalogue has loaded; `restored` is the favourites
        list read back from the persistent slot, `None` when the slot is
        missing or does not parse, which leaves the list empty. */
    constructor (catalog: seq<Game>, restored: Option<seq<string>>)
      ensures Valid()
      ensures games == catalog
      ensures favorites == (if restored.Some? then restored.value else [])
      ensures restoredFavorites == favorites
      ensures activeCategory == All && searchQuery == "" && selectedGame == None
      ensures Visible() == catalog
    {
      games := catalog;
      favorites := if restored.Some? then restored.value else [];
      storedFavorites := if restored.Some? then restored.value else [];
      activeCategory := All;
      searchQuery := "";
      selectedGame := None;
      restoredFavorites := if restored.Some? then restored.value else [];
      new;
      ClearedFiltersShowCatalogue(catalog, favorites);
    }

    /** The heart button of a card: toggle the id, then write the whole list
        to the persistent slot. Only the cards of visible games have the
        button, so the id is a catalogue id (`VisibleCardIds`); a stale
        favourite restored from the slot can therefore never be removed. */
    method ToggleFavorite(id: string)
      requires Valid()
      requires id in CatalogueIds(games)
      modifies this`favorites, this`storedFavorites
      ensures Valid()
      ensures favorites == Toggle(old(favorites), id)
      ensures id in favorites <==> id !in old(favorites)
      ensures storedFavorites == favorites
      ensures forall x :: x in old(favorites) && IsStale(x) ==> x in favorites
      ensures games == old(games) && activeCategory == old(activeCategory)
      ensures searchQuery == old(searchQuery) && selectedGame == old(selectedGame)
      ensures restoredFavorites == old(restoredFavorites)
    {
      var next := Toggle(favorites, id);
      ToggleKeepsOrigins(favorites, id, restoredFavorites, games);
      favorites := next;
      storedFavorites := next;
    }

    /** A click on a card opens that game, replacing whatever was open. Only
        the cards of visible games can be clicked. */
    method SelectGame(game: Game)
      requires Valid()
      requires game in Visible()
      modifies this`selectedGame
      ensures Valid()
      ensures selectedGame == Some(game)
      ensures games == old(games) && favorites == old(favorites) && storedFavorites == old(storedFavorites)
      ensures activeCategory == old(activeCategory) && searchQuery == old(searchQuery)
      ensures restoredFavorites == old(restoredFavorites)
    {
      VisibleInCatalogue(games, searchQuery, activeCategory, favorites, game);
      selectedGame := Some(game);
    }

    /** The featured button opens the featured game, or closes the view when
        the catalogue has none. */
    method PlayFeatured()
      requires Valid()
      modifies this`selectedGame
      ensures Valid()
      ensures selectedGame == FeaturedGame(games)
      ensures selectedGame.Some? ==> selectedGame.value.id == FeaturedId
      ensures games == old(games) && favorites == old(favorites) && storedFavorites == old(storedFavorites)
      ensures activeCategory == old(activeCategory) && searchQuery == old(searchQuery)
      ensures restoredFavorites == old(restoredFavorites)
    {
      selectedGame := FeaturedGame(games);
    }

    /** Closing the game view leaves no game open. */
    method CloseGame()
      requires Valid()
      modifies this`selectedGame
      ensures Valid()
      ensures selectedGame == None
      ensures games == old(games) && favorites == old(favorites) && storedFavorites == old(storedFavorites)
      ensures activeCategory == old(activeCategory) && searchQuery == old(searchQuery)
      ensures restoredFavorites == old(restoredFavorites)
    {
      selectedGame := None;
    }

    /** A category button. */
    method SetCategory(category: Category)
      requires Valid()
      modifies this`activeCategory
      ensures Valid()
      ensures activeCategory == category
      ensures games == old(games) && favorites == old(favorites) && storedFavorites == old(storedFavorites)
      ensures searchQuery == old(searchQuery) && selectedGame == old(selectedGame)
      ensures restoredFavorites == old(restoredFavorites)
    {
      activeCategory := category;
    }

    /** The search box. */
    method SetSearchQuery(query: string)
      requires Valid()
      modifies this`searchQuery
      ensures Valid()
      ensures searchQuery == query
      ensures games == old(games) && favorites == old(favorites) && storedFavorites == old(storedFavorites)
      ensures activeCategory == old(activeCategory) && selectedGame == old(selectedGame)
      ensures restoredFavorites == old(restoredFavorites)
    {
      searchQuery := query;
    }

    /** "Clear all filters": back to category `All` and the empty query, which
        shows the whole catalogue. */
    method ClearFilters()
      requires Valid()
      modifies this`activeCategory, this`searchQuery
      ensures Valid()
      ensures activeCategory == All && searchQuery == ""
      ensures Visible() == games
      ensures games == old(games) && favorites == old(favorites) && storedFavorites == old(storedFavorites)
      ensures selectedGame == old(selectedGame)
      ensures restoredFavorites == old(restoredFavorites)
    {
      activeCategory := All;
      searchQuery := "";
      ClearedFiltersShowCatalogue(games, favorites);
      assert Visible() == FilteredGames(games, "", All, favorites);
    }
  }
}

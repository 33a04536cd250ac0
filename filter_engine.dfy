/** The visible-games computation of the arcade page: a case-insensitive
    title/tag search combined with a category rule, applied to the catalogue
    with `filter`. */
module FilterEngine {
  import opened Types
  import opened ArrayOps
  import opened StringOps

  /** The search test: the lower-cased query is a substring of the
      lower-cased title or of some lower-cased tag. */
  predicate MatchesSearch(game: Game, query: string)
  {
    var q := ToLower(query);
    Includes(ToLower(game.title), q) || AnyOf(game.tags, TagContains(q))
  }

  /** The per-tag test of the search, for an already lower-cased query. */
  function TagContains(q: string): string -> bool
  {
    (tag: string) => Includes(ToLower(tag), q)
  }

  /** The search test, stated on substring occurrences: the query occurs in
      the title, or in some tag, once all of them are lower-cased. */
  lemma MatchesSearchIff(game: Game, query: string)
    ensures MatchesSearch(game, query) <==>
              (exists i :: OccursAt(ToLower(game.title), ToLower(query), i)) ||
              (exists j, i :: 0 <= j < |game.tags| && OccursAt(ToLower(game.tags[j]), ToLower(query), i))
  {
    SearchParts(game, query);
    TitleMatchIff(game.title, query);
    TagsMatchIff(game.tags, ToLower(query));
  }

  /** Helper for MatchesSearchIff: the two halves of the search test. */
  lemma SearchParts(game: Game, query: string)
    ensures MatchesSearch(game, query) <==>
              Includes(ToLower(game.title), ToLower(query)) || AnyOf(game.tags, TagContains(ToLower(query)))
  {
  }

  /** Helper for MatchesSearchIff: the title half. */
  lemma TitleMatchIff(title: string, query: string)
    ensures Includes(ToLower(title), ToLower(query)) <==> exists i :: OccursAt(ToLower(title), ToLower(query), i)
  {
  }

  /** Helper for MatchesSearchIff: the tag half, for a lower-cased query `q`. */
  lemma TagsMatchIff(tags: seq<string>, q: string)
    ensures AnyOf(tags, TagContains(q)) <==> exists j, i :: 0 <= j < |tags| && OccursAt(ToLower(tags[j]), q, i)
  {
    var test := TagContains(q);
    if AnyOf(tags, test) {
      var j :| 0 <= j < |tags| && test(tags[j]);
      assert Includes(ToLower(tags[j]), q);
      var i :| OccursAt(ToLower(tags[j]), q, i);
      assert 0 <= j < |tags| && OccursAt(ToLower(tags[j]), q, i);
    } else {
      forall j, i | 0 <= j < |tags| ensures !OccursAt(ToLower(tags[j]), q, i) {
        assert !test(tags[j]);
      }
    }
  }

  /** The category rule: `All` admits every game, `Favorites` the games whose
      id is in the favourites list, any other category the games carrying it. */
  predicate MatchesCategory(game: Game, active: Category, favorites: seq<string>)
  {
    active == All || (if active == Favorites then game.id in favorites else game.category == active)
  }

  /** The category rule case by case, over all seven values of the active
      category. The game's own category plays no part under `All` and
      `Favorites`, even when the game carries one of those two values. */
  lemma CategoryRuleCases(game: Game, active: Category, favorites: seq<string>)
    ensures MatchesCategory(game, active, favorites) <==>
              match active
              case All => true
              case Favorites => game.id in favorites
              case Action => game.category == Action
              case Puzzle => game.category == Puzzle
              case Strategy => game.category == Strategy
              case Sports => game.category == Sports
              case Retro => game.category == Retro
    ensures game.category == Favorites ==> (MatchesCategory(game, Favorites, favorites) <==> game.id in favorites)
  {
  }

  /** A game is shown when it passes both tests. */
  predicate IsVisible(game: Game, query: string, active: Category, favorites: seq<string>)
  {
    MatchesSearch(game, query) && MatchesCategory(game, active, favorites)
  }

  /** The games shown for a query, a category and a favourites list. */
  function FilteredGames(games: seq<Game>, query: string, active: Category, favorites: seq<string>): (r: seq<Game>)
    ensures |r| <= |games|
    ensures forall k :: 0 <= k < |r| ==> r[k] in games && IsVisible(r[k], query, active, favorites)
    ensures forall i {:trigger IsVisible(games[i], query, active, favorites)} ::
              0 <= i < |games| && IsVisible(games[i], query, active, favorites) ==> games[i] in r
  {
    Filter(games, (g: Game) => IsVisible(g, query, active, favorites))
  }

  /** Every game shown is a catalogue game. */
  lemma VisibleInCatalogue(games: seq<Game>, query: string, active: Category, favorites: seq<string>, g: Game)
    requires g in FilteredGames(games, query, active, favorites)
    ensures g in games && IsVisible(g, query, active, favorites)
  {
    var r := FilteredGames(games, query, active, favorites);
    var k :| 0 <= k < |r| && r[k] == g;
  }

  /** The result lists exactly the visible positions of the catalogue, in
      catalogue order. */
  lemma FilteredGamesInCatalogOrder(games: seq<Game>, query: string, active: Category, favorites: seq<string>)
    returns (idx: seq<nat>)
    ensures Embeds(FilteredGames(games, query, active, favorites), games, idx)
    ensures forall i :: 0 <= i < |games| && IsVisible(games[i], query, active, favorites) ==> i in idx
    ensures forall k :: 0 <= k < |idx| ==> IsVisible(games[idx[k]], query, active, favorites)
  {
    var r := FilteredGames(games, query, active, favorites);
    idx := FilterKeepsOrder(games, (g: Game) => IsVisible(g, query, active, favorites));
    forall k | 0 <= k < |idx| ensures IsVisible(games[idx[k]], query, active, favorites) {
      assert r[k] == games[idx[k]];
    }
  }

  /** A visible game appears as often as in the catalogue, an invisible one
      not at all. */
  lemma FilteredGamesCount(games: seq<Game>, query: string, active: Category, favorites: seq<string>, g: Game)
    ensures multiset(FilteredGames(games, query, active, favorites))[g] ==
              if IsVisible(g, query, active, favorites) then multiset(games)[g] else 0
  {
    FilterCount(games, (g: Game) => IsVisible(g, query, active, favorites), g);
  }

  /** The empty query matches every game. */
  lemma EmptyQueryMatchesEveryGame(game: Game)
    ensures MatchesSearch(game, "")
  {
    assert ToLower("") == "";
    IncludesEmpty(ToLower(game.title));
  }

  /** With the filters cleared (empty query, category `All`) the whole
      catalogue is shown, in order. */
  lemma ClearedFiltersShowCatalogue(games: seq<Game>, favorites: seq<string>)
    ensures FilteredGames(games, "", All, favorites) == games
  {
    forall i | 0 <= i < |games| ensures IsVisible(games[i], "", All, favorites) {
      EmptyQueryMatchesEveryGame(games[i]);
    }
    FilterAllPass(games, (g: Game) => IsVisible(g, "", All, favorites));
  }

  /** Queries with the same lower-case form give the same result. */
  lemma SearchIsCaseInsensitive(games: seq<Game>, q1: string, q2: string, active: Category, favorites: seq<string>)
    requires ToLower(q1) == ToLower(q2)
    ensures FilteredGames(games, q1, active, favorites) == FilteredGames(games, q2, active, favorites)
  {
    FilterAgree(games, (g: Game) => IsVisible(g, q1, active, favorites),
                       (g: Game) => IsVisible(g, q2, active, favorites));
  }

  /** Under `Favorites`, exactly the matching games whose id is a favourite
      are shown; an empty favourites list shows nothing. */
  lemma FavoritesShowsOnlyFavorites(games: seq<Game>, query: string, favorites: seq<string>)
    ensures forall g :: g in FilteredGames(games, query, Favorites, favorites) ==> g.id in favorites
    ensures forall i :: 0 <= i < |games| && games[i].id in favorites && MatchesSearch(games[i], query)
              ==> games[i] in FilteredGames(games, query, Favorites, favorites)
    ensures favorites == [] ==> FilteredGames(games, query, Favorites, favorites) == []
  {
    if favorites == [] {
      FilterNonePass(games, (g: Game) => IsVisible(g, query, Favorites, favorites));
    }
  }

  /** Under a concrete category, exactly the matching games of that
      category are shown. */
  lemma ConcreteCategoryShowsOnlyItsGames(games: seq<Game>, query: string, active: Category, favorites: seq<string>)
    requires active != All && active != Favorites
    ensures forall g :: g in FilteredGames(games, query, active, favorites) ==> g.category == active
    ensures forall i :: 0 <= i < |games| && games[i].category == active && MatchesSearch(games[i], query)
              ==> games[i] in FilteredGames(games, query, active, favorites)
  {
  }

  /** Under `All`, the favourites list has no effect and only the search
      decides. */
  lemma AllIgnoresFavorites(games: seq<Game>, query: string, f1: seq<string>, f2: seq<string>)
    ensures FilteredGames(games, query, All, f1) == FilteredGames(games, query, All, f2)
    ensures forall g :: g in FilteredGames(games, query, All, f1) <==> g in games && MatchesSearch(g, query)
  {
    FilterAgree(games, (g: Game) => IsVisible(g, query, All, f1),
                       (g: Game) => IsVisible(g, query, All, f2));
  }
}

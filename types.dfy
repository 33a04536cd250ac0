/** The catalogue's record types. */
module Types {

  /** The seven category names. `All` and `Favorites` are filter-only values
      in the user interface, but the `category` field of a game has this same
      type, so nothing stops a game from carrying them. */
  datatype Category = All | Action | Puzzle | Strategy | Sports | Retro | Favorites

  /** One catalogue entry. `id` is the only key the favourites list and the
      featured-game lookup use; `tags` is searched in full. */
  datatype Game = Game(
    id: string,
    title: string,
    description: string,
    thumbnail: string,
    iframeUrl: string,
    category: Category,
    tags: seq<string>)

  /** The category list in declaration order, as the navigation bar offers it. */
  function Categories(): (cs: seq<Category>)
    ensures |cs| == 7
    ensures forall i, j :: 0 <= i < j < |cs| ==> cs[i] != cs[j]
    ensures cs[0] == All && cs[|cs| - 1] == Favorites
  {
    [All, Action, Puzzle, Strategy, Sports, Retro, Favorites]
  }

  /** The enumeration is closed: every category value is one of the seven. */
  lemma CategoriesComplete(c: Category)
    ensures c in Categories()
  {
    match c {
      case All =>
      case Action =>
      case Puzzle =>
      case Strategy =>
      case Sports =>
      case Retro =>
      case Favorites =>
    }
  }
}

/** The favourites-list updater of the arcade page: the list of favourite
    game ids, toggled one id at a time. */
module FavoritesList {
  import opened ArrayOps

  /** `ids.filter(f => f !== id)`: every occurrence of `id` removed. */
  function Without(ids: seq<string>, id: string): (r: seq<string>)
    ensures id !in r
    ensures forall other :: other != id ==> (other in r <==> other in ids)
    ensures |r| <= |ids|
    ensures id !in ids ==> r == ids
  {
    var keep := (f: string) => f != id;
    if id !in ids then FilterAllPass(ids, keep); Filter(ids, keep)
    else Filter(ids, keep)
  }

  /** The toggle: a present id is removed (all its occurrences), an absent id
      is appended at the end. */
  function Toggle(prev: seq<string>, id: string): (next: seq<string>)
    ensures id in next <==> id !in prev
    ensures forall other :: other != id ==> (other in next <==> other in prev)
    ensures id !in prev ==> next == prev + [id]
    ensures id in prev ==> |next| < |prev|
  {
    if id in prev then
      var r := Without(prev, id);
      WithoutShrinks(prev, id);
      r
    else
      prev + [id]
  }

  /** Removing a present id makes the list strictly shorter. */
  lemma {:induction false} WithoutShrinks(ids: seq<string>, id: string)
    requires id in ids
    ensures |Without(ids, id)| < |ids|
  {
    if ids[0] != id {
      assert id in ids[1..];
      WithoutShrinks(ids[1..], id);
    }
  }

  /** Toggling keeps every other id in place: with `id` struck out, the list
      before and after are the same, so other ids keep their membership,
      their number of occurrences and their relative order. */
  lemma ToggleKeepsOthers(prev: seq<string>, id: string)
    ensures Without(Toggle(prev, id), id) == Without(prev, id)
  {
    if id in prev {
      FilterIdempotent(prev, (f: string) => f != id);
    } else {
      FilterAppend(prev, [id], (f: string) => f != id);
      assert Without([id], id) == [];
    }
  }

  /** The number of occurrences after a toggle: none of a present id, one of
      an absent id, and the same as before for every other id. */
  lemma ToggleCounts(prev: seq<string>, id: string, other: string)
    ensures multiset(Toggle(prev, id))[id] == if id in prev then 0 else 1
    ensures other != id ==> multiset(Toggle(prev, id))[other] == multiset(prev)[other]
  {
    var keep := (f: string) => f != id;
    if id in prev {
      FilterCount(prev, keep, id);
      FilterCount(prev, keep, other);
    } else {
      assert multiset(prev + [id]) == multiset(prev) + multiset([id]);
    }
  }

  /** Toggling an absent id twice gives back the original list. */
  lemma ToggleTwiceAbsentRestores(prev: seq<string>, id: string)
    requires id !in prev
    ensures Toggle(Toggle(prev, id), id) == prev
  {
    var keep := (f: string) => f != id;
    FilterAppend(prev, [id], keep);
    FilterAllPass(prev, keep);
    assert Without([id], id) == [];
  }

  /** Toggling a present id twice keeps the same members but leaves one
      occurrence of the id, at the end. */
  lemma ToggleTwicePresentMovesToEnd(prev: seq<string>, id: string)
    requires id in prev
    ensures Toggle(Toggle(prev, id), id) == Without(prev, id) + [id]
    ensures forall x :: x in Toggle(Toggle(prev, id), id) <==> x in prev
  {
  }

  /** A list without repeated ids keeps that property under toggling, and
      its set of ids changes by exactly `id`: the symmetric difference. */
  lemma ToggleKeepsDistinct(prev: seq<string>, id: string)
    requires Distinct(prev)
    ensures Distinct(Toggle(prev, id))
    ensures (set x | x in Toggle(prev, id)) ==
              if id in prev then (set x | x in prev) - {id} else (set x | x in prev) + {id}
  {
    if id in prev {
      FilterKeepsDistinct(prev, (f: string) => f != id);
    }
  }
}

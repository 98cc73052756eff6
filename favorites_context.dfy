/**
 * The in-memory favourites provider: a list of item ids held in React
 * state, a `toggleFavorite` updater that removes every copy of a present id
 * or appends an absent one, and the `isFavorite` membership test.
 */
module FavoritesContext {
  import opened Arrays

  /** `isFavorite(id)`: `favorites.includes(id)`. */
  function IsFavorite(favorites: seq<string>, id: string): (r: bool)
    ensures r <==> id in favorites
  {
    Includes(favorites, id)
  }

  /**
   * The updater passed to `setFavorites`:
   * `prev.includes(id) ? prev.filter(fav => fav !== id) : [...prev, id]`.
   */
  function Toggle(prev: seq<string>, id: string): (r: seq<string>)
    ensures IsFavorite(r, id) == !IsFavorite(prev, id)
    ensures forall y {:trigger multiset(r)[y]} :: y != id ==> multiset(r)[y] == multiset(prev)[y]
  {
    if Includes(prev, id) then Without(prev, id) else prev + [id]
  }

  /** An absent id is appended at the end, after the unchanged old list. */
  lemma ToggleAbsent(prev: seq<string>, id: string)
    requires !IsFavorite(prev, id)
    ensures |Toggle(prev, id)| == |prev| + 1
    ensures Toggle(prev, id)[..|prev|] == prev && Toggle(prev, id)[|prev|] == id
  {
  }

  /** A present id loses every occurrence, and nothing else is lost. */
  lemma TogglePresent(prev: seq<string>, id: string)
    requires IsFavorite(prev, id)
    ensures multiset(Toggle(prev, id))[id] == 0
    ensures |Toggle(prev, id)| == |prev| - multiset(prev)[id]
    ensures Toggle(prev, id) == Without(prev, id)
  {
  }

  /** The other ids keep both their membership and their relative order. */
  lemma {:induction false} ToggleKeepsOthers(prev: seq<string>, id: string)
    ensures Without(Toggle(prev, id), id) == Without(prev, id)
    ensures forall y :: y != id ==> (IsFavorite(Toggle(prev, id), y) <==> IsFavorite(prev, y))
  {
    if IsFavorite(prev, id) {
      WithoutAbsent(Without(prev, id), id);
    } else {
      WithoutConcat(prev, [id], id);
      WithoutAbsent(prev, id);
      assert Without([id], id) == [];
    }
    forall y | y != id ensures IsFavorite(Toggle(prev, id), y) <==> IsFavorite(prev, y) {
      assert multiset(Toggle(prev, id))[y] == multiset(prev)[y];
    }
  }

  /** A duplicate-free list stays duplicate-free. */
  lemma ToggleKeepsNoDup(prev: seq<string>, id: string)
    requires NoDup(prev)
    ensures NoDup(Toggle(prev, id))
  {
    var r := Toggle(prev, id);
    forall y | y in r ensures multiset(r)[y] <= 1 {
      if y != id {
        assert multiset(r)[y] == multiset(prev)[y];
      } else if !IsFavorite(prev, id) {
        assert multiset(r)[y] == multiset(prev)[y] + multiset([id])[y];
      }
    }
  }

  /** Toggling an absent id twice gives back exactly the original list. */
  lemma {:induction false} ToggleAbsentTwice(prev: seq<string>, id: string)
    requires !IsFavorite(prev, id)
    ensures Toggle(Toggle(prev, id), id) == prev
  {
    WithoutConcat(prev, [id], id);
    WithoutAbsent(prev, id);
    assert Without([id], id) == [];
  }

  /**
   * Toggling a present id twice does not restore the list: all its copies
   * collapse into one, moved to the end.
   */
  lemma {:induction false} TogglePresentTwice(prev: seq<string>, id: string)
    requires IsFavorite(prev, id)
    ensures Toggle(Toggle(prev, id), id) == Without(prev, id) + [id]
  {
  }

  /**
   * Toggling twice gives back the list exactly when the id was absent, or
   * occurred once, as the last element.
   */
  lemma {:induction false} ToggleTwiceRestores(prev: seq<string>, id: string)
    ensures Toggle(Toggle(prev, id), id) == prev <==>
      (!IsFavorite(prev, id) || (multiset(prev)[id] == 1 && prev[|prev| - 1] == id))
  {
    if !IsFavorite(prev, id) {
      ToggleAbsentTwice(prev, id);
    } else {
      var w := Without(prev, id);
      assert Toggle(Toggle(prev, id), id) == w + [id];
      if multiset(prev)[id] == 1 && prev[|prev| - 1] == id {
        WithoutLastOnce(prev, id);
      }
      if w + [id] == prev {
        assert prev[|prev| - 1] == id;
        assert multiset(prev)[id] == multiset(w)[id] + multiset([id])[id];
      }
    }
  }

  /** Filtering out an id that occurs once, at the end, just drops that last element. */
  lemma WithoutLastOnce(prev: seq<string>, id: string)
    requires |prev| > 0 && prev[|prev| - 1] == id && multiset(prev)[id] == 1
    ensures Without(prev, id) + [id] == prev
  {
    var p := prev[..|prev| - 1];
    assert prev == p + [id];
    assert multiset(prev)[id] == multiset(p)[id] + multiset([id])[id];
    WithoutConcat(p, [id], id);
    WithoutAbsent(p, id);
    assert Without([id], id) == [];
  }

  /** A concrete list on which toggling twice changes the order. */
  lemma ToggleTwiceReorders()
    ensures Toggle(Toggle(["a", "b"], "a"), "a") == ["b", "a"]
  {
    assert Toggle(["a", "b"], "a") == ["b"] by {
      assert Includes(["a", "b"], "a");
      assert Without(["a", "b"], "a") == [] + Without(["b"], "a");
      assert Without(["b"], "a") == ["b"] + Without([], "a");
    }
  }

  /** `n` successive toggles of the same id. */
  function ToggleTimes(prev: seq<string>, id: string, n: nat): seq<string>
  {
    if n == 0 then prev else Toggle(ToggleTimes(prev, id, n - 1), id)
  }

  /** Parity of a toggle count, counted down one toggle at a time. */
  predicate Even(n: nat)
  {
    if n == 0 then true else !Even(n - 1)
  }

  /** After an even number of toggles membership is back, after an odd number it is flipped. */
  lemma {:induction false} ToggleParity(prev: seq<string>, id: string, n: nat)
    ensures IsFavorite(ToggleTimes(prev, id, n), id) <==> (IsFavorite(prev, id) == Even(n))
  {
    if n > 0 {
      ToggleParity(prev, id, n - 1);
    }
  }

  /** The list after toggling each id of `ids` in turn. */
  function ToggleAll(prev: seq<string>, ids: seq<string>): seq<string>
    decreases |ids|
  {
    if ids == [] then prev else ToggleAll(Toggle(prev, ids[0]), ids[1..])
  }

  /** Every list reachable from the empty one by toggles is duplicate-free. */
  lemma {:induction false} ReachableNoDup(prev: seq<string>, ids: seq<string>)
    requires NoDup(prev)
    ensures NoDup(ToggleAll(prev, ids))
    decreases |ids|
  {
    if ids != [] {
      ToggleKeepsNoDup(prev, ids[0]);
      ReachableNoDup(Toggle(prev, ids[0]), ids[1..]);
    }
  }

  /** The provider starts from `useState([])`, so all its states are duplicate-free. */
  lemma FromEmptyNoDup(ids: seq<string>)
    ensures NoDup(ToggleAll([], ids))
  {
    ReachableNoDup([], ids);
  }
}

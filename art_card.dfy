/**
 * The favourite logic of the `ArtCard` component: a local `isFavorite`
 * flag, an effect that resets it from the `favorites` id list prop, and a
 * `toggleFavorite` callback that reads the stored list, removes or appends
 * according to the flag, writes the whole list back, flips the flag and
 * then calls `onFavoriteChange` when one was passed.
 */
module ArtCard {
  import opened Wrappers
  import opened Arrays
  import opened Storage
  import UseFavourite

  /**
   * The list the card's `toggleFavorite` writes: with the flag set, every
   * entry with the item's id is filtered out; otherwise the item is pushed,
   * with no membership check.
   */
  function Updated(isFavorite: bool, list: seq<Entry>, item: Entry): (r: seq<Entry>)
    ensures isFavorite ==> forall i :: 0 <= i < |r| ==> r[i].id != item.id
    ensures isFavorite ==> forall e: Entry {:trigger multiset(r)[e]} ::
      e.id != item.id ==> multiset(r)[e] == multiset(list)[e]
    ensures !isFavorite ==> |r| == |list| + 1 && r[..|list|] == list && r[|list|] == item
  {
    if isFavorite then RemoveById(list, item.id) else list + [item]
  }

  /** The card writes what the hook writes for the same item under its own id. */
  lemma UpdatedAsHook(isFavorite: bool, list: seq<Entry>, item: Entry)
    ensures Updated(isFavorite, list, item) == UseFavourite.Updated(isFavorite, list, item.id, Some(item))
  {
  }

  /** With the flag set, exactly the entries with the item's id go, the rest stay in order. */
  lemma UpdatedRemoves(list: seq<Entry>, item: Entry)
    ensures !SomeId(Updated(true, list, item), item.id)
    ensures Ids(Updated(true, list, item)) == Without(Ids(list), item.id)
    ensures forall e: Entry {:trigger multiset(Updated(true, list, item))[e]} ::
      e.id != item.id ==> multiset(Updated(true, list, item))[e] == multiset(list)[e]
  {
    UseFavourite.UpdatedRemoves(list, item.id, Some(item));
  }

  /**
   * With the flag clear the item is appended whatever the list holds, so a
   * flag that is stale (clear while the item is stored) creates a duplicate.
   */
  lemma StaleFlagDuplicates(list: seq<Entry>, item: Entry)
    ensures Updated(false, list, item) == list + [item]
    ensures CountId(Updated(false, list, item), item.id) == CountId(list, item.id) + 1
    ensures SomeId(list, item.id) ==> !NoDupIds(Updated(false, list, item))
  {
    UseFavourite.UpdatedAppendsUnchecked(list, item.id, item);
  }

  /** A flag that agrees with a duplicate-free list keeps agreeing, and the list stays duplicate-free. */
  lemma UpdatedKeepsSync(isFavorite: bool, list: seq<Entry>, item: Entry)
    requires NoDupIds(list) && isFavorite == SomeId(list, item.id)
    ensures NoDupIds(Updated(isFavorite, list, item))
    ensures SomeId(Updated(isFavorite, list, item), item.id) == !isFavorite
  {
    UseFavourite.UpdatedKeepsSync(isFavorite, list, item.id, item);
  }

  /**
   * Adding and then removing leaves the list with every entry of the item's
   * id gone, the others in order; when the id was absent, that is the
   * original list.
   */
  lemma {:induction false} UpdatedTwice(list: seq<Entry>, item: Entry)
    ensures Updated(true, Updated(false, list, item), item) == RemoveById(list, item.id)
    ensures !SomeId(list, item.id) ==> Updated(true, Updated(false, list, item), item) == list
  {
    RemoveByIdConcat(list, [item], item.id);
    assert RemoveById([item], item.id) == [];
    if !SomeId(list, item.id) {
      RemoveByIdAbsent(list, item.id);
    }
  }

  /** One mounted card. */
  class Card {
    var item: Entry
    const store: Store
    const hasOnFavoriteChange: bool
    var isFavorite: bool
    /** How many times `onFavoriteChange` has been called. */
    var favoriteChanges: nat

    /** The flag agrees with the duplicate-free list the store currently holds. */
    ghost predicate InSync()
      reads this, store
    {
      ReadList(store.favorites).Ok?
      && NoDupIds(ReadList(store.favorites).value)
      && isFavorite == SomeId(ReadList(store.favorites).value, item.id)
    }

    /** `useState(false)`: the first render, before the effect runs. */
    constructor (item: Entry, store: Store, hasOnFavoriteChange: bool)
      ensures this.item == item && this.store == store && this.hasOnFavoriteChange == hasOnFavoriteChange
      ensures !isFavorite && favoriteChanges == 0
    {
      this.item := item;
      this.store := store;
      this.hasOnFavoriteChange := hasOnFavoriteChange;
      isFavorite := false;
      favoriteChanges := 0;
    }

    /**
     * The effect that runs whenever the `favorites` prop or `item.id`
     * changes: the flag becomes `favorites.includes(item.id)`. When the prop
     * is the id list of what the store holds (as the catalog screen builds
     * it with `map(fav => fav.id)`), the card is then in sync with the store.
     */
    method SyncFavorite(favorites: seq<string>, item: Entry)
      modifies this`item, this`isFavorite
      ensures this.item == item
      ensures isFavorite == Includes(favorites, item.id)
      ensures isFavorite <==> item.id in favorites
      ensures (ReadList(store.favorites).Ok? && favorites == Ids(ReadList(store.favorites).value)
               && NoDupIds(ReadList(store.favorites).value)) ==> InSync()
    {
      this.item := item;
      isFavorite := Includes(favorites, item.id);
    }

    /**
     * `toggleFavorite`. A rejected read, a throwing parse, `filter` or
     * `push` called on a parsed value that is not an array (the card always
     * calls one of them), or a rejected write lands in the `catch`, which
     * only logs: store, flag and callback count
     * are then as they were. Otherwise the store holds `Updated(...)` of the
     * list read, the flag is flipped and `onFavoriteChange`, when given, has
     * run exactly once.
     */
    method ToggleFavorite(readFails: bool, writeFails: bool) returns (outcome: Outcome)
      modifies this`isFavorite, this`favoriteChanges, store`favorites
      ensures outcome == (if readFails then Fail(ReadRejected)
                          else if ReadList(old(store.favorites)).Err? then Fail(ReadList(old(store.favorites)).error)
                          else if writeFails then Fail(WriteRejected)
                          else Pass)
      ensures !readFails && old(store.favorites) == Some(Malformed) ==> outcome == Fail(ParseThrew)
      ensures !readFails && old(store.favorites).Some? && old(store.favorites).value.NonArray? ==>
        outcome == Fail(NotAnArray)
      ensures outcome == Pass && (old(store.favorites) == None || old(store.favorites) == Some(Blank)) ==>
        store.favorites == Some(Entries(Updated(old(isFavorite), [], item)))
      ensures outcome == Pass && old(store.favorites).Some? && old(store.favorites).value.Entries? ==>
        store.favorites == Some(Entries(Updated(old(isFavorite), old(store.favorites).value.list, item)))
      ensures outcome.Fail? ==>
        store.favorites == old(store.favorites) && isFavorite == old(isFavorite)
        && favoriteChanges == old(favoriteChanges)
      ensures outcome == Pass ==>
        store.favorites == Some(Entries(Updated(old(isFavorite), ReadList(old(store.favorites)).value, item)))
        && isFavorite == !old(isFavorite)
        && favoriteChanges == old(favoriteChanges) + (if hasOnFavoriteChange then 1 else 0)
      ensures old(InSync()) ==> InSync()
    {
      if readFails {
        return Fail(ReadRejected);
      }
      var favorites := store.favorites;
      var parsed := ReadList(favorites);
      if parsed.Err? {
        assert favorites == Some(Malformed) ==> parsed.error == ParseThrew;
        return Fail(parsed.error);
      }
      assert favorites == None || favorites == Some(Blank) ==> parsed.value == [];
      assert favorites.Some? && favorites.value.Entries? ==> parsed.value == favorites.value.list;
      var updatedFavorites := parsed.value;
      if old(InSync()) {
        UpdatedKeepsSync(isFavorite, parsed.value, item);
      }
      if isFavorite {
        updatedFavorites := RemoveById(updatedFavorites, item.id);
      } else {
        updatedFavorites := updatedFavorites + [item];
      }
      assert updatedFavorites == Updated(isFavorite, parsed.value, item);
      if writeFails {
        return Fail(WriteRejected);
      }
      store.favorites := Some(Entries(updatedFavorites));
      isFavorite := !isFavorite;
      if hasOnFavoriteChange {
        favoriteChanges := favoriteChanges + 1;
      }
      outcome := Pass;
    }
  }

  /**
   * A user taps the heart twice on a card whose flag is clear, with no
   * other writer and no failure: the stored list ends as the list first
   * read with every entry of the item's id removed, which is that list
   * itself when the id was absent.
   */
  method ToggleTwice(card: Card) returns (first: Outcome, second: Outcome)
    requires !card.isFavorite && ReadList(card.store.favorites).Ok?
    modifies card`isFavorite, card`favoriteChanges, card.store`favorites
    ensures first == Pass && second == Pass
    ensures card.store.favorites == Some(Entries(RemoveById(old(ReadList(card.store.favorites).value), card.item.id)))
    ensures !SomeId(old(ReadList(card.store.favorites).value), card.item.id) ==>
      card.store.favorites == Some(Entries(old(ReadList(card.store.favorites).value)))
    ensures !card.isFavorite
    ensures card.favoriteChanges == old(card.favoriteChanges) + (if card.hasOnFavoriteChange then 2 else 0)
  {
    ghost var list := ReadList(card.store.favorites).value;
    first := card.ToggleFavorite(false, false);
    second := card.ToggleFavorite(false, false);
    UpdatedTwice(list, card.item);
  }
}

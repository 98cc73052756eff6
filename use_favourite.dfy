/**
 * The `useFavorites(id, item?)` hook: a boolean `isFavorite` state that
 * starts false, `checkFavorite`, which sets it from the stored list, and
 * `toggleFavorite`, which reads the stored list, removes or appends
 * according to the flag it holds, writes the whole list back and only then
 * flips the flag.
 */
module UseFavourite {
  import opened Wrappers
  import opened Storage

  /**
   * The list `toggleFavorite` writes: with the flag set, every entry with
   * the hook's `id` is filtered out; otherwise `item`, when supplied, is
   * pushed without looking at what is already stored.
   */
  function Updated(isFavorite: bool, list: seq<Entry>, id: string, item: Option<Entry>): (r: seq<Entry>)
    ensures isFavorite ==> forall i :: 0 <= i < |r| ==> r[i].id != id
    ensures isFavorite ==> forall e: Entry {:trigger multiset(r)[e]} :: e.id != id ==> multiset(r)[e] == multiset(list)[e]
    ensures !isFavorite ==> |r| == |list| + (if item.Some? then 1 else 0) && r[..|list|] == list
    ensures !isFavorite && item.Some? ==> r[|list|] == item.value
  {
    if isFavorite then RemoveById(list, id)
    else if item.Some? then list + [item.value]
    else list
  }

  /** With the flag set, exactly the entries with `id` go, the rest stay in order. */
  lemma UpdatedRemoves(list: seq<Entry>, id: string, item: Option<Entry>)
    ensures !SomeId(Updated(true, list, id, item), id)
    ensures Ids(Updated(true, list, id, item)) == Arrays.Without(Ids(list), id)
    ensures forall e: Entry {:trigger multiset(Updated(true, list, id, item))[e]} ::
      e.id != id ==> multiset(Updated(true, list, id, item))[e] == multiset(list)[e]
  {
    IdsRemoveById(list, id);
  }

  /**
   * With the flag clear, a supplied item is appended whatever the list
   * holds: the count of its id goes up by one even when it was already there.
   */
  lemma UpdatedAppendsUnchecked(list: seq<Entry>, id: string, e: Entry)
    ensures Updated(false, list, id, Some(e)) == list + [e]
    ensures CountId(Updated(false, list, id, Some(e)), e.id) == CountId(list, e.id) + 1
    ensures SomeId(list, e.id) ==> !NoDupIds(Updated(false, list, id, Some(e)))
  {
    AppendCount(list, e, e.id);
    if SomeId(list, e.id) {
      var r := list + [e];
      assert e.id in Ids(r) && multiset(Ids(r))[e.id] >= 2;
    }
  }

  /** With the flag clear and no item, the list read is written back as it was. */
  lemma UpdatedWithoutItem(list: seq<Entry>, id: string)
    ensures Updated(false, list, id, None) == list
  {
  }

  /**
   * When the flag agrees with the stored list, the list is duplicate-free
   * and the item carries the hook's id, a toggle keeps all of that.
   */
  lemma UpdatedKeepsSync(isFavorite: bool, list: seq<Entry>, id: string, e: Entry)
    requires NoDupIds(list) && isFavorite == SomeId(list, id) && e.id == id
    ensures NoDupIds(Updated(isFavorite, list, id, Some(e)))
    ensures SomeId(Updated(isFavorite, list, id, Some(e)), id) == !isFavorite
  {
    var r := Updated(isFavorite, list, id, Some(e));
    if isFavorite {
      IdsRemoveById(list, id);
      forall y | y in Ids(r) ensures multiset(Ids(r))[y] <= 1 {
        assert multiset(Ids(r))[y] == multiset(Ids(list))[y];
      }
    } else {
      IdsConcat(list, [e]);
      forall y | y in Ids(r) ensures multiset(Ids(r))[y] <= 1 {
        assert multiset(Ids(r))[y] == multiset(Ids(list))[y] + multiset([e.id])[y];
      }
    }
  }

  /** One mounted instance of the hook. */
  class FavouriteHook {
    const id: string
    const item: Option<Entry>
    const store: Store
    var isFavorite: bool

    /** The flag agrees with the list the store currently holds. */
    ghost predicate InSync()
      reads this, store
    {
      ReadList(store.favorites).Ok? && isFavorite == SomeId(ReadList(store.favorites).value, id)
    }

    /** `useState(false)`: the first render, before the mount effect runs. */
    constructor (id: string, item: Option<Entry>, store: Store)
      ensures this.id == id && this.item == item && this.store == store
      ensures !isFavorite
    {
      this.id := id;
      this.item := item;
      this.store := store;
      isFavorite := false;
    }

    /**
     * `checkFavorite`, which the mount effect calls. There is no `catch`,
     * so a rejected read, a throwing parse or `some` called on a parsed
     * value that is not an array ends it with the flag untouched; a missing
     * key or empty string leaves the flag alone; a stored array sets the
     * flag to whether some entry has the hook's id.
     */
    method CheckFavorite(readFails: bool) returns (outcome: Outcome)
      modifies this`isFavorite
      ensures readFails ==> outcome == Fail(ReadRejected) && isFavorite == old(isFavorite)
      ensures !readFails && store.favorites == Some(Malformed) ==>
        outcome == Fail(ParseThrew) && isFavorite == old(isFavorite)
      ensures !readFails && store.favorites.Some? && store.favorites.value.NonArray? ==>
        outcome == Fail(NotAnArray) && isFavorite == old(isFavorite)
      ensures !readFails && (store.favorites == None || store.favorites == Some(Blank)) ==>
        outcome == Pass && isFavorite == old(isFavorite)
      ensures !readFails && store.favorites.Some? && store.favorites.value.Entries? ==>
        outcome == Pass && isFavorite == SomeId(store.favorites.value.list, id) && InSync()
    {
      if readFails {
        return Fail(ReadRejected);
      }
      var favorites := store.favorites;
      if favorites.Some? && !favorites.value.Blank? {
        var parsed := ReadList(favorites);
        if parsed.Err? {
          return Fail(parsed.error);
        }
        isFavorite := SomeId(parsed.value, id);
      }
      outcome := Pass;
    }

    /**
     * `toggleFavorite`. A rejected read, a throwing parse, `filter` or
     * `push` called on a parsed value that is not an array, or a rejected
     * write lands in the `catch`, which only logs: the store and the flag
     * are then as they were. Otherwise the store holds what was computed
     * and the flag is flipped, even when no item was given. With the flag
     * clear and no item, no array method runs, so even a stored non-array
     * value is written back and the call succeeds.
     */
    method ToggleFavorite(readFails: bool, writeFails: bool) returns (outcome: Outcome)
      modifies this`isFavorite, store`favorites
      ensures outcome == (if readFails then Fail(ReadRejected)
                          else if ReadList(old(store.favorites)).Err?
                                  && (old(store.favorites) == Some(Malformed) || old(isFavorite) || item.Some?)
                            then Fail(ReadList(old(store.favorites)).error)
                          else if writeFails then Fail(WriteRejected)
                          else Pass)
      ensures outcome.Fail? ==> store.favorites == old(store.favorites) && isFavorite == old(isFavorite)
      ensures outcome == Pass ==> isFavorite == !old(isFavorite)
      ensures !readFails && old(store.favorites) == Some(Malformed) ==> outcome == Fail(ParseThrew)
      ensures (!readFails && old(store.favorites).Some? && old(store.favorites).value.NonArray?
               && (old(isFavorite) || item.Some?)) ==> outcome == Fail(NotAnArray)
      ensures outcome == Pass && (old(store.favorites) == None || old(store.favorites) == Some(Blank)) ==>
        store.favorites == Some(Entries(Updated(old(isFavorite), [], id, item)))
      ensures outcome == Pass && old(store.favorites).Some? && old(store.favorites).value.Entries? ==>
        store.favorites == Some(Entries(Updated(old(isFavorite), old(store.favorites).value.list, id, item)))
      ensures outcome == Pass && ReadList(old(store.favorites)).Ok? ==>
        store.favorites == Some(Entries(Updated(old(isFavorite), ReadList(old(store.favorites)).value, id, item)))
      ensures outcome == Pass && ReadList(old(store.favorites)).Err? ==>
        old(store.favorites).value.NonArray? && !old(isFavorite) && item.None?
        && store.favorites == old(store.favorites)
      ensures outcome == Pass && !old(isFavorite) && item.None? ==>
        isFavorite
        && store.favorites == (if ReadList(old(store.favorites)).Ok?
                               then Some(Entries(ReadList(old(store.favorites)).value))
                               else old(store.favorites))
      ensures old(InSync()) && (item.Some? ==> item.value.id == id) && (!old(isFavorite) ==> item.Some?) ==> InSync()
      ensures old(InSync()) && outcome == Pass && !old(isFavorite) && item.None? ==> !InSync()
    {
      if readFails {
        return Fail(ReadRejected);
      }
      var favorites := store.favorites;
      if favorites == Some(Malformed) {
        return Fail(ParseThrew);
      }
      var written: Blob;
      if favorites.Some? && favorites.value.NonArray? {
        if isFavorite || item.Some? {
          return Fail(NotAnArray);
        }
        written := favorites.value;
      } else {
        var updatedFavorites := ReadList(favorites).value;
        if isFavorite {
          updatedFavorites := RemoveById(updatedFavorites, id);
        } else if item.Some? {
          AppendCount(updatedFavorites, item.value, id);
          updatedFavorites := updatedFavorites + [item.value];
        }
        written := Entries(updatedFavorites);
      }
      if writeFails {
        return Fail(WriteRejected);
      }
      store.favorites := Some(written);
      isFavorite := !isFavorite;
      outcome := Pass;
    }
  }
}

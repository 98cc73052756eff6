/**
 * The persisted favourites: the entries kept under the AsyncStorage key
 * "favorites", the array operations the screens apply to them
 * (`map(fav => fav.id)`, `some(fav => fav.id === id)`,
 * `filter(fav => fav.id !== id)`), and the read step
 * `favorites ? JSON.parse(favorites) : []` shared by both toggles.
 */
module Storage {
  import opened Wrappers
  import opened Arrays

  /** The storage key every screen reads and writes. */
  const Key: string := "favorites"

  /** A favourited art item, stored whole (denormalised) in the blob. */
  datatype Entry = Entry(
    id: string,
    artName: string,
    price: real,
    image: string,
    limitedTimeDeal: Option<real>,
    ratings: seq<real>)

  /**
   * What `AsyncStorage.getItem(Key)` can hand back once it is present:
   * a JSON array of entries, the empty string (falsy, so read as absent),
   * text that `JSON.parse` rejects, or JSON that parses to a value other
   * than an array (`null`, `{}`, `5`, ...), kept as its JSON text.
   */
  datatype Blob = Entries(list: seq<Entry>) | Blank | Malformed | NonArray(json: string)

  /**
   * Why a toggle or check stopped before its last step: a rejected
   * `getItem`, a throwing `JSON.parse`, an array method (`filter`, `push`,
   * `some`) called on a parsed value that is not an array, or a rejected
   * `setItem`.
   */
  datatype Fault = ReadRejected | ParseThrew | NotAnArray | WriteRejected

  /** How an async handler ended: `Fail` is the error the `catch` logs. */
  datatype Outcome = Pass | Fail(fault: Fault)

  /** The single key/value cell: `None` is the missing key. */
  class Store {
    var favorites: Option<Blob>

    constructor (initial: Option<Blob>)
      ensures favorites == initial
    {
      favorites := initial;
    }
  }

  /** `list.map(fav => fav.id)`: the ids in list order. */
  function Ids(s: seq<Entry>): (r: seq<string>)
    ensures |r| == |s|
    ensures forall i :: 0 <= i < |s| ==> r[i] == s[i].id
  {
    if s == [] then [] else [s[0].id] + Ids(s[1..])
  }

  /** `list.some(fav => fav.id === id)`. */
  function SomeId(s: seq<Entry>, id: string): (r: bool)
    ensures r <==> exists i :: 0 <= i < |s| && s[i].id == id
    ensures r <==> id in Ids(s)
  {
    if s == [] then false
    else
      assert forall i :: 0 < i < |s| ==> s[i] == s[1..][i - 1];
      s[0].id == id || SomeId(s[1..], id)
  }

  /** How many entries carry `id`. */
  function CountId(s: seq<Entry>, id: string): nat
  {
    multiset(Ids(s))[id]
  }

  /** No two entries share an id. */
  predicate NoDupIds(s: seq<Entry>)
  {
    NoDup(Ids(s))
  }

  lemma {:induction false} IdsConcat(a: seq<Entry>, b: seq<Entry>)
    ensures Ids(a + b) == Ids(a) + Ids(b)
  {
    assert forall i :: 0 <= i < |a| ==> (a + b)[i] == a[i];
    assert forall i :: |a| <= i < |a| + |b| ==> (a + b)[i] == b[i - |a|];
  }

  /**
   * `list.filter(fav => fav.id !== id)`: drops exactly the entries with
   * that id and keeps the others, in order.
   */
  function RemoveById(s: seq<Entry>, id: string): (r: seq<Entry>)
    ensures forall i :: 0 <= i < |r| ==> r[i].id != id
    ensures forall e: Entry {:trigger multiset(r)[e]} :: e.id != id ==> multiset(r)[e] == multiset(s)[e]
  {
    if s == [] then []
    else
      assert s == [s[0]] + s[1..];
      var head := if s[0].id == id then [] else [s[0]];
      var rest := RemoveById(s[1..], id);
      IdsConcat(head, rest);
      head + rest
  }

  /** Filtering entries by id is filtering their id list by that id. */
  lemma {:induction false} IdsRemoveById(s: seq<Entry>, id: string)
    ensures Ids(RemoveById(s, id)) == Without(Ids(s), id)
  {
    if s != [] {
      assert s == [s[0]] + s[1..];
      var head := if s[0].id == id then [] else [s[0]];
      IdsRemoveById(s[1..], id);
      IdsConcat(head, RemoveById(s[1..], id));
      IdsConcat([s[0]], s[1..]);
      assert Ids(s)[0] == s[0].id && Ids(s)[1..] == Ids(s[1..]);
    }
  }

  lemma {:induction false} RemoveByIdConcat(a: seq<Entry>, b: seq<Entry>, id: string)
    ensures RemoveById(a + b, id) == RemoveById(a, id) + RemoveById(b, id)
  {
    if a == [] {
      assert a + b == b;
    } else {
      var head := if a[0].id == id then [] else [a[0]];
      assert (a + b)[0] == a[0];
      assert (a + b)[1..] == a[1..] + b;
      assert RemoveById(a + b, id) == head + RemoveById(a[1..] + b, id);
      assert RemoveById(a, id) == head + RemoveById(a[1..], id);
      RemoveByIdConcat(a[1..], b, id);
    }
  }

  lemma {:induction false} RemoveByIdAbsent(s: seq<Entry>, id: string)
    requires !SomeId(s, id)
    ensures RemoveById(s, id) == s
  {
    if s != [] {
      assert s[0].id != id && !SomeId(s[1..], id);
      RemoveByIdAbsent(s[1..], id);
      assert s == [s[0]] + s[1..];
    }
  }

  /** Appending one entry raises the count of its id by one and leaves the others. */
  lemma AppendCount(s: seq<Entry>, e: Entry, id: string)
    ensures CountId(s + [e], id) == CountId(s, id) + (if e.id == id then 1 else 0)
  {
    IdsConcat(s, [e]);
  }

  /**
   * `favorites ? JSON.parse(favorites) : []`, taken as the list the array
   * methods after it work on: a missing key or an empty string reads as the
   * empty list and an array as itself. Unparsable text makes `JSON.parse`
   * throw; a parsed value that is not an array is no list, and any array
   * method applied to it throws.
   */
  function ReadList(stored: Option<Blob>): Result<seq<Entry>, Fault>
  {
    match stored
    case None => Ok([])
    case Some(Blank) => Ok([])
    case Some(Entries(list)) => Ok(list)
    case Some(Malformed) => Err(ParseThrew)
    case Some(NonArray(_)) => Err(NotAnArray)
  }
}

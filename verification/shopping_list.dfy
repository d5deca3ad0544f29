/** The persisted document of the shopping-list service and the pure list
    operations that `Create` and `Delete` in index.js perform on it. */
module ShoppingList {
  import opened Wrappers

  /** The client-supplied members of an item other than `id`, each kept as
      its JSON text: no operation of the service looks inside them. */
  type Fields = map<string, string>

  /** One entry of the list: the client's object plus the numeric `id`. */
  datatype Item = Item(id: int, fields: Fields)

  /** The whole persisted state: `{ shoppingList: [...] }`. */
  datatype Doc = Doc(shoppingList: seq<Item>)

  const EmptyDoc := Doc([])

  /** `Read`: the parsed file, or the empty document when the file could not
      be read or its text could not be parsed (`parsed == None`). */
  function Load(parsed: Option<Doc>): (d: Doc)
    ensures parsed.None? ==> d.shoppingList == []
    ensures parsed.Some? ==> d == parsed.value
  {
    match parsed
    case None => EmptyDoc
    case Some(doc) => doc
  }

  /** The id `Create` hands out: one more than the current length. */
  function NextId(list: seq<Item>): (r: int)
  {
    |list| + 1
  }

  /** `item.id === id` where `id` comes from `parseInt`; NaN (None) is
      strictly equal to nothing. */
  predicate Matches(item: Item, id: Option<int>)
  {
    id.Some? && item.id == id.value
  }

  /** `findIndex(item => item.id === id)`, with `None` for -1. */
  function FirstMatch(list: seq<Item>, id: Option<int>): (r: Option<nat>)
    ensures r.None? <==> forall k :: 0 <= k < |list| ==> !Matches(list[k], id)
    ensures r.Some? ==> r.value < |list| && Matches(list[r.value], id)
    ensures r.Some? ==> forall k :: 0 <= k < r.value ==> !Matches(list[k], id)
    ensures id.None? ==> r.None?
  {
    if list == [] then None
    else if Matches(list[0], id) then Some(0)
    else match FirstMatch(list[1..], id)
      case None => None
      case Some(j) => Some(j + 1)
  }

  /** The list after `Create(newItem)`: `newItem.id` is overwritten with
      `NextId(list)` and the item is pushed at the end. */
  function Append(list: seq<Item>, newItem: Item): (r: seq<Item>)
    ensures |r| == |list| + 1
    ensures r[..|list|] == list
    ensures r[|list|].id == |list| + 1 && r[|list|].fields == newItem.fields
  {
    list + [newItem.(id := NextId(list))]
  }

  /** The list after `splice(index, 1)`: the item at `index` is gone and the
      others keep their order. */
  function RemoveAt(list: seq<Item>, index: nat): (r: seq<Item>)
    requires index < |list|
    ensures |r| == |list| - 1
    ensures forall k :: 0 <= k < index ==> r[k] == list[k]
    ensures forall k :: index <= k < |r| ==> r[k] == list[k + 1]
    ensures multiset(r) + multiset{list[index]} == multiset(list)
  {
    assert list == list[..index] + [list[index]] + list[index + 1..];
    list[..index] + list[index + 1..]
  }

  /** Ids as they stand while nothing has been deleted: the item at
      position k carries id k + 1. */
  ghost predicate IdsArePositions(list: seq<Item>)
  {
    forall k :: 0 <= k < |list| ==> list[k].id == k + 1
  }

  ghost predicate UniqueIds(list: seq<Item>)
  {
    forall i, j :: 0 <= i < j < |list| ==> list[i].id != list[j].id
  }

  /** As long as only `Create` has run, ids stay positions, hence unique. */
  lemma AppendKeepsPositions(list: seq<Item>, newItem: Item)
    requires IdsArePositions(list)
    ensures IdsArePositions(Append(list, newItem))
    ensures UniqueIds(Append(list, newItem))
  {
  }

  /** `Create` keeps ids unique exactly when no item already carries the id
      it hands out. */
  lemma AppendUniqueIff(list: seq<Item>, newItem: Item)
    requires UniqueIds(list)
    ensures UniqueIds(Append(list, newItem)) <==> forall k :: 0 <= k < |list| ==> list[k].id != NextId(list)
  {
  }

  /** The id rule is not fresh: once any item but the last has been removed
      from a list built by `Create` alone, the next `Create` hands out the id
      that the old last item still carries. */
  lemma RemoveThenAppendDuplicatesId(list: seq<Item>, index: nat, newItem: Item)
    requires IdsArePositions(list)
    requires index < |list| - 1
    ensures !UniqueIds(Append(RemoveAt(list, index), newItem))
  {
    var rest := RemoveAt(list, index);
    var r := Append(rest, newItem);
    assert r[|rest| - 1] == rest[|rest| - 1] by {
      assert r[|rest| - 1] == r[..|rest|][|rest| - 1];
    }
    assert rest[|rest| - 1] == list[|list| - 1];
    assert r[|rest| - 1].id == r[|rest|].id == |list|;
  }

  /** The concrete case: ids [1, 2, 3], delete id 2, create; the new item
      gets id 3, which the last remaining item already has. */
  lemma DuplicateIdAfterDeletingTwo(a: Fields, b: Fields, c: Fields, body: Item)
    ensures var list := [Item(1, a), Item(2, b), Item(3, c)];
            FirstMatch(list, Some(2)) == Some(1) &&
            RemoveAt(list, 1) == [Item(1, a), Item(3, c)] &&
            Append(RemoveAt(list, 1), body) == [Item(1, a), Item(3, c), body.(id := 3)]
  {
  }
}

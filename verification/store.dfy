/** The service as index.js runs it: the persisted file `data/db.json` as
    state that every routed request reads in full and every successful mutation
    rewrites in full, the two mutating operations, and the request
    handler. */
module Server {
  import opened Wrappers
  import opened ShoppingList
  import opened Router
  import opened JsNumbers

  /** The JSON value a response carries. */
  datatype Payload =
    | Items(items: seq<Item>)
    | Single(item: Item)
    | Message(text: string)

  datatype Response = Response(status: int, payload: Payload)

  class Store {
    /** The document in the file; `None` when the file is missing or its
        text does not parse. */
    var file: Option<Doc>

    constructor (initial: Option<Doc>)
      ensures file == initial
    {
      file := initial;
    }

    /** `Read`: the document, or the empty one on any failure. A failed
        read leaves the file as it is. */
    method Read() returns (data: Doc)
      ensures data == Load(file)
      ensures file.None? ==> data.shoppingList == []
    {
      data := Load(file);
    }

    /** `Update`: the document written out replaces the whole file. */
    method Update(data: Doc)
      modifies this
      ensures file == Some(data)
    {
      file := Some(data);
    }

    /** `Create`: the item gets id `length + 1`, is pushed at the end and the
        document is written back; the stored item is returned. */
    method Create(newItem: Item) returns (added: Item)
      modifies this
      ensures var list := Load(old(file)).shoppingList;
              added.id == |list| + 1 && added.fields == newItem.fields &&
              file == Some(Doc(Append(list, newItem))) &&
              file.value.shoppingList[|list|] == added
    {
      var data := Read();
      added := newItem.(id := NextId(data.shoppingList));
      data := data.(shoppingList := data.shoppingList + [added]);
      Update(data);
    }

    /** `Delete`: the first item whose id equals `id` is spliced out and the
        document written back, and the one-element array of removed items
        is returned; with no such item (NaN included) nothing is written and
        the result is `null` (`None`). */
    method Delete(id: Option<int>) returns (deleted: Option<seq<Item>>)
      modifies this
      ensures var list := Load(old(file)).shoppingList;
              match FirstMatch(list, id)
              case None => deleted == None && file == old(file)
              case Some(i) => deleted == Some([list[i]]) && file == Some(Doc(RemoveAt(list, i)))
    {
      var data := Read();
      var index := FirstMatch(data.shoppingList, id);
      if index.Some? {
        deleted := Some([data.shoppingList[index.value]]);
        data := data.(shoppingList := RemoveAt(data.shoppingList, index.value));
        Update(data);
      } else {
        deleted := None;
      }
    }

    /** The request handler. `body` is the parsed request body, used only by
        the create route. */
    method Handle(httpMethod: string, url: string, body: Item) returns (resp: Response)
      modifies this
      ensures SelectRoute(httpMethod, url) == ListItems ==>
                resp == Response(200, Items(Load(old(file)).shoppingList)) && file == old(file)
      ensures SelectRoute(httpMethod, url) == CreateItem ==>
                var list := Load(old(file)).shoppingList;
                resp == Response(201, Single(Append(list, body)[|list|])) &&
                file == Some(Doc(Append(list, body)))
      ensures SelectRoute(httpMethod, url).DeleteItem? ==>
                var list := Load(old(file)).shoppingList;
                match FirstMatch(list, SelectRoute(httpMethod, url).id)
                case None =>
                  resp == Response(404, Message("Item not found")) && file == old(file)
                case Some(i) =>
                  resp == Response(200, Items([list[i]])) && file == Some(Doc(RemoveAt(list, i)))
      ensures SelectRoute(httpMethod, url) == NoRoute ==>
                resp == Response(404, Message("Route not found")) && file == old(file)
    {
      if url == CollectionPath && httpMethod == "GET" {
        var data := Read();
        resp := Response(200, Items(data.shoppingList));
      } else if url == CollectionPath && httpMethod == "POST" {
        var added := Create(body);
        resp := Response(201, Single(added));
      } else if StartsWith(url, ItemPathPrefix) && httpMethod == "DELETE" {
        var id := ParseInt(LastSegment(url));
        var deleted := Delete(id);
        if deleted.Some? {
          resp := Response(200, Items(deleted.value));
        } else {
          resp := Response(404, Message("Item not found"));
        }
      } else {
        resp := Response(404, Message("Route not found"));
      }
    }
  }

  /** Two GETs with nothing in between answer the same and write nothing. */
  method ListTwice(store: Store, url: string, body: Item) returns (first: Response, second: Response)
    requires SelectRoute("GET", url) == ListItems
    modifies store
    ensures first == second && store.file == old(store.file)
  {
    first := store.Handle("GET", url, body);
    second := store.Handle("GET", url, body);
  }

  /** With no readable file, GET lists nothing, and a POST then writes a
      file whose list holds exactly the posted item with id 1. */
  method StartWithoutFile(store: Store, body: Item) returns (listed: Response, created: Response)
    requires store.file == None
    modifies store
    ensures listed == Response(200, Items([]))
    ensures created == Response(201, Single(body.(id := 1)))
    ensures store.file == Some(Doc([body.(id := 1)]))
  {
    listed := store.Handle("GET", CollectionPath, body);
    created := store.Handle("POST", CollectionPath, body);
  }

  /** `DELETE /shopping-list/2` on ids [1, 2, 3] answers with the removed
      item and leaves ids [1, 3]. */
  method DeleteSecondOfThree(store: Store, a: Fields, b: Fields, c: Fields, body: Item)
    returns (deleted: Response)
    requires store.file == Some(Doc([Item(1, a), Item(2, b), Item(3, c)]))
    modifies store
    ensures deleted == Response(200, Items([Item(2, b)]))
    ensures store.file == Some(Doc([Item(1, a), Item(3, c)]))
  {
    DeleteTwoRoute();
    DuplicateIdAfterDeletingTwo(a, b, c, body);
    deleted := store.Handle("DELETE", "/shopping-list/2", body);
  }

  /** Through the handler: ids [1, 2, 3], `DELETE /shopping-list/2`, then a
      POST; the new item is stored with id 3 beside the old item 3. */
  method DuplicateIdThroughRequests(store: Store, a: Fields, b: Fields, c: Fields, body: Item)
    returns (deleted: Response, created: Response)
    requires store.file == Some(Doc([Item(1, a), Item(2, b), Item(3, c)]))
    modifies store
    ensures deleted == Response(200, Items([Item(2, b)]))
    ensures created == Response(201, Single(body.(id := 3)))
    ensures store.file == Some(Doc([Item(1, a), Item(3, c), body.(id := 3)]))
  {
    deleted := DeleteSecondOfThree(store, a, b, c, body);
    DuplicateIdAfterDeletingTwo(a, b, c, body);
    created := store.Handle("POST", CollectionPath, body);
  }
}

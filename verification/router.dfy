/** The routing decision of the request handler in index.js: which of the
    three routes (list, create, delete) a method and URL select, and the id
    a delete request carries. */
module Router {
  import opened Wrappers
  import opened JsNumbers

  const CollectionPath := "/shopping-list"
  const ItemPathPrefix := "/shopping-list/"

  datatype Route =
    | ListItems
    | CreateItem
    | DeleteItem(id: Option<int>)
    | NoRoute

  predicate StartsWith(s: string, prefix: string)
  {
    |prefix| <= |s| && s[..|prefix|] == prefix
  }

  /** `url.split('/').pop()`: what follows the last '/', or the whole URL
      when it has none. */
  function LastSegment(url: string): (r: string)
    ensures |r| <= |url| && r == url[|url| - |r|..]
    ensures forall k :: 0 <= k < |r| ==> r[k] != '/'
    ensures |r| < |url| ==> url[|url| - |r| - 1] == '/'
  {
    if url == [] || url[|url| - 1] == '/' then []
    else LastSegment(url[..|url| - 1]) + [url[|url| - 1]]
  }

  /** The if/else chain of the handler: an exact path match for GET and
      POST, a prefix match for DELETE, and everything else unrouted. */
  function SelectRoute(httpMethod: string, url: string): (r: Route)
    ensures r == ListItems <==> url == CollectionPath && httpMethod == "GET"
    ensures r == CreateItem <==> url == CollectionPath && httpMethod == "POST"
    ensures r.DeleteItem? <==> StartsWith(url, ItemPathPrefix) && httpMethod == "DELETE"
    ensures r.DeleteItem? ==> r.id == ParseInt(LastSegment(url))
    ensures httpMethod != "GET" && httpMethod != "POST" && httpMethod != "DELETE" ==> r == NoRoute
  {
    if url == CollectionPath && httpMethod == "GET" then ListItems
    else if url == CollectionPath && httpMethod == "POST" then CreateItem
    else if StartsWith(url, ItemPathPrefix) && httpMethod == "DELETE" then
      DeleteItem(ParseInt(LastSegment(url)))
    else NoRoute
  }

  lemma {:induction false} LastSegmentAfterSlash(path: string, segment: string)
    requires forall k :: 0 <= k < |segment| ==> segment[k] != '/'
    ensures LastSegment(path + "/" + segment) == segment
  {
    var url := path + "/" + segment;
    if segment == [] {
      assert url[|url| - 1] == '/';
    } else {
      var init := segment[..|segment| - 1];
      assert url[..|url| - 1] == path + "/" + init;
      LastSegmentAfterSlash(path, init);
      assert init + [segment[|segment| - 1]] == segment;
    }
  }

  /** A DELETE of `/shopping-list/<segment>` selects the delete route with
      the id parsed from the whole segment. */
  lemma DeleteRouteSegment(segment: string)
    requires forall k :: 0 <= k < |segment| ==> segment[k] != '/'
    ensures SelectRoute("DELETE", ItemPathPrefix + segment) == DeleteItem(ParseInt(segment))
  {
    var url := ItemPathPrefix + segment;
    assert url == CollectionPath + "/" + segment;
    assert url[..|ItemPathPrefix|] == ItemPathPrefix;
    assert StartsWith(url, ItemPathPrefix);
    LastSegmentAfterSlash(CollectionPath, segment);
  }

  /** A DELETE of `/shopping-list/<n>`, possibly followed by a query or
      anything else that cannot continue the numeral, selects the delete
      route with id `n`. */
  lemma DeleteRouteCarriesId(n: nat, rest: string)
    requires EndsDecimal(rest)
    requires forall k :: 0 <= k < |rest| ==> rest[k] != '/'
    ensures SelectRoute("DELETE", ItemPathPrefix + Decimal(n) + rest) == DeleteItem(Some(n))
  {
    var segment := Decimal(n) + rest;
    assert forall k :: 0 <= k < |segment| ==> segment[k] != '/' by {
      forall k | 0 <= k < |segment| ensures segment[k] != '/' {
        if k >= |Decimal(n)| {
          assert segment[k] == rest[k - |Decimal(n)|];
        }
      }
    }
    assert ItemPathPrefix + Decimal(n) + rest == ItemPathPrefix + segment;
    DeleteRouteSegment(segment);
    ParseDecimal(n, rest);
  }

  /** A last segment without any decimal digit parses to NaN, so the
      delete route carries no id that can match. */
  lemma DeleteRouteWithoutDigits(segment: string)
    requires forall k :: 0 <= k < |segment| ==> segment[k] != '/' && !IsDecimalDigit(segment[k])
    ensures SelectRoute("DELETE", ItemPathPrefix + segment) == DeleteItem(None)
  {
    DeleteRouteSegment(segment);
    NoDigitsIsNaN(segment);
  }

  /** The concrete request of the duplicate-id scenario: DELETE
      /shopping-list/2 carries the id 2. */
  lemma DeleteTwoRoute()
    ensures SelectRoute("DELETE", "/shopping-list/2") == DeleteItem(Some(2))
  {
    assert Decimal(2) == "2";
    assert ItemPathPrefix + Decimal(2) + [] == "/shopping-list/2";
    DeleteRouteCarriesId(2, []);
  }
}

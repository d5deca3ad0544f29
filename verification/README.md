# Shopping-list service: a Dafny model

The service in `index.js` keeps a shopping list in one JSON file,
`data/db.json`, of the shape `{ "shoppingList": [ {"id": n, ...}, ... ] }`.
Every routed request reads the whole file; a request that matches no route
is answered 404 without reading it. A mutating request changes the list in
memory and writes the whole document back. The HTTP handler knows three routes:

- `GET /shopping-list` answers 200 with the list.
- `POST /shopping-list` creates an item from the body and answers 201 with it.
- `DELETE /shopping-list/<id>` removes the first item with that id. It answers 200 with a
  one-element array holding the removed item, or 404 "Item not found".

Anything else answers 404 "Route not found".

The model has five modules:

- `Wrappers` (`wrappers.dfy`): the `Option` type. `None` stands for a file that
  cannot be read, for NaN and for "no index".
- `ShoppingList` (`shopping_list.dfy`): the item and document values.
  - `Load` is the read fallback: an unreadable or unparsable file gives the empty document.
  - `FirstMatch` is `findIndex` with strict equality. NaN matches nothing.
  - `Append` is the list after `Create`: the new item gets id `length + 1` and is pushed at the end.
  - `RemoveAt` is the list after `splice(index, 1)`.
  - The module also holds the lemmas about ids.
- `JsNumbers` (`parse_int.dfy`): `parseInt` without a radix, following section
  19.2.5 of ECMA-262. It skips leading white space, takes one sign, switches
  to base 16 after `0x`/`0X` and reads the longest run of digits. With no
  digits the result is NaN (`None`).
- `Router` (`router.dfy`): `url.split('/').pop()` as `LastSegment`, and the
  handler's if/else chain as `SelectRoute`.
- `Server` (`store.dfy`): class `Store`, whose field `file` is the persisted
  document. `None` means the file is missing or does not parse.
  - The methods `Read`, `Update`, `Create`, `Delete` and `Handle` read and rewrite
    `file` as `index.js` does.
  - A few client methods follow request sequences through `Handle`.

Ids are not fresh. `Create` uses `length + 1`, so, on a list built by `Create` alone,
deleting any item but the last and then creating one hands out an id that an existing item already carries.
The model keeps this behaviour and proves it: `RemoveThenAppendDuplicatesId`
for any list built by `Create` alone, and `DuplicateIdThroughRequests` for the
ids [1, 2, 3] case through the handler.

Facts about `index.js` that a reader might not expect:

- `index.js` has no PATCH/update route. PATCH requests get the "Route not found" answer (`SelectRoute` ensures
  this for every method other than GET, POST and DELETE).
- A successful DELETE answers with a one-element array, not the bare item.
- Ids can repeat after a deletion, as described above.
- A failed read does not rewrite the file. `Handle` leaves `file` as `None`
  on GET and on a DELETE that finds nothing.

## Model

| member | source | states |
|---|---|---|
| `ShoppingList.Load` | index.js:10-17 | an unreadable or unparsable file yields the document with an empty list; a parsed document is used as it is |
| `Server.Store.Read` | index.js:10-17 | the document read is the fallback applied to the file, and it is empty when the file is missing or corrupt; reading changes nothing |
| `Server.Store.Update` | index.js:20-23 | after a write the file holds exactly the written document |
| `ShoppingList.Append` | index.js:28-29 | the list grows by exactly one, all earlier items are unchanged and in place, and the last item has the client's fields and id = old length + 1 |
| `Server.Store.Create` | index.js:26-32 | the returned item has id = old length + 1 and the client's fields; the file now holds the old list with that same item appended last |
| `ShoppingList.FirstMatch` | index.js:37 | none found iff no item's id equals the requested id; otherwise the index of an item with that id before which no item matches; a NaN id finds nothing |
| `ShoppingList.RemoveAt` | index.js:39 | the list shrinks by one, items before the index stay, items after it shift down by one in order, and the multiset loses exactly the removed item |
| `Server.Store.Delete` | index.js:35-45 | with no match (NaN included) the result is null and the file is untouched; otherwise the result is the one-element sequence holding the first matching item and the file holds the list without exactly that item |
| `ShoppingList.AppendKeepsPositions` | index.js:28-29 | while only creates have happened (item k has id k + 1), a create keeps that shape, so ids stay unique |
| `ShoppingList.AppendUniqueIff` | index.js:28-29 | on a list with unique ids, a create keeps ids unique exactly when no item already has id length + 1 |
| `ShoppingList.RemoveThenAppendDuplicatesId` | index.js:26-45 | on a list built by creates alone, deleting any item but the last and then creating produces two items with the same id |
| `ShoppingList.DuplicateIdAfterDeletingTwo` | index.js:26-45 | ids [1, 2, 3], delete id 2: the list is [1, 3] in that order, and the next create gives the new item id 3 |
| `JsNumbers.TrimStart` | index.js:65 | the result is a suffix of the input, what was dropped is all white space, and the result does not start with white space |
| `JsNumbers.DigitPrefix` | index.js:65 | the result is the longest prefix made only of digits of the radix |
| `JsNumbers.ParseUnsigned` | index.js:65 | NaN exactly when no digit leads: after a `0x`/`0X` prefix no hexadecimal digit follows it, otherwise the text does not start with a decimal digit |
| `JsNumbers.StripSign` | index.js:65 | the text is unchanged, or it starts with '-' or '+' and loses exactly that one character |
| `JsNumbers.ParseSigned` | index.js:65 | NaN exactly when no digit leads after one optional sign |
| `JsNumbers.ParseInt` | index.js:65 | NaN exactly when no digit leads after the leading white space and one optional sign, so "a2" and "- 5" are NaN even though digits come later |
| `JsNumbers.NoDigitsIsNaN` | index.js:65 | text without any decimal digit is NaN |
| `JsNumbers.ParseUnsignedDigits` | index.js:65 | any run of decimal digits, leading zeros included, followed by a non-digit and not forming a `0x` prefix, reads as the value of that run |
| `JsNumbers.ParseUnsignedHex` | index.js:65 | behind `0x` or `0X`, a run of hexadecimal digits followed by a character that is not a hexadecimal digit reads as its base-16 value |
| `JsNumbers.ParseIntUnsigned` | index.js:65 | text that starts with a decimal digit parses to its unsigned value |
| `JsNumbers.ParseIntAfterSign` | index.js:65 | behind '-' the unsigned value is negated, behind '+' it is kept, for any unsigned part, hexadecimal included |
| `JsNumbers.ParseDigits` | index.js:65 | any run of decimal digits followed by text that cannot continue it parses to the run's value |
| `JsNumbers.OneLeadingZero` | index.js:65 | one '0' put before a digit run changes nothing: "02" parses to 2, like "2" |
| `JsNumbers.ParseUnsignedDecimal` | index.js:65 | the unsigned part of a decimal numeral followed by a stop character is its value |
| `JsNumbers.ParseDecimal` | index.js:65 | a decimal numeral followed by a character that cannot continue it parses back to its value |
| `JsNumbers.ParseNegativeDecimal` | index.js:65 | with a leading minus sign the same numeral parses to the negated value |
| `JsNumbers.NaNExamples` | index.js:65 | "a2", "- 5" and "0xg" are NaN |
| `JsNumbers.ParseSkipsWhiteSpace` | index.js:65 | leading white space does not change the result |
| `JsNumbers.HexPrefixExample` | index.js:65 | "0x10" parses to 16 and a bare "0x" to NaN |
| `Router.LastSegment` | index.js:65 | the result is a suffix of the URL containing no '/', and it is preceded by a '/' unless it is the whole URL |
| `Router.SelectRoute` | index.js:49-78 | list iff the URL is exactly /shopping-list and the method GET; create iff exactly /shopping-list and POST; delete iff the URL starts with /shopping-list/ and the method is DELETE, carrying parseInt of the last segment; any other method, PATCH included, is unrouted |
| `Router.LastSegmentAfterSlash` | index.js:65 | the last segment of path + "/" + a slash-free segment is that segment |
| `Router.DeleteRouteSegment` | index.js:64-65 | DELETE /shopping-list/<segment> selects delete with parseInt of the segment |
| `Router.DeleteRouteCarriesId` | index.js:64-65 | DELETE /shopping-list/<n> followed by a query or other text that cannot continue the numeral selects delete with id n |
| `Router.DeleteRouteWithoutDigits` | index.js:64-65 | a last segment without digits selects delete with NaN |
| `Router.DeleteTwoRoute` | index.js:64-65 | DELETE /shopping-list/2 selects delete with id 2 |
| `Server.Store.Handle` | index.js:48-78 | per route: GET answers 200 with the list and writes nothing; POST answers 201 with the stored item and appends it; DELETE answers 200 with the one-element array and removes exactly the first match, or 404 "Item not found" and writes nothing; anything else answers 404 "Route not found" and writes nothing |
| `Server.ListTwice` | index.js:49-52 | two GETs with nothing in between give the same answer and leave the file as it was |
| `Server.StartWithoutFile` | index.js:49-62 | with no readable file, GET lists nothing and a following POST writes a file whose list is exactly the posted item with id 1 |
| `Server.DeleteSecondOfThree` | index.js:64-73 | DELETE /shopping-list/2 on ids [1, 2, 3] answers with [item 2] and leaves [1, 3] |
| `Server.DuplicateIdThroughRequests` | index.js:54-74 | ids [1, 2, 3], DELETE /shopping-list/2, then POST: the new item is stored with id 3 next to the old item 3 |

## Left out

- File-system calls (`fs.readFile`, `fs.mkdir`, `fs.writeFile`, index.js:12, 21-22) are not modelled. The file is the field `Store.file`. A failed read or parse is `None`. A write always succeeds and replaces the file with the written document.
- JSON text is not modelled. `JSON.parse`/`JSON.stringify` become the values themselves. An item is an integer `id` plus its other members, each kept as an opaque string, because no operation looks inside them.
- A file that parses but does not hold an object with a `shoppingList` array is not modelled. What index.js does with it depends on the value:
  - A file holding `null` makes every routed request throw, since `data.shoppingList` is read from null (index.js:28, 37, 52); GET sends no response although `writeHead` already stored 200.
  - A top-level object (or number, string, boolean) without `shoppingList`: GET answers 200 with an empty body (index.js:50-52); POST throws at `.length` (index.js:28); DELETE throws at `findIndex` (index.js:37).
  - A `shoppingList` that is a string, number, boolean or plain object: GET answers 200 with that member's JSON; POST reads `.length` and throws at `push` (index.js:29); DELETE throws at `findIndex` (index.js:37).
  - A `shoppingList` that is `null`: GET answers 200 with `null`; POST throws at `.length` (index.js:28); DELETE throws at `findIndex` (index.js:37).
- List elements that are not objects are not modelled. GET lists them. DELETE evaluates `item.id` for each element up to the first match (index.js:37), so a `null` element before any match makes it throw, and a number or string element never matches.
- Top-level members of the file other than `shoppingList` are not modelled. The source writes the whole parsed object back (index.js:30, 40), so it keeps them; `Doc` holds only the list.
- Item ids that are not integers are not modelled: numbers such as `1.5`, strings, or a missing id. GET lists such items. A DELETE never matches them, because `parseInt` only yields integers and `===` does not convert types.
- A POST body that is not valid JSON is not modelled; the source throws on it without handling the error. Neither is a body that is not an object. The parsed body is an `Item`, and whatever `id` the client sent is overwritten.
- The HTTP server is not modelled: body streaming, response headers, the port and the start-up log. A response is its status and its JSON payload.
- Concurrent requests and the lost update between two overlapping read–modify–write cycles are not modelled. Each request is one atomic step.
- The in-memory object of `Read` is fresh and unaliased in every call. So `push`, `splice` and `newItem.id = ...` on it are modelled as value updates. The state that really changes in place across calls is the file.
- JavaScript numbers are modelled as unbounded integers. Rounding of numerals longer than 2^53 and the sign of `-0` are not modelled; `-0 === 0` holds anyway.
- `JsNumbers.IsStrWhiteSpace` lists the white-space code points of ECMA-262 by hand. The Unicode `Zs` category is fixed at its current members.

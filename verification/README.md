# utp-marketplace: catalog API, HTML escaping and client cart

A model of the marketplace catalog's logic. It is written in Dafny and proved.
It covers three groups of code:

- **Product API** (`backend/server.js`). The product table is a map from an integer key to a product record. It also keeps the AUTOINCREMENT counter. The model covers:
  - the list endpoint and the detail endpoint, each with its own `imagen_url` rule;
  - create, with `nombre` validation and the falsy-to-default substitution of the other fields;
  - update, with its assembled SET field list and bound values, the 400 check before the 404 check, and the patch semantics;
  - delete;
  - the upload filename `{now}-{random}-{name with each whitespace run replaced by '_'}`.

  Request bodies are built from a small JavaScript value type (`undefined`, `null`, string, number) with JavaScript truthiness. This keeps `x || default` apart from `x !== undefined`.
- **Catalog pages** (`js/fetch_products.js`). The model covers `escapeHtml`, the catalog card's image path and the detail page's image fallback. A decoder proves that escaping loses nothing.
- **Cart** (`js/cart.js`). The cart is an append-only list of `{id, addedAt}` entries held in a storage slot. Unparsable contents read as an empty cart. The model covers add, remove-by-id, clear, the badge count, and the cart page's render. The render groups entries into quantities per id, resolves each distinct id once, skips ids that fail to resolve, and totals `price * qty`. A product deleted from the table is answered with status 200 and an empty body. `res.json()` rejects on that body inside the `try`, so the page skips the id as it does a failed request.

Modules: `JsValue` (values, truthiness, `||`), `Decimal` (integer text in both directions), `Catalog`, `Upload`, `HtmlEscape`, `CatalogPage` and `Cart`.

Inputs that come from outside the logic are parameters:
- The clock and the random draw are passed in.
- The browser storage slot is passed in, as `Slot`.
- Fetching a product is an injected `resolve: int -> Fetch`.
- JavaScript's number-to-text conversion inside template literals is an injected `numText: real -> string`.

Two behaviours of the code worth noting:

- The detail endpoint tests only truthiness. A record whose `imagen` is the text `"null"` therefore gets `imagen_url = "/uploads/null"`, not `null`. The list endpoint does exclude `"null"`.
- Create rejects every falsy `nombre`: missing, `null`, `''` and the number `0`.

## Model

| member | source | states |
|---|---|---|
| `Decimal.Parse` | backend/server.js:60-61 | A route parameter addresses a key exactly when it is one or more decimal digits, optionally after a '-'. |
| `Decimal.ParseShow` | backend/server.js:60-61 | Reading back the decimal text of any integer gives that integer, so every key is reachable by its text. |
| `Decimal.ShowInjective` | backend/server.js:28 | Different integers have different decimal texts. |
| `Decimal.ParsePadded` | backend/server.js:60-61 | The decimal text of a number with any count of leading zeros, optionally after '-', parses to that number, negated after '-'. So "007" addresses key 7, and "-0" addresses key 0. |
| `Decimal.ParseOnlyPadded` | backend/server.js:60-61 | Every text that parses has that padded form. Together with `Decimal.ParsePadded`, this fixes the key of every accepted text. |
| `Catalog.ListImagenUrl` | backend/server.js:44-51 | The list `imagen_url` is never empty. It is the default image exactly when `imagen` is falsy or the text "null". Otherwise it is "/uploads/" followed by `imagen`. |
| `Catalog.ListProducts` | backend/server.js:38-55 | Every row the table returned is answered in the same order, with its id and fields unchanged and a non-empty `imagen_url`. |
| `Catalog.DetailImagenUrl` | backend/server.js:64-66 | The detail `imagen_url` is `null` exactly when `imagen` is falsy. Otherwise it is "/uploads/" followed by `imagen`, and the text "null" counts as truthy. |
| `Catalog.GetProduct` | backend/server.js:59-69 | The detail endpoint returns a record exactly when the route parameter names a present key. That record is the stored one with its `imagen_url`. A missing row is `None`, not an error; `res.json(undefined)` sends it as status 200 with an empty body. |
| `Catalog.ListDetailAsymmetry` | backend/server.js:48-65 | For a falsy `imagen`, the list gives the default image and the detail gives `null`. For "null", the list gives the default image and the detail gives "/uploads/null". Otherwise both give the same URL. |
| `Catalog.Create` | backend/server.js:79-98 | A falsy `nombre` gives 400 and leaves the table unchanged. Otherwise the reply is 201 with a key not previously in the table. Other records are untouched. Each optional field is stored as given when truthy, else as its default ('' or 0). The table invariant is kept. |
| `Catalog.CreateNameOnly` | backend/server.js:82-93 | A body with only `nombre` "Lapiz" is created with `descripcion ''`, `precio 0`, `stock 0`, `categoria ''` and `imagen ''`. |
| `Catalog.CreateThenGet` | backend/server.js:61-93 | After a create, the detail endpoint finds the new id's text and returns exactly the stored record. |
| `Catalog.Supplied` | backend/server.js:108-113 | A column is selected exactly when its property is not `undefined`. The selected columns keep the order of the candidate list. |
| `Catalog.AssembleUpdate` | backend/server.js:105-119 | A column is in the SET list exactly when its property is not `undefined`. The columns keep the fixed order nombre..imagen. Each value lines up with its column. The route parameter is the one extra value, last, so there is one more value than fields. |
| `Catalog.AssembledUpdatePatches` | backend/server.js:118-121 | Running the assembled SET list on a record changes exactly the supplied columns, each to the supplied value, and keeps the rest. |
| `Catalog.Update` | backend/server.js:101-127 | A body with no supplied field gives 400 whatever the id, and nothing changes. An absent key gives 404 and nothing changes. Otherwise the reply is 200 with the same keys and every other record untouched. The addressed record is patched by the body. The table invariant is kept. |
| `Catalog.Delete` | backend/server.js:130-138 | A present key gives 200 and removes exactly that key, keeping the other records. An absent key gives 404 and nothing changes. |
| `Catalog.DeleteTwice` | backend/server.js:132-136 | Deleting the same id twice gives 200 and then 404, and the second delete leaves the table as the first one left it. |
| `Upload.Sanitize` | backend/server.js:29 | The sanitised name is never longer than the original. The lemmas below characterise it. |
| `Upload.DropRunSplits` | backend/server.js:29 | One whitespace run is removed: what is dropped is all whitespace, and what is kept begins with a non-whitespace character. |
| `Upload.SanitizeNoSpace` | backend/server.js:29 | The sanitised name contains no whitespace. |
| `Upload.SanitizeIdentity` | backend/server.js:29 | Sanitising keeps a name unchanged exactly when the name has no whitespace. |
| `Upload.SanitizeIdempotent` | backend/server.js:29 | Sanitising a sanitised name changes nothing. |
| `Upload.SanitizeRun` | backend/server.js:29 | A non-empty run of whitespace becomes a single '_'. |
| `Upload.SanitizeAppend` | backend/server.js:29 | Sanitising splits over a concatenation whose cut is not inside a whitespace run. Together with the two lemmas above, this characterises the run replacement. |
| `Upload.FileNameInjective` | backend/server.js:28-30 | Equal upload names come from equal clock readings, equal random draws and equal sanitised names. |
| `Upload.HandleUpload` | backend/server.js:73-76 | No file gives 400 with the error "No file uploaded", and only no file does. Otherwise the filename is `{now}-{random}-{safe}` with no whitespace, and the url is "/uploads/" followed by that filename. |
| `HtmlEscape.EscapeHtml` | js/fetch_products.js:58-72 | A falsy argument gives ''. A string gives its escaped text. A non-zero number throws a TypeError, because it has no `replace`. |
| `HtmlEscape.EscapeAppend` | js/fetch_products.js:60 | Escaping distributes over concatenation. |
| `HtmlEscape.EscapeChar` | js/fetch_products.js:60-71 | Each of the eight special characters becomes its fixed reference, and every other character is kept. With `EscapeAppend`, this fixes the result on every string. |
| `HtmlEscape.EscapeSafe` | js/fetch_products.js:60-71 | Escaped text contains none of < > " ' / ` =. |
| `HtmlEscape.EscapeLength` | js/fetch_products.js:60-71 | The output is at least as long as the input. It has equal length, and equivalently equals the input, exactly when the input has none of the eight characters. |
| `HtmlEscape.DecodeEscape` | js/fetch_products.js:60-71 | Decoding the references gives back the original text, so escaping is injective. |
| `CatalogPage.CardImage` | js/fetch_products.js:16-18 | The card image is never empty. It is "img/default.png" exactly when `imagen` is falsy, and otherwise "/uploads/" followed by `imagen`. |
| `CatalogPage.DetailImage` | js/fetch_products.js:94 | The detail image is `imagen_url` when that is truthy and "img/default.png" otherwise, so it is never falsy. |
| `CatalogPage.DetailPageMatchesCard` | js/fetch_products.js:94 | For any record, the detail page built on the detail endpoint shows the same image as the catalog card. |
| `CatalogPage.CardVersusListUrl` | js/fetch_products.js:16-18 | The card's path equals the list endpoint's `imagen_url` exactly when `imagen` is truthy and not "null". |
| `Cart.GetCart` | js/cart.js:4-10 | A stored list is read as it is. An empty slot or unparsable contents read as the empty cart. |
| `Cart.AddToCart` | js/cart.js:17-22 | Add appends exactly one entry, with the id and the clock reading, at the end. Earlier entries are unchanged and the count grows by one. |
| `Cart.ClearCart` | js/cart.js:24-30 | After clear, the cart is empty and the badge shows 0. |
| `Cart.RemoveFromCart` | js/cart.js:107-110 | After remove, the cart is the old cart with exactly the entries of that id filtered out. The other entries are kept unchanged, in their order (see `Cart.WithoutAppend`). No entry has the id, every other id keeps its number of entries, and the count drops by the number removed. |
| `Cart.WithoutAppend` | js/cart.js:109 | Removal splits over concatenation and keeps or drops each single entry by its id, so the kept entries stay in their original order. |
| `Cart.WithoutIdempotent` | js/cart.js:109 | Filtering twice is filtering once, and a cart without the id is unchanged. |
| `Cart.RemoveIdempotent` | js/cart.js:107-110 | Removing the same id again changes nothing. |
| `Cart.AddThreeRemoveOnce` | js/cart.js:17-20 | Adding an id three times and removing it once leaves none of it. From an empty cart the badge is back at 0. |
| `Cart.Group` | js/cart.js:45-46 | The grouping has a key for each id in the cart and no other key. Each key holds the number of entries with that id, which is positive. |
| `Cart.DistinctIds` | js/cart.js:47 | The enumerated ids are duplicate-free, and they are exactly the cart's ids. |
| `Cart.GroupSumsToLength` | js/cart.js:45-47 | The quantities over the distinct ids add up to the number of entries. |
| `Cart.Fetched` | js/cart.js:52-60 | One iteration of the fetch loop yields a product exactly when the answer is ok and its body is a record, and then it yields that record. A failed request, a non-ok status and an empty body all yield nothing. |
| `Cart.Resolving` | js/cart.js:51-61 | The kept ids are exactly the ids whose product resolves, taken from the enumeration. |
| `Cart.ResolvingNoDup` | js/cart.js:51-61 | Keeping the resolving ids of a duplicate-free enumeration gives no id twice. |
| `Cart.Lines` | js/cart.js:51-61 | The line ids are the resolving ids in enumeration order, so there is exactly one line per resolved id. Each line holds that id's fetched product and its quantity. Ids that fail are skipped and do not stop the others. |
| `Cart.SummaryTotal` | js/cart.js:64-67 | For any duplicate-free enumeration of the cart's ids, the total of price times quantity equals the entry-by-entry sum of resolved prices. The total therefore does not depend on the order. |
| `Cart.RenderCart` | js/cart.js:35-67 | An empty cart gives the empty state with no lookup. Otherwise each distinct id is fetched once. Exactly one line is shown per resolved id, in fetch order, with its entry count. The total is the sum of the lines' subtotals, and it equals the cart's entry-by-entry value. |
| `Cart.CheckoutEmpties` | js/cart.js:99-104 | Checkout clears the cart, and the render that follows shows the empty state without fetching. |
| `Cart.ExampleTotal` | js/cart.js:64-67 | For the cart A, A, B with prices 10.50 and 5.00, the total is 26.00. |
| `Cart.LinesRespectFetched` | js/cart.js:52-60 | The fetch loop depends on an answer only through what `res.json()` yields: resolvers that agree on that give the same lines. |
| `Cart.DeletedProductSkipped` | js/cart.js:52-60 | A product deleted from the table, answered 200 with an empty body, renders exactly as a failed request: it gets no line, and the other lines and the total are unchanged. |

## Left out

- Express routing, CORS, static serving, `app.listen`, creating the uploads directory and multer's disk storage are framework plumbing. Only the filename function and the upload reply are modelled.
- 500 replies on store errors are not modelled. The store is a pure map and never fails.
- SQL text and prepared statements are left out. Only the SET field list and the bound values are modelled.
- SQLite's column type affinity is left out: values are stored as given. Table constraints are left out too, because the schema is not part of this model.
- `Decimal.Parse`: only decimal digits, optionally after '-', address a key; leading zeros are accepted, as in "007" for 7 (`Decimal.ParsePadded`). SQLite would also convert forms such as " 5", "+5" or "5.0". The model treats those as not found.
- `Catalog.Create`: the new key is the AUTOINCREMENT counter plus one. A table without AUTOINCREMENT uses the largest present key plus one, which differs after the largest row is deleted. Rowid exhaustion is not modelled.
- `Catalog.ListProducts`: it takes the rows the table returned as its input. It does not state that these are all of the table's rows, each exactly once, in rowid order.
- Number-to-text conversion in template literals is IEEE-754 formatting. It is the parameter `numText`.
- Request bodies holding booleans, arrays or objects are left out, and so are NaN and the infinities. `Value` has only `undefined`, `null`, strings and numbers.
- `formatPrecio`, `toFixed` and `Number()` coercion are IEEE-754 formatting and rounding. Prices are exact reals, and a price stored as text is not modelled.
- `Object.keys` order is not modelled. `Object.keys` lists integer-like keys in ascending numeric order, but the render enumerates ids in order of first appearance, so the fetches and lines may come in a different order from the page's. `Cart.SummaryTotal` proves the total is the same for every duplicate-free enumeration.
- `Upload.Sanitize`: its own contract only bounds the length, to keep the proofs about it cheap. Its absence of whitespace, its identity on names without whitespace and its one '_' per run are stated by `Upload.SanitizeNoSpace`, `Upload.SanitizeIdentity`, `Upload.SanitizeRun` and `Upload.SanitizeAppend`.
- An ok detail answer whose JSON body is `null`, or anything else that is not a product record, is not modelled, because the detail endpoint sends either a record or an empty body.
- `localStorage` and `JSON.parse`/`stringify` are replaced by the `Slot` port. Stored JSON that parses to something other than a list of entries is not modelled.
- `Date.now` and `Math.random` are parameters. Any natural number is accepted for the random draw; the source only produces 0..10^9, the range of `Math.round(Math.random()*1E9)`.
- The DOM is left out: `innerHTML`, `createElement`, event listeners and `alert`.
- `loadCatalog` and `loadProductDetail`'s fetching and error logging are left out. Only their image choices and `escapeHtml` are modelled.
- `Upload.IsSpace` is the set ECMAScript's `\s` matches: tab through carriage return, space, U+00A0, U+1680, U+2000 to U+200A, U+2028, U+2029, U+202F, U+205F, U+3000 and U+FEFF. It follows current Unicode.

# Catalog view state, modelled in Dafny

The shopping page is a single React component, `App`. It fetches a product
list, keeps three pieces of client state in local storage, and on every
render derives what to show from that state and from the `view` and `id`
query parameters. The three pieces of state are:

- the like/dislike map;
- the cart id list;
- the browse history.

This project models the component's view-state core without the browser:

- **View mode** (`Views.ParseView`). The `view` value selects cart, liked,
  product (the detail view) or history. Anything else, or no value, gives
  the catalog.
- **State updates** (`AppState`, driven by the class `AppComponent.App`):
  - `handleLike` and `handleDislike` toggle one slot of the like map;
  - `toggleCart` removes or appends an id;
  - `openProductTab` puts a `{id, ts}` entry in front of the history and
    cuts it to 200 entries;
  - `clearHistory` empties the history.
- **Derived views** (`Views`), all total functions of the state:
  - the visible products of each mode;
  - the category buttons;
  - the category filter;
  - the liked count;
  - the history rows, which join the history against the products.
- **`toPascalCase`** (`PascalCase`), the label helper.

Shared pieces:

- `Seqs` models `Array.prototype.filter` and `Array.from(new Set(...))`. Its
  predicate `Selects(r, s, f)` is the specification every filter is proved
  against: r is an order-preserving subsequence of s that keeps every
  occurrence of each element satisfying f, and nothing else.
- `Strings` models the default `sort` and `String(n)` for integer ids.

Modelling choices:

- Product ids, cart ids and history ids are integers. The source compares
  product ids with history ids through `String(...)`. `Strings.DecimalStringInjective`
  proves that two integers have the same numeral only when they are equal,
  so the model compares those ids directly. The `id` query value is a
  string, so it is compared with the product id's numeral, as the source does.
- A like-map key whose value is `undefined` (written by a repeated toggle)
  is `Status.Unset`. A missing key reads as `Unset` too.
- `Date.now()` is the `now` parameter of `OpenProductTab`.
- Storage reads become the constructors. `App()` is the state when storage
  is empty. `App.Restore` takes values that were already parsed.

What the code does, where a reader might expect otherwise:

- Liking twice from "dislike" ends at unset (`AppState.ToggleTwice`).
- The cart is a list, and removal drops every occurrence of the id.
- `toggleCart` is the only cart update.
- The detail view's query value is "product".

## Model

| member | source | states |
|---|---|---|
| `Views.ParseView` | src/App.jsx:56-62 | each of cart, liked, product and history is chosen exactly when `view` is that string; catalog is chosen exactly when it is none of the four |
| `Views.VisibleProducts` | src/App.jsx:167-178 | defined as the ternary chain: the product view with a truthy id filters by the id numeral, then cart, liked and history each filter by their test, otherwise all products; a non-list history counts as empty. Specified by `VisibleProductsByMode` |
| `Views.VisibleProductsAsWritten` | src/App.jsx:167-178 | defined as the same chain with the history branch unguarded: None (the TypeError) for a non-list history with at least one product. Related to the model by `AsWrittenAgreesOnLists` and `UnguardedHistoryThrows` |
| `Views.VisibleProductsByMode` | src/App.jsx:167-178 | every mode's visible list is an order-preserving subsequence of the products. Product view with a truthy id, cart, liked and history select exactly the products that mode's test accepts, keeping all their occurrences. Catalog, and product view without an id, give the whole list |
| `Views.ProductViewShowsId` | src/App.jsx:168-169 | a product view for the numeral of id k shows the products with id k and no others |
| `Views.AsWrittenAgreesOnLists` | src/App.jsx:167-178 | when the stored history is a list, the code as written gives the modelled visible list |
| `Views.UnguardedHistoryThrows` | src/App.jsx:174-177 | with a non-list stored history and any non-empty product list, the history branch as written throws. The modelled list is empty, and so are the guarded history rows |
| `Views.DisplayedProducts` | src/App.jsx:185-187 | defined as the visible products filtered by "All or the selected category". Specified by `DisplayedProductsSpec` |
| `Views.DisplayedProductsSpec` | src/App.jsx:185-187 | the category filter selects exactly the visible products of the category, in order. "All" gives the visible list unchanged. Otherwise every shown product has the category, and none of that category is dropped |
| `Views.Categories` | src/App.jsx:180-183 | defined as "All" followed by the sorted distinct product categories. Specified by `CategoriesSpec` |
| `Views.CategoriesSpec` | src/App.jsx:180-183 | the button list starts with "All". The rest is strictly ascending, so without duplicates, and is exactly the set of product categories |
| `Views.FindById` | src/App.jsx:198 | `find` gives nothing exactly when no product has the id. Otherwise it gives a product with the id that no earlier product shares |
| `Views.Joined` | src/App.jsx:193-201 | defined as each entry paired with the `find` result for its id, entries without one dropped. Specified by `JoinedSpec` |
| `Views.RowEntries` | src/App.jsx:197-200 | the entries of the joined rows: one per row, in order |
| `Views.JoinedSpec` | src/App.jsx:193-201 | the joined rows keep the history order and drop exactly the entries whose id matches no product. Each row pairs its entry with the first product of that id |
| `Views.DisplayedHistoryEntries` | src/App.jsx:193-206 | defined as the join of the history (empty when not a list) narrowed to the selected category. Specified by `DisplayedHistorySpec` |
| `Views.DisplayedHistorySpec` | src/App.jsx:193-206 | the history rows are the joined rows of the selected category, in order ("All": all of them), each with the first product of its id, and never more than the history has entries |
| `AppState.Toggled` | src/App.jsx:106-118 | the id's slot gets the mark, or is cleared when it already held the mark. Every other slot is unchanged, and the id now has a key |
| `AppState.ToggleTwice` | src/App.jsx:106-118 | toggling one mark twice restores the slot when it held that mark or nothing. From the other mark it ends unset. Other ids are untouched |
| `AppState.LikeThenDislike` | src/App.jsx:106-118 | a like followed by a dislike always leaves "dislike": the two marks share one slot |
| `AppState.LikedCount` | src/App.jsx:189-191 | defined as the number of keys whose slot holds Like. `LikedCountIsValueCount` proves it equals the source's count of "like" values; `LikedCountAfterToggle` gives its change under a toggle |
| `AppState.ValuesAt` | src/App.jsx:189 | `Object.values` for a given key order: one value per key, the value of that key |
| `AppState.LikedCountIsValueCount` | src/App.jsx:189-191 | for any duplicate-free listing of exactly the map's keys, the number of its values equal to "like" is `LikedCount` |
| `AppState.LikedIdsAfterToggle` | src/App.jsx:106-118 | after a toggle, the liked ids are the old liked ids plus the id when the slot now holds Like, and minus the id otherwise |
| `AppState.LikedCountAfterToggle` | src/App.jsx:189-191 | a toggle lowers the count of "like" values by one when the slot held Like, and raises it by one when it sets Like. A dislike of a non-liked slot leaves it unchanged. Cleared slots are not counted |
| `AppState.CartToggled` | src/App.jsx:120-126 | defined as the `includes` test choosing between `filter(id !== x)` and appending. Specified by `CartToggledSpec` |
| `AppState.CartToggledSpec` | src/App.jsx:120-126 | toggling flips the id's membership and no other id's. A listed id loses every occurrence while the rest keep order and multiplicity. An unlisted id is appended at the end |
| `AppState.CartToggleTwiceAbsent` | src/App.jsx:120-126 | toggling an unlisted id twice restores the original list |
| `AppState.CartToggleTwiceMembers` | src/App.jsx:120-126 | toggling any id twice restores the set of ids in the cart |
| `AppState.CartToggledNoDup` | src/App.jsx:120-126 | toggling keeps a cart without duplicates free of them |
| `AppState.CartScenario` | src/App.jsx:120-126 | from an empty cart, toggling 42 gives [42], and toggling again gives [] |
| `AppState.Recorded` | src/App.jsx:154-160 | after recording, the new entry is at index 0, followed by the previous entries in order (none when the previous value was not a list), and the length is min(old + 1, 200) |
| `AppState.RecordAllNewestFirst` | src/App.jsx:152-160 | after any run of views, the history holds the views newest first, then the older entries, and its length is min(views + old, 200) |
| `AppState.TwoHundredOneViews` | src/App.jsx:154-160 | 201 views from an empty history leave exactly 200 entries: the latest view first, the second view last, and the first view gone unless it was repeated |
| `Seqs.Filter` | src/App.jsx:168-206 | `Array.prototype.filter`: never longer than its input, and every kept element passes the test. `Seqs.FilterSelects` proves it keeps, in order, exactly the elements that pass |
| `Seqs.FilterSelects` | src/App.jsx:168-206 | a filter is an order-preserving subsequence with the input's count of each passing element and none of the others; membership holds exactly for input elements that pass |
| `Seqs.Distinct` | src/App.jsx:182 | `Array.from(new Set(...))`: no duplicates, and exactly the input's elements |
| `Strings.Sort` | src/App.jsx:182 | the default sort returns the same strings, in ascending lexicographic order |
| `Strings.DecimalStringInjective` | src/App.jsx:176 | `String(a) === String(b)` on integer ids holds exactly when a == b |
| `PascalCase.ToPascalCase` | src/App.jsx:10-16 | defined as "" for the empty string, otherwise split, capitalise each word, join. Specified by `PascalCaseCharacters`, `PascalCaseWords` and `PascalCaseIdempotent` |
| `PascalCase.Capitalize` | src/App.jsx:14 | defined as the first character upper-cased, the rest kept; "" stays "". `CapitalizeWord` proves it upper-cases exactly the word start of a space-free word |
| `PascalCase.CapitalizeEach` | src/App.jsx:14 | the `map`: same length, each word capitalised in place |
| `PascalCase.Join` | src/App.jsx:15 | defined as the words with single spaces between. `JoinSplit` and `SplitJoin` prove it inverse to `Split` |
| `PascalCase.Split` | src/App.jsx:13 | `split(" ")` never returns an empty list, and no piece contains a space |
| `PascalCase.JoinSplit` | src/App.jsx:13-15 | joining the pieces of `split(" ")` with single spaces gives back the input |
| `PascalCase.SplitJoin` | src/App.jsx:13-15 | splitting the single-space join of space-free words gives back the words |
| `PascalCase.PascalCaseCharacters` | src/App.jsx:10-16 | the result has the input's length. Each character that starts a word is upper-cased, every other character is kept, and spaces stay where they were |
| `PascalCase.PascalCaseWords` | src/App.jsx:11-15 | the result splits into the input's words, each capitalised, so the word count is kept. The empty-input guard changes nothing |
| `PascalCase.PascalCaseIdempotent` | src/App.jsx:10-16 | applying the helper to its own result changes nothing |
| `PascalCase.PascalCaseTwoWords` | src/App.jsx:10-16 | two space-free words with one space between become the two words capitalised with one space between |
| `PascalCase.PascalCaseExample` | src/App.jsx:9-16 | "men's clothing" becomes "Men's Clothing", as an instance of `PascalCaseTwoWords` |
| `AppComponent.App.constructor` | src/App.jsx:19-49 | with nothing stored, the state has no products, "All" selected, no likes, an empty cart and an empty history |
| `AppComponent.App.Restore` | src/App.jsx:23-49 | the state starts from the parsed stored values, with no products and "All" selected |
| `AppComponent.App.SetProducts` | src/App.jsx:72 | the product list becomes the fetched data |
| `AppComponent.App.SelectCategory` | src/App.jsx:262 | the selected category becomes the clicked one |
| `AppComponent.App.HandleLike` | src/App.jsx:106-111 | the like map is toggled with Like. Other ids are unchanged, and the liked count moves by one either way |
| `AppComponent.App.HandleDislike` | src/App.jsx:113-118 | the like map is toggled with Dislike. Other ids are unchanged, and the liked count drops by one only when the slot held Like |
| `AppComponent.App.ToggleCart` | src/App.jsx:120-126 | the cart becomes the toggled list, the id's membership flips, and a cart without duplicates stays so |
| `AppComponent.App.OpenProductTab` | src/App.jsx:152-160 | the history becomes the recorded list: 1 to 200 entries, the new `{id, now}` first |
| `AppComponent.App.ClearHistory` | src/App.jsx:208-209 | the history becomes the empty list |

## Left out

- The product fetch, its loading and error flags, and its error message (src/App.jsx:64-80): network I/O. Only the state update of the success path is modelled, as `SetProducts`.
- Reading and writing local storage, with JSON parsing and the catch-to-default paths (src/App.jsx:23-49, 82-104): browser storage I/O. The empty default is `App()`. Already-parsed values are `App.Restore`. A stored history that is not an array is `NotAList`. Other malformed stored shapes (a non-array cart, non-string like values) are not modelled.
- The JSON round trip drops like-map keys whose value is `undefined`. This is part of the storage layer and does not change `LikedCount`.
- URL construction, `window.open` and `window.location.reload` (src/App.jsx:128-165, 211): browser side effects. Of `openProductTab`, only the history update is kept.
- `Date.now()` (src/App.jsx:156): the clock is the `now` parameter.
- JSX rendering, headings and button visibility (src/App.jsx:215-431): user interface.
- Price and date formatting with `toLocaleString` (src/App.jsx:302, 308): locale and floating-point library calls. Products keep only `id`, `title` and `category`.
- React's batching of state updates: each handler applies its update immediately.
- PascalCase.Upper: upper-cases ASCII letters only. The full Unicode mapping of `toUpperCase` is library behaviour, and can even change a string's length (for example "ß" becomes "SS").
- Strings.Sort: compares characters as Unicode scalar values. JavaScript compares UTF-16 code units, which orders differently only outside the Basic Multilingual Plane.
- Strings.DecimalString: writes plain decimal digits. `String(n)` switches to exponent notation from 10^21 on, far beyond any product id.
- Seqs.Distinct: does not state the first-occurrence order of `new Set`, because the sort that follows removes it.
- Views.Categories: a product whose category is literally "All" would give a second "All" button. `CategoriesSpec` states this case as it is and does not exclude it.

## Findings

| source | as written | input that shows it | evidently intended | confidence | as-written member | corrected member |
|---|---|---|---|---|---|---|
| src/App.jsx:174-177 | the history branch of `visibleProducts` calls `browseHistory.some(...)` without the `Array.isArray` check that lines 157 and 193-196 apply | a stored history that parses to a non-array (for example `{}` or `null`), at least one fetched product, and `?view=history`: the call throws a TypeError during render | a non-array history counts as empty, as in the history update and the history rows | medium, not executed | `Views.VisibleProductsAsWritten` (shown by `Views.UnguardedHistoryThrows`) | `Views.VisibleProducts` (proved by `Views.VisibleProductsByMode`) |

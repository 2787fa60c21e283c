# Product catalog view: pagination, filter pipeline and favourites

A Dafny model of the logic inside the product list view and the favourites
service of a small Angular catalog browser. The rest of that application is
HTTP and reactive plumbing and is not modelled here.

- **Pagination** (`pagination.dfy`, module `Pagination`). The view's cursor
  is the record `(pageSize, start, end, currentPage, selected)`. It starts at
  `(5, 0, 5, 1, none)`. `PreviousPage` and `NextPage` shift the window by one
  page and clear the selection. `Reset` goes back to page 1 and keeps the
  selection. `Select` records a product. Nothing clamps the cursor: it can
  move before the first product or past the last one, and the model keeps
  that behaviour. The invariant `Aligned` says the window is one page wide and
  starts at `(currentPage - 1) * pageSize`. It is written with a recursive
  `PageStart` so that the solver does not have to do nonlinear arithmetic.
  `AlignedMeans` shows it is the same as the closed form.
- **Filter pipeline** (`filter_pipeline.dfy`, module `FilterPipeline`). The
  `filter$` stream is modelled as a function of the sequence of settled
  text-box values, that is, the values left after the debounce. Each value is
  trimmed (`MapTrim`). Only empty text or text longer than two characters
  passes (`KeepAccepted`). Consecutive repeats are dropped (`DistinctFrom`,
  which keeps the operator's remembered value explicitly). Finally the empty
  filter is put in front (`FilterStream`). `FilterProducts` is the
  case-insensitive substring filter on product names. `IsFiltered`,
  `ProductsNumber`, `FilteredStream`, `FilteredFlags` and
  `ProductsNumberStream` model `filtered$`, `filteredProducts$` and
  `productsNumber$` for a fixed product list.
- **The view as a state machine** (`product_list.dfy`, module
  `ProductList`). Its state is the cursor plus the filter state, which is the
  value remembered by `distinctUntilChanged` and the filter in force. Its
  events are settled inputs, the two page buttons and product clicks. Step by
  step, the view produces exactly `FilterStream`. Every emission resets the
  cursor. Page events never touch the filter.
- **Favourites** (`favourites.dfy`, module `Favourites`). The state is an
  insertion-only set of product identities plus the last-notification slot.
  `Ref` models object identity, because a JavaScript `Set` is keyed by
  reference. The 3-second timer callback is the explicit event `TimerFired`.
- `text.dfy` (module `Text`) holds ASCII trimming, ASCII lower-casing and
  substring search. `catalog.dfy` holds `Product`, and `optional.dfy` holds
  `Option`.

A settled input that trims to one or two characters is dropped by the
length gate (product-list.component.ts:85), so the filter already in force
stays in force (`ShortInputKeepsFilter`). The list is unfiltered only if no
filter was in force before.

## Model

| member | source | states |
|---|---|---|
| Text.LeadingSpace | src/app/products/product-list/product-list.component.ts:84 | the count of leading whitespace characters: all of them are whitespace, and the next character, if any, is not |
| Text.TrailingSpace | src/app/products/product-list/product-list.component.ts:84 | the count of trailing whitespace characters: all of them are whitespace, and the character before them, if any, is not |
| Text.TrimStart | src/app/products/product-list/product-list.component.ts:84 | the result is a suffix of the input, everything cut off is whitespace, and the result does not start with whitespace |
| Text.TrimEnd | src/app/products/product-list/product-list.component.ts:84 | the result is a prefix of the input, everything cut off is whitespace, and the result does not end with whitespace |
| Text.Trim | src/app/products/product-list/product-list.component.ts:84 | the result is a contiguous slice of the input with no whitespace at either end, and only whitespace is cut off on each side |
| Text.TrimOfPadded | src/app/products/product-list/product-list.component.ts:84 | trimming is determined by its result: whitespace + trimmed text + whitespace trims to that text |
| Text.TrimIdempotent | src/app/products/product-list/product-list.component.ts:84 | trimming twice equals trimming once |
| Text.LowerChar | src/app/products/product-list/product-list.component.ts:95 | upper-case ASCII letters map to the matching lower-case letter, and every other character is unchanged |
| Text.Lower | src/app/products/product-list/product-list.component.ts:95 | lower-casing keeps the length, works character by character, and leaves no upper-case ASCII letter |
| Text.LowerIdempotent | src/app/products/product-list/product-list.component.ts:95 | lower-casing twice equals lower-casing once |
| Text.Contains | src/app/products/product-list/product-list.component.ts:95 | `includes` holds exactly when the pattern occurs at some position of the text |
| Text.ContainsEmpty | src/app/products/product-list/product-list.component.ts:95 | the empty string occurs in every string |
| Pagination.Initial | src/app/products/product-list/product-list.component.ts:31-34 | the initial cursor has page size 5, nothing selected, and is on page 1; its window `[0, 5)` follows from `InitialIsReset` together with `Reset`'s contract |
| Pagination.InitialIsReset | src/app/products/product-list/product-list.component.ts:31-40 | the initial cursor is the same as the cursor `resetPagination` produces |
| Pagination.Reset | src/app/products/product-list/product-list.component.ts:36-40 | reset gives page 1 with an aligned one-page window, and keeps the page size and the selection |
| Pagination.PreviousPage | src/app/products/product-list/product-list.component.ts:42-47 | going back keeps the window width and the page size, lowers the page by one with no lower bound, keeps alignment, and clears the selection |
| Pagination.NextPage | src/app/products/product-list/product-list.component.ts:49-54 | going forward keeps the window width and the page size, raises the page by one with no upper bound, keeps alignment, and clears the selection |
| Pagination.Select | src/app/products/product-list/product-list.component.ts:56-57 | selecting records the product and changes nothing else |
| Pagination.NextThenPrevious | src/app/products/product-list/product-list.component.ts:42-54 | next then previous restores `(start, end, currentPage)` and clears the selection |
| Pagination.PreviousThenNext | src/app/products/product-list/product-list.component.ts:42-54 | previous then next restores `(start, end, currentPage)` and clears the selection |
| Pagination.PageStartIsProduct | src/app/products/product-list/product-list.component.ts:31-54 | page `p` starts at `(p - 1) * pageSize`, for every integer page |
| Pagination.AlignedMeans | src/app/products/product-list/product-list.component.ts:31-54 | the alignment invariant is exactly `end - start == pageSize` and `start == (currentPage - 1) * pageSize` |
| Pagination.WalkKeepsAlignment | src/app/products/product-list/product-list.component.ts:42-57 | any sequence of next, previous and select keeps the page size and the alignment, and moves the page by the net number of moves |
| Pagination.NoClampingBackwards | src/app/products/product-list/product-list.component.ts:42-47 | `k` previous-page clicks from a fresh view leave the window at `-5k` on page `1 - k`, so nothing stops it at the first page |
| FilterPipeline.AcceptedIff | src/app/products/product-list/product-list.component.ts:85 | the gate rejects exactly the trimmed texts of one or two characters |
| FilterPipeline.MapTrim | src/app/products/product-list/product-list.component.ts:84 | the trimming stage gives one text per settled input, in the same position, each the trimmed input and none with whitespace at either end |
| FilterPipeline.KeepAcceptedKeepsAllIff | src/app/products/product-list/product-list.component.ts:85 | the gate never lengthens its input, and passes it through unchanged exactly when every text in it is accepted |
| FilterPipeline.FilterStream | src/app/products/product-list/product-list.component.ts:83-88 | `filter$` starts with `""` and emits at most one further value per settled input |
| FilterPipeline.KeepAcceptedElements | src/app/products/product-list/product-list.component.ts:85 | the length gate keeps order and keeps exactly the texts that are empty or longer than two characters |
| FilterPipeline.DistinctFrom | src/app/products/product-list/product-list.component.ts:86 | `distinctUntilChanged` never emits two equal values in a row, never repeats the remembered value first, and ends remembering the last value it read |
| FilterPipeline.DistinctKeepsElements | src/app/products/product-list/product-list.component.ts:86 | `distinctUntilChanged` emits an order-preserving subsequence of its input and drops only repeats of the remembered value |
| FilterPipeline.DistinctSnoc | src/app/products/product-list/product-list.component.ts:86 | one more value is emitted exactly when it differs from the remembered value |
| FilterPipeline.FilterStreamGated | src/app/products/product-list/product-list.component.ts:83-88 | `filter$` begins with `""`, and every later element is trimmed and either empty or at least 3 characters long, so trimmed inputs of length 1-2 never appear |
| FilterPipeline.FilterStreamFromInputs | src/app/products/product-list/product-list.component.ts:84-88 | every later element of `filter$` is the trimmed text of some settled input |
| FilterPipeline.FilterStreamNoRepeats | src/app/products/product-list/product-list.component.ts:86-88 | consecutive later elements of `filter$` differ |
| FilterPipeline.FilterStreamComplete | src/app/products/product-list/product-list.component.ts:84-88 | every input whose trimmed text passes the gate appears in `filter$` after the leading `""` |
| FilterPipeline.LeadingEmptyMayRepeat | src/app/products/product-list/product-list.component.ts:86-88 | because `startWith` comes after `distinctUntilChanged`, a blank first input gives `["", ""]` |
| FilterPipeline.CurrentFilterGated | src/app/products/product-list/product-list.component.ts:83-91 | the latest `filter$` value, the one `combineLatest` pairs with the products, is either `""` or a trimmed settled input of at least 3 characters |
| FilterPipeline.CurrentFilterIsLastAccepted | src/app/products/product-list/product-list.component.ts:83-88 | the filter in force is the last accepted trimmed input, or `""` if no input has been accepted |
| FilterPipeline.AcceptedSnoc | src/app/products/product-list/product-list.component.ts:84-85 | one more input adds its trimmed text to the gated sequence exactly when that text passes the gate |
| FilterPipeline.CurrentFilterSnoc | src/app/products/product-list/product-list.component.ts:84-88 | a new input becomes the filter in force if its trimmed text passes the gate, and otherwise the filter stays as it was |
| FilterPipeline.ShortInputKeepsFilter | src/app/products/product-list/product-list.component.ts:85 | an input that trims to 1-2 characters leaves the filter in force unchanged |
| FilterPipeline.MatchesMeans | src/app/products/product-list/product-list.component.ts:95 | a product matches exactly when the lower-cased filter occurs at some position of its lower-cased name, and every product matches `""` |
| FilterPipeline.FilterProducts | src/app/products/product-list/product-list.component.ts:93-96 | the filtered list is an order-preserving subsequence of the products, every kept product matches, and it is never longer than the products |
| FilterPipeline.FilterProductsKeepsMatches | src/app/products/product-list/product-list.component.ts:93-96 | a product is kept exactly when it is in the list and its lower-cased name contains the lower-cased filter, with the same multiplicity |
| FilterPipeline.EmptyFilterKeepsAll | src/app/products/product-list/product-list.component.ts:93-96 | the empty filter returns the whole list |
| FilterPipeline.FilterIgnoresCase | src/app/products/product-list/product-list.component.ts:95 | filtering with the lower-cased filter gives the same result as with the filter itself |
| FilterPipeline.FilterKeepsAllIff | src/app/products/product-list/product-list.component.ts:93-96 | the filter keeps the whole list exactly when every product matches |
| FilterPipeline.FilteredNowIff | src/app/products/product-list/product-list.component.ts:100-104 | the latest `filtered$` value is true exactly when some input has been accepted and the last accepted trimmed input has at least 3 characters |
| FilterPipeline.UnfilteredShowsAll | src/app/products/product-list/product-list.component.ts:93-104 | when `filtered$` is false, the filtered list is the whole list |
| FilterPipeline.ProductsNumber | src/app/products/product-list/product-list.component.ts:106-109 | the count is at most the number of products, equals it exactly when every product matches, and equals it when no filter is in force |
| FilterPipeline.FilteredStream | src/app/products/product-list/product-list.component.ts:91-98 | with the catalog already loaded, there is one filtered list per `filter$` value, the first is the whole catalog, each is a subsequence of the catalog, and a product is in the list for a filter exactly when it is in the catalog and matches that filter, as often as in the catalog |
| FilterPipeline.FilteredFlags | src/app/products/product-list/product-list.component.ts:100-104 | `filtered$` starts false and is true exactly for the non-empty filters, which are the ones of at least 3 characters |
| FilterPipeline.ProductsNumberStream | src/app/products/product-list/product-list.component.ts:106-111 | with the catalog already loaded, `productsNumber$` is 0 first, then the length of each filtered list, starting with the whole catalog, and never more than the catalog size |
| ProductList.Emission | src/app/products/product-list/product-list.component.ts:84-86 | a settled input is emitted exactly when its trimmed text passes the gate and differs from the remembered value, and inputs of length 1-2 are never emitted |
| ProductList.OnSettled | src/app/products/product-list/product-list.component.ts:84-88 | an emitted value becomes the filter in force, a value that is not emitted changes nothing, and an accepted value is remembered |
| ProductList.RunFilterRemembersLastAccepted | src/app/products/product-list/product-list.component.ts:83-88 | input by input, the remembered value is the last accepted trimmed input, and the filter in force is that value |
| ProductList.EmittedByIsDistinct | src/app/products/product-list/product-list.component.ts:83-86 | input by input, the emissions are those of the trim, gate and `distinctUntilChanged` stages |
| ProductList.RunFilterEmitsFilterStream | src/app/products/product-list/product-list.component.ts:79-89 | the step-by-step emissions, with `""` in front, are exactly `filter$` |
| ProductList.RunFilterIsCurrent | src/app/products/product-list/product-list.component.ts:79-89 | input by input, the filter in force is the last value of `filter$` |
| ProductList.Init | src/app/products/product-list/product-list.component.ts:20-40 | a fresh view is on page 1 with an aligned window of size 5, has nothing selected, and has no filter |
| ProductList.Step | src/app/products/product-list/product-list.component.ts:42-87 | every event keeps the page size and the alignment; an emitted filter resets the cursor (`tap(resetPagination)`) and keeps the selection; an input that is not emitted changes nothing; the next and previous buttons move the cursor one page forward or back and clear the selection, a product click selects that product on the same page, and none of these touches the filter |
| ProductList.RunWithoutInputsIsWalk | src/app/products/product-list/product-list.component.ts:42-57 | with no settled inputs among the events, the view's cursor ends where the pagination cursor's walk through the same clicks ends, and the filter state is unchanged |
| ProductList.RunKeepsAlignment | src/app/products/product-list/product-list.component.ts:31-57 | after any sequence of view events, the cursor keeps its page size and stays aligned |
| ProductList.RunTracksFilter | src/app/products/product-list/product-list.component.ts:79-89 | the filter state after any events depends only on the settled inputs among them |
| ProductList.ViewFilterIsCurrent | src/app/products/product-list/product-list.component.ts:79-98 | from a fresh view, the filter used by `filteredProducts$` is the last value of `filter$` for the inputs so far |
| Favourites.Count | src/app/products/favourite.service.ts:24-26 | the count is zero exactly when there are no favourites |
| Favourites.Initial | src/app/products/favourite.service.ts:13-16 | the service starts with count 0 and a `null` notification |
| Favourites.AddToFavourites | src/app/products/favourite.service.ts:18-20 | adding inserts the product, grows the count by 1 for a new product and by 0 for one already there, and publishes the product |
| Favourites.ClearNotification | src/app/products/favourite.service.ts:21 | the timer callback sets the notification to `null` and leaves the favourites unchanged |
| Favourites.AddedRefsMeans | src/app/products/favourite.service.ts:18-19 | an identity counts as added exactly when some add event adds a product with that identity |
| Favourites.RunCollectsAdded | src/app/products/favourite.service.ts:16-26 | from a fresh service, the favourites are exactly the distinct products added, and the count is their number |
| Favourites.CountAtMostAdds | src/app/products/favourite.service.ts:18-26 | the count grows by at most the number of adds |
| Favourites.RunOnlyGrows | src/app/products/favourite.service.ts:16-26 | no event removes a favourite, so the count never decreases |
| Favourites.CountMonotone | src/app/products/favourite.service.ts:16-26 | the count after a prefix of the events is at most the count after all of them |
| Favourites.NotificationFollowsLastEvent | src/app/products/favourite.service.ts:13-21 | the notification is `null` before any event, is the product just added after an add, and is `null` after a timer |
| Favourites.EarlierTimerClearsLaterAdd | src/app/products/favourite.service.ts:18-22 | timers are not cancelled: the timer of an earlier add clears the notification of a later add |

## Left out

- The product data service (`src/app/products/product.service.ts`) is not
  modelled. It covers HTTP GET/POST/DELETE, retry and delay operators,
  multicasting, logging, the loading indicator, and the mapping of every HTTP
  error to one message.
- Timing is not modelled. Inputs are values that have already passed the
  500 ms debounce. The 3000 ms timer is the explicit `TimerFired` event,
  which may occur at any point; the model does not limit timer events to one
  per add.
- The RxJS runtime is not modelled: subscriptions, `combineLatest` and
  multicasting. `filteredProducts$` and `productsNumber$` are functions of a
  fixed product list and the `filter$` values. Re-emission when the product
  list itself changes is not modelled.
- Router navigation is not modelled: the navigation in `onSelect`,
  `shouldReuseRoute` and `refresh()`. Angular decorators, `title` and
  `errorMessage` are left out too.
- The view's `favourites` getter just forwards to `getFavouritesNb`
  (`Favourites.Count`), so it has no separate model.
- Text.Trim: only removes ASCII whitespace (space, tab, LF, CR, VT, FF).
  `String.prototype.trim` also removes Unicode spaces such as U+00A0,
  U+2028 and U+2029, and the byte-order mark U+FEFF.
- Text.Lower: only lower-cases ASCII `A`-`Z`. `toLowerCase` covers all of
  Unicode.
- FilterPipeline.KeepAcceptedElements: lengths count Unicode scalar values.
  JavaScript's `length` counts UTF-16 code units, so the two differ for
  characters outside the Basic Multilingual Plane.
- FilterPipeline.FilteredStream: assumes the product list has arrived
  before any text-box value settles. `combineLatest`
  (product-list.component.ts:91) emits nothing until `products$` has a value,
  and that value comes after an HTTP request and a 1500 ms delay
  (product.service.ts:32). A value that settles while the list is loading
  gets no filtered list of its own, and the first list is then already
  filtered by the latest such value rather than being the whole catalog.
- FilterPipeline.ProductsNumberStream: makes the same assumption. With a
  value settled during loading, the first count after 0 is the size of
  that filtered list rather than the catalog size.
- Pagination.Pager: `pageSize`, `start`, `end` and `currentPage` are
  JavaScript numbers (doubles), exact only up to 2^53 in magnitude. The
  model uses unbounded integers, so it does not show the loss of precision
  once `start` or `end` passes 2^53 in magnitude, which takes about
  1.8 * 10^15 page moves.
- Products keep only their object identity and name. The other catalog
  fields, including `id`, are read only by navigation and the templates.
- Selection: `selectedProduct` is `undefined` at first and `null` after a
  page change. Both are modelled as `None`.

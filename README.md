# Stock dashboard: window aggregation, ordering and insight sampling

A Dafny model of the computing core of a stock-inventory dashboard. The dashboard
receives products (SKUs), each with named variations and a chronological stock
history. From these it derives the figures it displays and the order in which it
lists the products. It also builds the bounded data sample that it sends to a
text generation service when a user asks for an analysis of one product.

- `types.dfy`, module `StockTypes`: the raw records from the stock service and the
  derived records the dashboard shows. Timestamps are integers (milliseconds).
- `aggregation.dfy`, module `Aggregation`: the derivation step of the
  `processedData` computation in `App.tsx`.
  - Each variation keeps only the readings at or after the window start, in their
    original order.
  - The last kept reading (by position) gives the current stock. The variation is
    that stock minus the stock of the first kept reading (by position). An empty
    window reads as 0 and 0.
  - A product's totals are accumulated over its variations in one loop
    (`ProcessSku`), which is proved against the specification function `DeriveSku`.
- `ordering.dfy`, module `Ordering`: the comparator handed to `data.sort`, and the
  in-place sort as an insertion sort on an `array<Sku>`.
  - Favourites come first. Then the chosen column (name, total stock or total
    variation) is compared with JavaScript's `<`, ascending or descending.
  - Names are compared as JavaScript compares strings: their UTF-16 code units,
    lexicographically. A character above U+FFFF therefore sorts by its high
    surrogate, before characters in U+E000..U+FFFF.
  - The comparator is proved antisymmetric and transitive. From this, the sort's
    output is proved sorted and to be a permutation of its input. A ghost map from
    each output position to its input position also proves the sort stable: products
    the comparator ties keep their input order, as `Array.prototype.sort` does. The
    comparator ties exactly the products with the same favourite status and equal
    values in the chosen column (`CompareZeroIff`).
- `dashboard.dfy`, module `Dashboard`: the whole listing (`ProcessedData`: derive
  every product, then sort) and the three click handlers.
  - The handlers are sort column/direction, favourite toggle and expanded-row
    toggle.
  - `handleToggleExpand` mutates only a fresh copy of the set, so it is modelled as
    a function returning the new set value.
- `insight.dfy`, module `Insight`: the per-variation sample of
  `generateStockInsight`: the first three and last three readings (JavaScript
  `slice`, with its negative-index rule) and the reading count. It also models the
  fixed fallback answer when generation fails. The text generation service is a
  parameter that either answers with a text or fails. Date formatting for the
  prompt is a parameter `formatDate`.

Toggling a favourite twice always restores the set of favourite ids. When the id
was a favourite, every occurrence is removed and the id is then appended, so in
general the id moves to the end of the list. The list comes back unchanged exactly
when the id was absent, or present once as the last element
(`ToggleFavoriteTwiceRestoresListIff`). `ToggleFavoriteTwiceReorders` shows a
two-element instance that is reordered. The dashboard only ever tests membership in
this list, so the reorder is not visible.

## Model

| member | source | states |
|---|---|---|
| `Aggregation.InWindow` | App.tsx:68 | every kept reading is one of the variation's readings with timestamp at or after the window start; the window is never longer than the history |
| `Aggregation.InWindowIsOrderedSubsequence` | App.tsx:68 | the window's k-th element is the reading at the k-th position (in increasing order) whose timestamp is at or after the start, and it has exactly as many elements as there are such positions |
| `Aggregation.InWindowEmpty` | App.tsx:68 | the window is empty if and only if every reading is before the start |
| `Aggregation.LastReadingClosesWindow` | App.tsx:68-69 | the last reading (by position) at or after the start is the last element of the window |
| `Aggregation.FirstReadingOpensWindow` | App.tsx:68-70 | the first reading (by position) at or after the start is the first element of the window |
| `Aggregation.DeriveVariation` | App.tsx:67-78 | the derived variation keeps its name and has only in-window readings, at most as many as the raw history (its figures are stated by the lemmas below) |
| `Aggregation.DerivedHistoryIsWindow` | App.tsx:75-77 | the derived history holds, position by position, the timestamp and stock of the in-window readings in their original order |
| `Aggregation.EmptyWindowReadsZero` | App.tsx:69-71 | the derived history is empty iff no reading is in the window, and then current stock and variation are both 0 |
| `Aggregation.WindowEndpoints` | App.tsx:69-71 | current stock is the stock of the last in-window reading (by position); variation is that stock minus the stock of the first in-window reading (by position) |
| `Aggregation.SingleReadingHasNoVariation` | App.tsx:69-71 | with exactly one reading in the window, current stock is its stock and variation is 0 |
| `Aggregation.CurrentStockNonNegative` | App.tsx:69 | readings that are never negative give a current stock that is never negative (the placeholder is 0) |
| `Aggregation.SevenDayWindowExample` | App.tsx:68-71 | readings 100 six days ago and 90 now, with a seven-day window, give current stock 90 and variation -10 |
| `Aggregation.DeriveVariations` | App.tsx:67 | position by position, the derived variation of the raw one (so `WindowEndpoints` applies to each): same name, only in-window readings, at most as many as before |
| `Aggregation.DeriveSku` | App.tsx:64-79 | a derived product keeps its id, name and url, and the number, order and names of its variations |
| `Aggregation.ProcessSku` | App.tsx:64-79 | the loop's running totals equal the sum of the derived variations' current stock and the sum of their variations; the variations are derived one by one in order |
| `Aggregation.EmptyWindowTotalsZero` | App.tsx:65-73 | a product none of whose readings lies in the window has total stock 0 and total variation 0 |
| `Aggregation.TotalStockNonNegative` | App.tsx:65-72 | readings that are never negative give a total stock that is never negative |
| `Ordering.CodeUnits` | App.tsx:93 | a character is one or two 16-bit code units, two exactly when the first is a high surrogate |
| `Ordering.Utf16` | App.tsx:93 | a string of n characters has between n and 2n code units |
| `Ordering.Utf16Injective` | App.tsx:93 | different names have different UTF-16 encodings |
| `Ordering.UnitsLess` | App.tsx:93 | the code-unit order puts nothing before the empty sequence and puts a proper prefix before each of its extensions |
| `Ordering.UnitsLessIrreflexive` | App.tsx:93 | no code-unit sequence is less than itself |
| `Ordering.UnitsLessAsymmetric` | App.tsx:93-94 | the code-unit order never holds both ways |
| `Ordering.UnitsLessTransitive` | App.tsx:93 | the code-unit order is transitive |
| `Ordering.UnitsLessTrichotomous` | App.tsx:93-95 | two code-unit sequences are equal or one is less than the other |
| `Ordering.StrLess` | App.tsx:93 | no name is below the empty name, and the empty name is below every other name |
| `Ordering.StrLessTrichotomous` | App.tsx:93-95 | two names are equal or one is less than the other |
| `Ordering.SurrogatePairBeforeHighBmp` | App.tsx:93 | U+1F600 is less than U+FF21 and not the other way round, as in JavaScript and unlike code-point order |
| `Ordering.KeyLess` | App.tsx:88-94 | the column `<` of the chosen key never holds between equal column values |
| `Ordering.Compare` | App.tsx:82-96 | the comparator returns -1, 0 or 1, is negative when only the first product is a favourite and positive when only the second is |
| `Ordering.KeyLessAsymmetric` | App.tsx:93-94 | the column `<` never holds both ways |
| `Ordering.KeyNotLessTransitive` | App.tsx:88-95 | "not after" on a column is transitive |
| `Ordering.CompareAntisymmetric` | App.tsx:82-96 | swapping the two products negates the comparator |
| `Ordering.CompareZeroIff` | App.tsx:82-96 | the comparator returns 0 exactly when both products have the same favourite status and equal values in the chosen column |
| `Ordering.InOrderTotal` | App.tsx:82-96 | of any two products, one may precede the other |
| `Ordering.InOrderTransitive` | App.tsx:82-96 | the comparator's "may precede" relation is transitive |
| `Ordering.KeyAtMostIffNotLess` | App.tsx:93-95 | a column value is at most another's exactly when the comparator's `<` does not put the other first |
| `Ordering.SortedFavoritesFirst` | App.tsx:83-86 | in a sorted listing every favourite comes before every non-favourite, whatever the column and direction |
| `Ordering.SortedByColumn` | App.tsx:88-95 | in a sorted listing, products of equal favourite status are non-decreasing in the column when ascending and non-increasing when descending |
| `Ordering.SortSkus` | App.tsx:82 | after the in-place sort the array is sorted by the comparator and a permutation of its former contents; each position holds the element from a distinct former position, and tied elements (same favourite status, equal column value) keep their former order (stability) |
| `Ordering.Insert` | App.tsx:82 | one insertion step extends the sorted, stable prefix by one element, whose elements come from the first i+1 former positions, and permutes the array |
| `Ordering.InsertingSwaps` | App.tsx:82 | swapping the inserted element with an out-of-order neighbour keeps the prefix sorted and tied elements in their former order |
| `Ordering.InsertingEnds` | App.tsx:82 | when the inserted element is in order with its left neighbour, the prefix one longer is sorted and stable |
| `Ordering.SwapDown` | App.tsx:82 | the array afterwards is the former one with positions j-1 and j exchanged, a permutation of it |
| `Dashboard.DeriveAll` | App.tsx:64 | position by position, the derived product of the raw one (so `DeriveSku` and `ProcessSku` apply to each): same id, name and number of variations |
| `Dashboard.ProcessedData` | App.tsx:59-97 | the listing is a permutation of the derived products, one per raw product, with favourites first and then ordered by the chosen column and direction; products with the same favourite status and equal column value stay in the order received |
| `Dashboard.NextSortConfig` | App.tsx:99 | a click selects the clicked column; the direction becomes descending exactly when that column was already selected ascending |
| `Dashboard.RepeatedClicksAlternate` | App.tsx:99 | repeated clicks on the same column alternate the direction, so the configuration has period two |
| `Dashboard.RemoveId` | App.tsx:100 | the filtered list holds exactly the ids other than the removed one |
| `Dashboard.ToggleFavorite` | App.tsx:100 | after a toggle the id is a favourite iff it was not, and every other id keeps its status |
| `Dashboard.RemoveIdKeepsNoDuplicates` | App.tsx:100 | removing an id from a list without duplicates leaves a list without duplicates |
| `Dashboard.ToggleFavoriteKeepsNoDuplicates` | App.tsx:100 | toggling a favourite never creates a duplicate id |
| `Dashboard.RemoveAppended` | App.tsx:100 | appending an absent id and then filtering it out gives back the list |
| `Dashboard.ToggleFavoriteTwiceRestoresList` | App.tsx:100 | toggling an id that was not a favourite twice gives back the same list |
| `Dashboard.ToggleFavoriteTwiceRestoresIds` | App.tsx:100 | toggling any id twice gives back the same set of ids; a former favourite ends up last |
| `Dashboard.RemoveIdAppend` | App.tsx:100 | filtering a concatenation filters each part |
| `Dashboard.RemoveAbsent` | App.tsx:100 | filtering out an absent id changes nothing |
| `Dashboard.ToggleFavoriteTwiceRestoresListIff` | App.tsx:100 | toggling twice restores the exact list if and only if the id was absent, or present once as the last element |
| `Dashboard.ToggleFavoriteTwiceReorders` | App.tsx:100 | toggling the first of two favourites twice moves it to the end |
| `Dashboard.ToggleExpanded` | App.tsx:101 | the id is expanded afterwards iff it was not; every other id is unchanged |
| `Dashboard.ToggleExpandedTwice` | App.tsx:101 | toggling the same row twice gives back the original set |
| `Insight.SlicePosition` | services/geminiService.ts:12 | a `slice` position, negative ones counted from the end, always lies within the sequence bounds |
| `Insight.Slice` | services/geminiService.ts:12 | the slice is the contiguous run of the sequence between the two clamped positions, empty when they cross |
| `Insight.SliceEnds` | services/geminiService.ts:12 | `slice(0, m)` is the first min(m, n) elements and, for m > 0, `slice(-m)` the last min(m, n) |
| `Insight.HistorySample` | services/geminiService.ts:12-15 | the sample has 2·min(3, n) ≤ 6 entries, each one of the readings with its stock and formatted date |
| `Insight.HistorySampleShape` | services/geminiService.ts:12-15 | the sample is the first min(3, n) readings, then the last min(3, n), position by position, each with its reading's stock and formatted date |
| `Insight.ShortHistoryRepeats` | services/geminiService.ts:12 | with at most three readings the sample is the history twice over |
| `Insight.DataSample` | services/geminiService.ts:9-17 | one sample per variation, in order, with the same name, the history sample of that variation (so `HistorySampleShape` applies), 2·min(3, n) ≤ 6 sampled readings and the full reading count |
| `Insight.GenerateStockInsight` | services/geminiService.ts:33-37 | a failed generation gives the fixed fallback message; a successful one gives the service's text |

## Left out

- Rendering (JSX, icons, the chart, the markdown view), React state, memoisation and effects: user interface and event-loop plumbing.
- The fetch of the product list and its fallback to synthetic data: network I/O. `services/stockService.ts` and `services/mockData.ts` are not part of this model. The synthetic data also depends on randomness and floating point.
- The persistence of favourites in browser storage (`useLocalStorage`): browser storage and JSON encoding.
- The concurrency of overlapping analysis requests (`handleAnalyzeSku`), and the error message it would show if `generateStockInsight` ever threw. It never throws, because it catches every error itself.
- Date handling: parsing ISO-8601 timestamps, computing the window start by calendar arithmetic from the clock, and locale date formatting. Timestamps are integers, the window start is a parameter and formatting is a parameter function. An unparsable timestamp (an invalid date, never in the window) cannot occur in the model.
- The prompt text and the text generation client: an external service. A reply whose text is missing is not distinguished from a text.
- JavaScript numbers are doubles. Stocks and totals here are unbounded integers, so rounding of sums beyond 2^53 is not modelled.
- Sorting on non-scalar fields and the comparator's "undefined field" branch: only `name`, `totalStock` and `totalVariation` are ever chosen, and none of them can be undefined.
- The engine's own sorting algorithm is replaced by an insertion sort. For a comparator that is a total preorder, as this one is proved to be, a stable sort has exactly one possible output, so the listing is the same.
- Names containing an unpaired surrogate code unit (possible in a JavaScript string, for example one decoded from the JSON text `"\ud800"`): a Dafny `string` holds only Unicode scalar values, so such names are outside the model.

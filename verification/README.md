# Student cafeteria menu browser — a Dafny model of its derivations

The application shows the weekly menus of Zagreb student cafeterias. Its page
(`src/app/page.tsx`) fetches one record per cafeteria. Each record holds
meals (lunch `rucak` and dinner `vecera`). Each meal holds sections (`menu`,
`vege_menu`, …), and each section holds a list of items that may be missing.
The page then derives everything it shows from that data and from its own
state:

- the **filtered menu**, built from the search text, the allergens the user
  avoids and the quick filters (vegetarian, two price bands, popular);
- the **statistics** cards: items, vegetarian items, average price, number
  of cafeterias and the monthly estimate;
- the **price chart** with four price bands, and the **five cheapest** items;
- the **favourites** list:
  - the heart toggle, the trash button, sorting by price or name, "clear
    all";
  - the CSV export;
  - the analytics: per-restaurant counts, the top three restaurants and the
    price bands.

Next to the page, the route `src/app/api/restaurants/route.ts` serves a
fixed table of cafeterias by id and refuses every creation request.

The model is written as pure functions over immutable datatypes:

| file | module | contents |
|---|---|---|
| `wrappers.dfy` | `Wrappers` | `Option` |
| `seqs.dfy` | `Seqs` | subsequence, filter and count helpers |
| `text.dfy` | `Text` | `split`, `join`, `trim`, `replace` of the first `*`, `includes` |
| `sorting.dfy` | `Sorting` | sorting by a comparator, and taking a prefix |
| `menu.dfy` | `Menu` | the menu data and the host functions |
| `filter.dfy` | `MenuFilter` | the filtered menu |
| `favorites.dfy` | `Favorites` | the favourites list and its CSV export |
| `csv.dfy` | `Csv` | the quoted export, with a reader |
| `aggregates.dfy` | `Aggregates` | statistics, chart, cheapest items, favourites analytics |
| `session.dfy` | `Session` | the filter controls and "delete all data" |
| `restaurants.dfy` | `Restaurants` | the API route |

What the page delegates to the JavaScript runtime is a parameter, the `Host`
record:

- `parseFloat` (`None` stands for NaN);
- `toLowerCase`;
- `localeCompare`, as a `<=` relation;
- `toLocaleDateString`.

Prices are exact reals, so floating-point rounding is not modelled.

The average price (`src/app/page.tsx:318-328`) adds `parseFloat` of every
non-empty price and counts each of them. A single unparsable price therefore
makes the average, and with it the monthly estimate, NaN; the model's
`avgPrice` is `None` in that case.

## Model

| member | source | states |
|---|---|---|
| MenuFilter.FilterMenu | src/app/page.tsx:252-300 | One record comes out per record in. Each keeps its id, title, date, meal keys and section keys. Each section list, a missing one counting as empty, becomes exactly the items that pass, in their original order and unchanged. |
| MenuFilter.FilterSection | src/app/page.tsx:262-293 | One section's list keeps exactly the passing items, as an order-preserving subsequence holding every one of them. A missing list becomes the empty list. |
| MenuFilter.FilterMenuInactive | src/app/page.tsx:252-300 | With no search text, no allergen and no quick filter, every section list of the result equals the original. |
| MenuFilter.AllergenRuleCodes | src/app/page.tsx:269-274 | For an allergen list written as comma-free codes joined by commas, the item is excluded exactly when some allergen is ticked, the list is not the lone empty code or the lone `-`, and one of those codes, trimmed and without its first `*`, is ticked. |
| MenuFilter.AllergenCodeClean | src/app/page.tsx:273 | A code with no surrounding white space and no `*` is compared as written. |
| MenuFilter.AllergenMonotone | src/app/page.tsx:269-274 | Ticking more allergens never brings back an excluded item. |
| MenuFilter.QuickFiltersConjunction | src/app/page.tsx:277-293 | Active quick filters combine by conjunction. A union of filter sets passes exactly when each part passes. An unknown key changes nothing. |
| MenuFilter.QuickFilterRules | src/app/page.tsx:277-290 | `vegetarian` passes only the `vege_menu` section. `price-low` passes prices up to 1. `price-medium` passes prices in (1, 2]. `popular` passes ids in the favourites. An unparsable price fails both price filters, and no price passes both. |
| MenuFilter.SoupExample | src/app/page.tsx:252-300 | One record holds a soup with allergens `A,G`. Avoiding `A` empties its list; avoiding nothing keeps the soup. |
| Session.ToggleQuickFilter | src/app/page.tsx:499-507 | Pressing a quick filter flips exactly that key's membership. The search text and the allergens stay. |
| Session.ToggleQuickFilterTwice | src/app/page.tsx:499-507 | Pressing the same quick filter twice restores the controls. |
| Session.SetAllergen | src/app/page.tsx:525-533 | A check box adds its code when ticked and removes it when unticked. No other code changes. |
| Session.TickingHides | src/app/page.tsx:525-533 | Ticking one more allergen can only hide items. |
| Session.ClearFiltersSearchOnly | src/app/page.tsx:474-477 | After clearing the filters, an item is shown exactly when it matches the search. |
| Session.ClearAll | src/app/page.tsx:1169-1178 | "Obriši sve podatke" leaves no favourites, no allergen, no quick filter and no search text. |
| Session.ClearAllShowsEverything | src/app/page.tsx:1169-1178 | After deleting all data, every section of the menu is shown in full and the favourites breakdown is empty. |
| Session.PopularWithoutFavorites | src/app/page.tsx:285-286 | With no favourites, the `popular` filter hides every item. |
| Session.ToggleFlipsPopular | src/app/page.tsx:197-212 | A heart toggle flips whether `popular` lets the toggled item through. Items with other ids are unaffected. |
| Favorites.FindIndex | src/app/page.tsx:198 | The result is absent exactly when no favourite has the id. Otherwise it is the first position holding that id. |
| Favorites.Toggle | src/app/page.tsx:197-212 | A favourited id loses its first entry and nothing else. Any other item is appended once, with the restaurant name and the current time. |
| Favorites.ToggleTwice | src/app/page.tsx:197-212 | Toggling a non-favourite twice restores the list, whatever the timestamps. |
| Favorites.ToggleFlips | src/app/page.tsx:197-212 | Starting from distinct ids, a toggle keeps the ids distinct. It flips the toggled item's favourite status and leaves every other id's status unchanged. |
| Favorites.Remove | src/app/page.tsx:1014 | The trash button drops exactly the entries matching both id and date. The others keep their order, and the length drops by the number of matches. |
| Favorites.RemoveNone | src/app/page.tsx:1014 | Removing an id no favourite has changes nothing. |
| Favorites.RemoveListed | src/app/page.tsx:1014 | With distinct ids, the trash button on a listed entry removes that entry only. |
| Favorites.SortByPrice | src/app/page.tsx:915 | Sorting by price is a permutation in price order, with NaN prices last. When every price is a number, the order is ascending. |
| Favorites.NumericOrder | src/app/page.tsx:915 | Any permutation in price order over numeric prices is in ascending numeric order. |
| Favorites.SortByName | src/app/page.tsx:925 | Sorting by name is a permutation. It is in title order whenever the locale comparison is a total preorder. |
| Favorites.NameOrderSorted | src/app/page.tsx:925 | The name sort is sorted under the comparator when the locale comparison is a total preorder. |
| Favorites.Clear | src/app/page.tsx:962-966 | After "Obriši sve", no item counts as a favourite. |
| Favorites.TransitionsKeepDistinct | src/app/page.tsx:197-212 | Starting from distinct ids, every change of the favourites list keeps the ids distinct: the heart toggle, the trash button (line 1014), both sorts (lines 915, 925) and "Obriši sve" (lines 962-966). |
| Favorites.RemoveKeepsDistinct | src/app/page.tsx:1014 | Dropping the entries that match an id and a date keeps distinct ids distinct. |
| Favorites.PermutationKeepsDistinct | src/app/page.tsx:915-925 | Any reordering of a list with distinct ids, as both sorts produce, has distinct ids. |
| Favorites.CsvReadBack | src/app/page.tsx:935-944 | If no cell contains a comma or a line break, splitting the export by lines and cells recovers the header and every row. |
| Favorites.CsvAllergenShift | src/app/page.tsx:935-944 | A favourite whose allergens are `A,G` reads back as six cells under a five-cell header (see Findings). |
| Favorites.CsvPizzaExample | src/app/page.tsx:935-944 | One favourite exports as exactly the header line and one row, with the date as the locale formats it. |
| Csv.ReadWrite | src/app/page.tsx:935-944 | With every cell quoted, reading the written text gives back every record, whatever the cells contain. |
| Csv.QuotedReadBack | src/app/page.tsx:935-944 | The quoted export reads back as the header and every favourite's row. |
| Aggregates.ComputeStatistics | src/app/page.tsx:303-337 | The total is the number of menu items, and the vegetarian count never exceeds it. The cafeteria count is the number of records. The monthly cost is 22 times the average, or NaN when the average is NaN. |
| Aggregates.StatisticsMeaning | src/app/page.tsx:309-328 | The vegetarian count is the number of items in `vege_menu` sections. The average is 0 when no item has a non-empty price, NaN exactly when some non-empty price is unreadable, and otherwise the sum of the non-empty prices over their number. |
| Aggregates.FlatTallySpec | src/app/page.tsx:309-326 | Walking the items one by one counts the vegetarian and the priced items; the running sum is NaN exactly when some priced item is unreadable, and otherwise it is the total of the prices. |
| Aggregates.StatisticsExample | src/app/page.tsx:303-337 | One cafeteria with two vegetarian lunch items priced 1.00 and 3.00 gives two items, two vegetarian, an average of 2 and a monthly estimate of 44. |
| Aggregates.DaysTallyFlat | src/app/page.tsx:309-326 | The statistics loop's totals equal the item-by-item totals over the flat walk used by the chart and the cheapest list. |
| Aggregates.AverageNoPrices | src/app/page.tsx:328 | With no priced item, the average price is 0. |
| Aggregates.AverageBounded | src/app/page.tsx:318-328 | If every non-empty price is a number in [lo, hi], the average is a number: 0 when nothing is priced, otherwise within [lo, hi]. |
| Aggregates.BandBoundaries | src/app/page.tsx:1203-1207 | A price of exactly 1 is in the first band and 1.01 in the second. Exactly 3 is in the third band and 3.01 in the last. NaN lands in the last band. |
| Aggregates.ChartCounts | src/app/page.tsx:1196-1214 | Each bar counts exactly the items in its band, and the bars together count every item once. |
| Aggregates.PriceChart | src/app/page.tsx:1196-1214 | The chart's bars add up to the statistics' item total. |
| Aggregates.PricedListings | src/app/page.tsx:1241-1253 | The candidates for the cheapest list are exactly the menu's items with a non-empty price, each with its restaurant's name, in the order the walk meets them. |
| Aggregates.Cheapest | src/app/page.tsx:1240-1256 | The list is five candidates, or all of them when there are fewer, drawn from exactly the priced listings of the menu, in price order. None of them ranks after a candidate left out. Among equal prices, the list holds the earliest candidates in walk order, in that order. |
| Aggregates.CheapestStable | src/app/page.tsx:1255 | The stable sort and the slice to five keep, for every price, a leading run of the equal-priced candidates in their walk order. |
| Sorting.SortByStable | src/app/page.tsx:1255 | The sort is stable: the elements tied with any given element come out in the order they went in. |
| Sorting.TakeStable | src/app/page.tsx:1255 | The first `n` sorted elements hold, among those tied with any given element, the earliest ones of the input, in input order. |
| Aggregates.CheapestFacts | src/app/page.tsx:1255 | A prefix of a price-sorted permutation is sorted, drawn from the candidates, and ranks before everything it leaves out. |
| Aggregates.Breakdown | src/app/page.tsx:1282-1296 | The price bands together count every favourite. Each restaurant's count is the number of its favourites. |
| Aggregates.BreakdownNames | src/app/page.tsx:1286-1287 | Each restaurant appears once in the counts. The restaurants that appear are exactly those some favourite comes from. |
| Aggregates.FromRestaurantPositive | src/app/page.tsx:1287 | A restaurant's count is positive exactly when some favourite comes from it. |
| Aggregates.BreakdownMatchesChart | src/app/page.tsx:1289-1292 | The favourites' low, medium and high bands agree with the chart's bands over the favourites' items. |
| Aggregates.TopRestaurants | src/app/page.tsx:1311-1313 | At most three restaurants, taken from the counts, most favourites first. None ranks below a restaurant left out. |
| Restaurants.Find | src/app/api/restaurants/route.ts:77 | The result is absent exactly when no entry has the id. Otherwise it is the first entry with that id. |
| Restaurants.Get | src/app/api/restaurants/route.ts:70-91 | An absent or empty id lists the whole table with its size. Any other id answers 404 "Restaurant not found" exactly when it is unlisted. Otherwise the answer is 200 with a listed entry of that id; no other status occurs. |
| Restaurants.GetEachListed | src/app/api/restaurants/route.ts:12-84 | Asking for any listed id answers with exactly that entry. |
| Restaurants.FindListed | src/app/api/restaurants/route.ts:77 | In a table without repeated ids, looking up a listed id finds that entry. |
| Restaurants.Property | src/app/api/restaurants/route.ts:105-106 | Destructuring reads a member of an object body, the last of duplicate keys. It is `undefined` when the key is absent or the body is not an object. |
| Restaurants.Post | src/app/api/restaurants/route.ts:103-132 | A non-JSON or `null` body gives 500. A falsy `id` or `name` gives 400 "ID and name are required". Everything else gives 501. Nothing is ever created. |
| Restaurants.PostNeverCreates | src/app/api/restaurants/route.ts:108-123 | A body with a non-empty string id and name gets the 501. |
| Text.SplitJoin | src/app/page.tsx:944 | Splitting a join recovers the parts when no part contains the separator. |
| Text.JoinSplit | src/app/page.tsx:272 | Joining the pieces of a split recovers the string. |
| Text.TrimSpec | src/app/page.tsx:273 | `trim` keeps a contiguous block without white space at either end, everything cut from either end is white space, and a string already clean at both ends is kept whole. |
| Text.RemoveFirstSpec | src/app/page.tsx:273 | Replacing the first `*` deletes exactly the character at the first position holding `*` and keeps the rest in order; without a `*` nothing changes. |

## Left out

- Rendering, React hooks and memoisation plumbing: the model describes what
  each memo and handler computes, not when React recomputes it.
- Fetching the menu (`src/app/page.tsx:128-148`, `214-243`): network I/O.
  The fetched records are the `days` parameter.
- `localStorage` loading and saving of the favourites. This
  includes the unguarded `JSON.parse` on load and `localStorage.clear` in
  "delete all data", which the model reduces to its effect on the page
  state.
- The week-day picker built with date-fns, and the JSON export: dates and
  browser APIs.
- The Blob and anchor download of the CSV file: the model stops at the CSV
  text.
- The restaurant dropdown's `value`/`label` handling (`src/app/page.tsx:415-416`):
  it only selects what is fetched.
- The `confirm()` dialogs before clearing: user interaction. The model
  describes the state after confirming.
- The settings toggles (notifications, dark mode, compact view) and the
  search box's setter: plain assignments with nothing to derive.
- The favourites summary cards (`src/app/page.tsx:886-906`): average,
  minimum and maximum over `parseFloat`, in floating point.
- The GET route's catch block (`src/app/api/restaurants/route.ts:93-98`):
  it is reached only when URL parsing throws, which a well-formed request
  cannot cause.
- Restaurants.Get: the request URL is given already parsed, as the optional
  `id` parameter.
- Aggregates.Breakdown: `restaurantCount` is a list in first-seen order.
  JavaScript orders integer-like object keys first; that order only matters
  as the sort's tie-break.
- Aggregates.TopRestaurants: stability of the sort for equal counts is not
  stated.
- Favorites.SortByPrice: JavaScript's ordering with a NaN comparator result
  depends on the engine; the model puts NaN prices last, one of the
  admissible orders.
- Favorites.SortByName: `localeCompare` is a host relation, and the title
  order is promised only when it is a total preorder.
- Aggregates.Cheapest: the same NaN caveat applies. Only items with a
  non-empty price are candidates, and the order is price order.
- MenuFilter.MatchesSearch: `toLowerCase` is a host function; no Unicode
  case mapping is modelled.
- The type of item ids: the page compares them as numbers while
  `src/lib/types.ts` declares strings, so `Id` is left abstract.

## Findings

| source | as written | input that shows it | evidently intended | confidence | as-written member | corrected member |
|---|---|---|---|---|---|---|
| src/app/page.tsx:935-944 | Cells are joined with `,` without quoting. | A favourite whose allergens are `A,G` gives a row that reads back as six cells under a five-cell header. | Each field stays one cell: quoted and escaped as section 2 of RFC 4180 describes. | not executed | Favorites.CsvAllergenShift | Csv.QuotedReadBack |

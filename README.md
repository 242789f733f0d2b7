# Perle storefront inventory core in Dafny

This project models the logic of `js/app.js`, the script behind the Perle
thrifted-goods storefront, and proves properties of it. The inventory is a
CSV feed (`data/items.csv`). The script reads it in four stages:

- it tokenizes the text (`parseCsv`);
- it converts the rows to item records (`csvRowsToItems`, `normalizeCategory`);
- it logs soft warnings about the records (`validateItems`);
- it shows the records on the catalog, home and sold pages (`applyCatalogFilters`, `isNewArrival`, `sortItems`).

Beside the inventory the script keeps a cart, which is an id list stored in the browser. It also keeps an image gallery for the item modal.

| File | Module | What it holds |
|---|---|---|
| `strings.dfy` | `Strings` | trim, ASCII lower-casing, startsWith and includes, split and join on one character, decimal rendering |
| `seqs.dfy` | `Seqs` | counting, filter, map, first-occurrence de-duplication, subsequences |
| `options.dfy` | `Options` | `Option` |
| `numbers.dfy` | `Numbers` | `Number(string)` on price cells as an extended rational (`ExtNum`); the sign a subtracting comparator returns |
| `csv.dfy` | `Csv` | the tokenizer's state, a function `Run` giving its meaning, the loop `ParseCsv` proved equal to it, and a CSV writer proved to be its inverse |
| `inventory.dfy` | `Inventory` | `Item`, `NormalizeCategory`, the row conversion `CsvRowsToItems` |
| `validation.dfy` | `Validation` | the diagnostics as a function, and the `ValidateItems` loop (with its id-count map) proved to produce them |
| `sorting.dfy` | `Sorting` | a stable insertion sort under a NaN-tolerant numeric comparator |
| `catalog.dfy` | `Catalog` | new arrivals, the facet and search filter, the three sort options, the sold and home views |
| `cart.dfy` | `CartList` | the cart operations as functions, plus a `Cart` class whose methods update its `ids` field; the shared-link split; the cart's item lookup |
| `gallery.dfy` | `Gallery` | an `ImageGallery` class with `images`, `index` and `active` fields, updated by open, update, step and close |
| `storefront.dfy` | `Storefront` | parse, then convert, then validate, as page start-up does it |

Three things the script reads from the browser become parameters:

- Time is `now`, in milliseconds.
- `new Date(s).getTime()` is a parameter `date: string -> Option<int>`. It returns `None` where the script would get NaN.
- The catalog's global filter state is a `Filters` value.

Prices are exact rationals. The model does not round them to doubles.

Notes on what the script does:

- A duplicate id is reported with the id only (js/app.js:120-122). The message does not carry the number of occurrences.
- The price check only rejects NaN (js/app.js:113). An infinite price such as `Infinity` passes the check.
- The `audience` column is part of the required header (js/app.js:456). A feed without it is rejected as a whole.
- A blank price cell becomes the number 0, because `Number("")` is 0. It is never reported as missing or non-numeric (`Validation.BlankPriceSilent`).
- The filter's facets are audience, category, condition, new-only and search (js/app.js:133-150). Sizes are not filtered on.
- The column-count error numbers a row as `rowIndex + 2` among the rows the tokenizer kept (js/app.js:465). Dropped blank lines are not counted, so this number can differ from the line number in the file.

## Model

| member | source | states |
|---|---|---|
| Csv.Run | js/app.js:418-444 | The tokenizer loop, one branch per case of the loop body: a doubled quote inside quotes, a toggling quote, a comma and a line break outside quotes, and any other character. `ParseCsv` is proved to compute it, and the Parse lemmas below characterise it. |
| Csv.Parse | js/app.js:412-453 | `Run` from the empty state, then the final flush and the unmatched-quote error. Pinned down by `ParseEncoded`, `ParseEncodedUnterminated`, `ParseQuotedMidField`, `ParseFailsIffOddQuotes`, `ParseRowsHaveContent` and `ParseQuoteBound`. |
| Csv.ParseCsv | js/app.js:412-453 | The character loop returns exactly `Parse(text)`: `Err(UnmatchedQuote)` when the text ends with quote mode open, otherwise the flushed rows. |
| Csv.ParseQuotedMidField | js/app.js:418-450 | A quote pair may open and close in the middle of a field: the quotes disappear, the text on both sides joins the same cell, and commas and line breaks between them stay in the cell. |
| Csv.ParseEncoded | js/app.js:418-452 | Rows written with every field quoted (quotes doubled) and any of the three line breaks parse back to exactly the rows that have content, in order. |
| Csv.ParseEncodedRoundTrip | js/app.js:418-452 | Rows that all have content survive writing and parsing unchanged. |
| Csv.ParseEncodedUnterminated | js/app.js:446-449 | A last line without a final line break is still emitted. |
| Csv.ParseFailsIffOddQuotes | js/app.js:418-452 | The parse fails exactly when the text holds an odd number of `"`, and then the error is the unmatched quote. |
| Csv.ParseRowsHaveContent | js/app.js:434-449 | No returned row is blank in every cell after trimming. |
| Csv.ParseQuoteBound | js/app.js:420-423 | Each `"` in the output comes from two in the text, so a text without quotes yields cells without quotes. |
| Inventory.CsvRowsToItems | js/app.js:455-481 | The header check, then the per-row column check and conversion, numbered from 2. Pinned down by `CsvRowsToItemsErrors` and `CsvRowsToItemsRecords`. |
| Inventory.ConvertRow | js/app.js:468-479 | The record one 13-cell row gives. Each field is pinned down by `ConvertRowText`, `ConvertRowLowered`, `ConvertRowFlags` and `ConvertRowImages`. |
| Inventory.ImagesOf | js/app.js:476 | The images cell split on `\|`, trimmed, blank segments dropped. Pinned down by `ImagesOfSegments` and `ImagesRoundTrip`. |
| Inventory.NormalizeCategory | js/app.js:36-42 | The prefix coercion of a category. Pinned down by `NormalizeCategoryResult`, `NormalizeCategoryIdempotent` and `NormalizeCategoryCaseInsensitive`. |
| Inventory.CsvRowsToItemsErrors | js/app.js:455-466 | The result is an empty-file error exactly on no rows, and a header error exactly when the trimmed header is not the 13 names in order. It is Ok exactly when every data row has 13 cells. Otherwise it is a column-count error naming the first bad row as index + 2, with that row's cell count. |
| Inventory.CsvRowsToItemsRecords | js/app.js:463-480 | On success there are exactly `rows.length - 1` records: the data rows converted, in order. |
| Inventory.ConvertRowText | js/app.js:468-472 | Each text field is its trimmed cell. |
| Inventory.ConvertRowLowered | js/app.js:468-478 | `status` and `audience` equal their trimmed cells lower-cased, so they are trimmed with no upper-case letter; `category` equals `NormalizeCategory` of the trimmed cell and is trimmed. |
| Inventory.ConvertRowFlags | js/app.js:474-477 | `featured` is true iff the lower-cased trimmed cell is `"true"`; the price is `Number` of the cell. |
| Inventory.ConvertRowImages | js/app.js:476 | The images equal `ImagesOf` the trimmed cell: its trimmed, non-empty `\|`-segments in order. Each path is non-empty, trimmed and free of `\|`. |
| Inventory.ImagesOfSegments | js/app.js:476 | Every image a cell yields is non-empty, trimmed and free of `\|`. |
| Inventory.ImagesRoundTrip | js/app.js:476 | Joining valid image paths with `\|` and reading the cell back gives the same paths. |
| Inventory.NormalizeCategoryResult | js/app.js:36-42 | The result is one of the three categories exactly when the trimmed, lower-cased input starts with top, bottom or outer; a `top` prefix gives Tops, `bottom` gives Bottoms and `outer` gives Outerwear; with no match the input comes back unchanged. |
| Inventory.NormalizeCategoryIdempotent | js/app.js:36-42 | Normalizing twice is normalizing once. |
| Inventory.NormalizeCategoryCaseInsensitive | js/app.js:37 | Inputs that are equal after trimming and lower-casing normalize alike when a prefix matches. |
| Numbers.NumberOf | js/app.js:474 | `Number(raw.price)` on the trimmed cell: decimal, exponent, `0x`/`0o`/`0b` and `Infinity` forms, NaN otherwise. The lemmas fix blank cells (`NumberOfBlank`), decimal integers (`NumberOfNat`), negated integers (`NumberOfNegated`), decimal fractions (`NumberOfFraction`) and cells without digits (`NoDigitNotFinite`); the other forms are listed under Left out. |
| Numbers.Compare | js/app.js:127-129 | The sign of the subtracting comparator, 0 when either side is NaN. Pinned down by `CompareZero`, `CompareTransitive`, `CompareAtMost` and `NaNBreaksTransitivity`. |
| Numbers.NumberOfBlank | js/app.js:474 | `Number` of an all-blank cell is 0, not NaN. |
| Numbers.NumberOfNat | js/app.js:474 | A decimal numeral reads as its value. |
| Numbers.NumberOfNegated | js/app.js:474 | A minus sign before a numeral negates it. |
| Numbers.NumberOfFraction | js/app.js:474 | A numeral `w.f` with digits on both sides of the point reads as the value of `w` plus the value of `f` over ten to the number of digits of `f`. |
| Numbers.NoDigitNotFinite | js/app.js:474 | A cell without a digit is finite only when it is blank. |
| Numbers.CompareZero | js/app.js:127-129 | Among non-NaN numbers, the comparator's sign is 0 exactly for equal values. |
| Numbers.CompareTransitive | js/app.js:127-129 | Among non-NaN numbers, "not after" is transitive. |
| Numbers.NaNBreaksTransitivity | js/app.js:127-129 | With NaN the comparator is not a preorder, so that case is excluded from the order lemmas. |
| Numbers.CompareAtMost | js/app.js:127-129 | Among non-NaN numbers, a non-positive comparator sign means "at most" in the extended order. |
| Validation.Diagnostics | js/app.js:84-123 | Every diagnostic validateItems logs, in order: per item, then one per repeated id. `ValidateItems` is proved to produce it, and the *Reported lemmas below state what it reports. |
| Validation.ValidateItems | js/app.js:84-123 | The loop, with its id-count map and key order, logs exactly `Diagnostics(items)`. |
| Validation.CheckFields | js/app.js:90-95 | The required-field loop reports exactly the missing fields, in header order. |
| Validation.CheckItem | js/app.js:88-115 | One item's checks log exactly its diagnostics. |
| Validation.ReportDuplicates | js/app.js:120-122 | The pass over the map reports, in key order, the keys counted more than once. |
| Validation.MissingReported | js/app.js:90-95 | A field is reported missing exactly when it is one of the 13 and empty; price, images and featured never are. |
| Validation.EnumsReported | js/app.js:97-111 | Status, condition and audience are each reported exactly when they are not among the allowed values. |
| Validation.CategoryReported | js/app.js:105-107 | The category is reported exactly when it is not Tops, Bottoms or Outerwear. |
| Validation.ConvertedCategoryReported | js/app.js:105-107 | For a converted row, the category is reported exactly when no category prefix matches the cell. |
| Validation.PriceReported | js/app.js:113-115 | The price is reported exactly when it is NaN. |
| Validation.BlankPriceSilent | js/app.js:474 | A blank price cell becomes 0 and draws no report. |
| Validation.DuplicateReported | js/app.js:117-122 | Each id that occurs more than once is reported exactly once; no other id is reported. |
| Sorting.SortBy | js/app.js:125-131 | A stable insertion sort under the NaN-tolerant comparator. Pinned down by `SortPermutes`, `SortStable` and `SortSorted`. |
| Sorting.SortPermutes | js/app.js:125-131 | The sort returns a permutation of its input. |
| Sorting.SortStable | js/app.js:125-131 | Elements with equal keys keep their input order, for every input, NaN keys included. |
| Sorting.SortSorted | js/app.js:125-131 | With no NaN key, the result is in comparator order. |
| Catalog.IsNewArrival | js/app.js:28-34 | Not sold and created at most 7 days before `now`. Pinned down by `IsNewArrivalDays`. |
| Catalog.ApplyCatalogFilters | js/app.js:133-150 | The catalog filter. Pinned down by `FilteredIsSubsequence`, `FilteredCount`, `FilteredFacets` and `DefaultFiltersListed`. |
| Catalog.SortItems | js/app.js:125-131 | The three sort options on `SortBy`. Pinned down by `SortItemsPermutes`, `SortItemsStable`, `SortItemsPriceAscending`, `SortItemsPriceDescending` and `SortItemsNewestFirst`. |
| Catalog.SoldView | js/app.js:396-402 | The sold items, newest first. Pinned down by `SoldViewContents` and `SoldViewNewest`. |
| Catalog.HomeView | js/app.js:404-410 | The first eight unsold items, newest first; its own contract bounds it by 8. Pinned down by `HomeViewSize` and `HomeViewNewest`. |
| Catalog.IsNewArrivalDays | js/app.js:28-34 | The integer test `now - createdAt <= 7 days` is the script's fractional-day test; an unreadable date is never new. |
| Catalog.FilteredIsSubsequence | js/app.js:133-150 | The catalog is an order-preserving subsequence of the items. |
| Catalog.FilteredCount | js/app.js:136-149 | An item is kept, as often as it occurs, exactly when the callback accepts it. |
| Catalog.FilteredFacets | js/app.js:134-147 | Every kept item is available or reserved and matches each non-`all` facet. With new-only set it is not sold and at most 7 days old. With a non-blank search, the trimmed, lower-cased search occurs in the lower-cased title, a space and the notes. |
| Catalog.DefaultFiltersListed | js/app.js:133-150 | With the initial filter, the catalog is exactly the available and reserved items. |
| Catalog.SortItemsPermutes | js/app.js:125-131 | The sorted copy holds the same items, as often. |
| Catalog.SortItemsStable | js/app.js:125-131 | Items with the same key keep their order. |
| Catalog.SortItemsPriceAscending | js/app.js:127 | With numeric prices, "Price Low→High" gives non-decreasing prices. |
| Catalog.SortItemsPriceDescending | js/app.js:128 | With numeric prices, "Price High→Low" gives non-increasing prices. |
| Catalog.SortItemsNewestFirst | js/app.js:129 | For any other option, with readable dates, newer items come first. |
| Catalog.SoldViewContents | js/app.js:400 | The sold page shows every sold item, as often as it occurs, and nothing else. |
| Catalog.SoldViewNewest | js/app.js:400 | When every date can be read, the sold page lists newer items first. |
| Catalog.HomeViewSize | js/app.js:408 | The home page shows eight unsold items, or all of them if fewer, and only unsold items, each at most as often as it occurs among the unsold items. |
| Catalog.HomeViewNewest | js/app.js:408 | With readable dates, the page itself is newest first, and no unsold item left off the home page is newer than one shown. |
| CartList.Clean | js/app.js:61-65 | `[...new Set(ids.filter(Boolean))]`. Pinned down by `CleanProperties`, `CleanOfCartList` and `CleanIdempotent`. |
| CartList.Added | js/app.js:74-78 | addToCart on the stored list. Pinned down by `AddedToCartList`, `AddedContents` and `AddTwice`. |
| CartList.Removed | js/app.js:80-82 | removeFromCart on the stored list. Pinned down by `RemovedContents` and `RemovedFromCartList`. |
| CartList.SharedIds | js/app.js:515 | The ids of a shared link. Pinned down by `SharedIdsClean` and `ShareRoundTrip`. |
| CartList.ApplyShared | js/app.js:511-517 | applySharedCartFromQuery on the stored list. Pinned down by `ShareRoundTrip`. |
| CartList.CartItems | js/app.js:523-524 | The cart page's items. Pinned down by `CartItemsFound`. |
| CartList.CleanProperties | js/app.js:61-65 | The stored list has no blank id and no repeat, holds exactly the non-blank ids given, keeps their order, and lists each id at the place of its first occurrence (earlier first occurrence, earlier in the list). |
| CartList.CleanOfCartList | js/app.js:61-65 | A list without blanks or repeats is stored unchanged. |
| CartList.CleanIdempotent | js/app.js:61-65 | Storing a stored list changes nothing. |
| CartList.AddedToCartList | js/app.js:74-78 | On a cart list, adding appends a new non-blank id and otherwise changes nothing. |
| CartList.AddedContents | js/app.js:74-78 | After adding, the list holds the old ids and the new one, blanks excepted. |
| CartList.AddTwice | js/app.js:74-78 | Adding the same id twice is adding it once. |
| CartList.RemovedContents | js/app.js:80-82 | Removing drops exactly the id; every other id stays. |
| CartList.RemovedFromCartList | js/app.js:80-82 | On a cart list, removing keeps the other ids in their order. |
| CartList.ShareRoundTrip | js/app.js:511-517 | Opening the `\|`-joined link of a non-empty cart gives that cart. The link of an empty cart has an empty parameter and changes nothing. |
| CartList.SharedIdsClean | js/app.js:515 | The shared ids are non-blank, trimmed and free of `\|`. |
| CartList.CartItemsFound | js/app.js:523-524 | The cart shows, in cart order, one item per id the inventory has, and that item is the first inventory item with the id. |
| CartList.Cart.SetCartIds | js/app.js:61-65 | The stored list becomes the cleaned ids. |
| CartList.Cart.AddToCart | js/app.js:74-78 | The stored list becomes `Added` of the old one. |
| CartList.Cart.RemoveFromCart | js/app.js:80-82 | The stored list becomes `Removed` of the old one. |
| CartList.Cart.ApplySharedCartFromQuery | js/app.js:511-517 | A missing or empty `items` parameter leaves the cart alone; otherwise the cleaned shared ids replace it. |
| Gallery.Wrap | js/app.js:195 | `((k % n) + n) % n` with JavaScript's truncating `%`. Pinned down by `WrapIsMod` and `StepBackRestores`. |
| Gallery.WrapIsMod | js/app.js:195 | `((k % n) + n) % n`, with JavaScript's truncating `%`, is the mathematical modulus, so it lies in `[0, n)`. |
| Gallery.StepsCancel | js/app.js:201-204 | A step by d followed by a step by -d returns to the same image. |
| Gallery.StepBackRestores | js/app.js:195-204 | +1 then -1 restores the index, with the script's double remainder. |
| Gallery.GalleryImages | js/app.js:209 | The gallery list is never empty: an item without images gets the placeholder. |
| Gallery.ImageGallery.Open | js/app.js:206-211 | An unknown id changes nothing. Otherwise the gallery opens on the first item with the id, with its images (or the placeholder), at index 0. |
| Gallery.ImageGallery.UpdateImage | js/app.js:192-199 | With a gallery open, the index becomes `k mod n`. Without one, nothing changes. |
| Gallery.ImageGallery.StepImage | js/app.js:201-204 | With fewer than two images or no gallery nothing changes; otherwise the index becomes `(index + dir) mod n`. |
| Gallery.ImageGallery.Close | js/app.js:257-261 | The gallery is discarded. |
| Storefront.LoadItems | js/app.js:483-488 | parseCsv, then csvRowsToItems, after the fetch. Pinned down by `LoadWritten`. |
| Storefront.Startup | js/app.js:560-580 | Load, then validate. `LoadAndValidate` is proved to compute it. Pinned down by `StartupQuoteError` and `ValidationKeepsEverything`. |
| Storefront.LoadAndValidate | js/app.js:560-567 | Parsing, converting and validating in sequence gives exactly `Startup(text)`. |
| Storefront.StartupQuoteError | js/app.js:483-488 | Start-up fails with the unmatched-quote error exactly when the feed has an odd number of `"`. |
| Storefront.ValidationKeepsEverything | js/app.js:564-567 | Validation rejects nothing. Start-up succeeds exactly when loading does, keeps every record (duplicates and bad values included, one per data row), and its warnings are exactly the diagnostics of those records. |
| Storefront.LoadWritten | js/app.js:412-481 | A feed written as the required header followed by non-blank 13-cell rows loads as those rows converted, in order. |

## Left out

- Rendering, event wiring, the modal markup, keyboard and touch handlers, `fetch`, `localStorage` with its JSON encoding, the clipboard and timers are left out. They are browser APIs; only the state they carry is modelled.
- `Number(raw.price)` keeps the exact value. The model does not round to the nearest double, so a literal too large for a double (`1e400`) stays finite here although the script would get Infinity. `-0` is not distinguished from 0. Prices are never printed, so `toFixed` is not modelled.
- `toLowerCase` and the search lower-casing only map the ASCII letters A-Z. Other case mappings of Unicode are not modelled.
- Date parsing is the parameter `date`. `toLocaleDateString` is not modelled.
- Numbers.NumberOf: exponents (`1.5e2`), `0x`/`0o`/`0b` literals, a leading `+`, `Infinity`, a point with digits on one side only (`5.`, `.5`) and text with trailing junk are in its definition but no lemma states their values.
- Sorting.SortSorted: it is stated only when no key is NaN. With NaN keys the comparator is inconsistent, so ECMA-262 leaves the order implementation-defined. The insertion sort used here is one admissible result. Stability and the permutation property hold for every input.
- Catalog.SortItemsPriceAscending, Catalog.SortItemsPriceDescending, Catalog.SortItemsNewestFirst, Catalog.HomeViewNewest and Catalog.SoldViewNewest: they are stated only when every price or every date in play is a number, for the same reason.
- CartList.ShareRoundTrip: it assumes each id is trimmed and free of `|`. URL percent-encoding and the decoding done by `URLSearchParams` are not modelled.
- `getCartIds` falls back to `[]` when the stored value is not a JSON array. That fallback is not modelled: the cart's `ids` field stands for whatever is stored.
- The gallery's touch coordinates and swipe thresholds are not modelled. They are floating-point pointer positions.
- `renderCards`, `statusBadge`, `sizeLine`, `formatPrice`, `formatDate` and `safeImage` produce only markup, so they are not modelled.

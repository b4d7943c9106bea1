# FreshCart grocery list — a Dafny model of the `App` state machine

FreshCart is a single-page mobile web app for a family shopping list. You type
an item and it goes on the list under the market picked in the selector. You
tap it when it is in the basket and tap "BİTİR" at the till. That folds
everything in the basket into one entry on the history page. The settings page
edits the list of markets, and a receipts page keeps photos of receipts.

All of this lives in the `App` component of `src/App.tsx`. Under the rendering
it is a small state machine over four lists: `items`, `history`, `markets` and
`receipts`. This project models every handler that changes those lists as a
pure function `State -> State`, plus the three values derived from `items`.
It then proves what each handler promises.

Values the component reads from ambient sources are parameters:

- the fresh id (`Date.now().toString()`);
- the formatted date (`toLocaleString`);
- the typed text;
- the selected market;
- the data URL of a photographed receipt.

Ids are never assumed unique, because nothing in the app makes them unique.
The three results that need an id to be unused or unique say so in their
`requires`: `Items.DeleteUniqueRemovesOne` (item ids unique),
`Trips.FinishThenDeleteTrip` (no older trip has the new trip's id) and
`Settings.AddThenDeleteReceipt` (no older receipt has the new receipt's id).

Modules, one per concern:

- `Text` (`text.dfy`) — ECMAScript `String.prototype.trim`, with the exact
  WhiteSpace and LineTerminator set of ECMA-262. Also the code-unit string
  order that `Array.prototype.sort` uses without a comparator.
- `Seqs` (`seqs.dfy`) — `filter` with an order-and-multiplicity
  characterisation. Also duplicate removal as `Array.from(new Set(..))` does it.
- `Model` (`model.dfy`) — `GroceryItem`, `HistoryItem`, `HistoryTrip`,
  `ReceiptPhoto` and `Category`, the state record, and the constants: "Genel",
  "Çoklu Market", the default market list and the initial state.
- `Views` (`views.dfy`) — `activeItems`, `completedItems` and `categories`.
- `Items` (`items.dfy`) — `addItem`, the two tick handlers and the item delete
  buttons.
- `Trips` (`trips.dfy`) — `finishShopping`, its store label, and trip deletion.
- `Settings` (`settings.dfy`) — adding and removing markets, and adding and
  deleting receipts.
- `App` (`app.dfy`) — every control as an `Event`, a `Step` function and a
  `Run` over a session. Also the invariant that every session from a fresh
  install keeps.

Behaviour worth knowing, all as the code does it:

- The new-market button checks the trimmed input but appends the untrimmed
  input. It also appends a name the list already holds.
- Removing a market removes every equal entry.
- A trip's store label is "Çoklu Market" when the basket spans several markets.
  A basket drawn from one market that is itself named "Çoklu Market" gets the
  same label. `Trips.StoreLabel` states this exact if-and-only-if.
- Every item is created under DİĞER with quantity 1, and nothing changes either
  field later. So from a fresh install the list page never shows more than one
  category heading (`App.AtMostOneHeading`).

## Model

| member | source | states |
|---|---|---|
| Text.Trim | src/App.tsx:99 | The trimmed text is a slice of the input with only whitespace cut from either end, and neither of its ends is whitespace. It is empty exactly when the input is all whitespace, so `!newItemName.trim()` means "blank". |
| Text.TextStart | src/App.tsx:99 | Scanning forward stops at the first character that is not whitespace, or at the end when there is none; everything it skipped is whitespace. |
| Text.TextEnd | src/App.tsx:99 | Scanning backward stops just after the last character that is not whitespace, and never passes the start of the text; everything it skipped is whitespace. |
| Text.TrimUnique | src/App.tsx:99-100 | Any way of cutting only whitespace from both ends that leaves a trimmed string gives exactly the trimmed text. This is an independent definition of trim. |
| Text.TrimIdempotent | src/App.tsx:100 | Trimming a stored (already trimmed) item name again changes nothing. |
| Text.LessTransitive | src/App.tsx:95 | The default sort order on strings is transitive. |
| Text.LessTotal | src/App.tsx:95 | Any two different strings are ordered one way or the other by the default sort order. |
| Seqs.Filter | src/App.tsx:93-94 | `filter` keeps exactly the elements passing the test, every copy of each, as a subsequence (original relative order), and its length is the number that pass. |
| Seqs.FilterUnique | src/App.tsx:165 | A subsequence that keeps every copy of each passing element and nothing else is exactly the filter result. Order plus multiplicities pin down what the delete handlers return. |
| Seqs.FilterIdempotent | src/App.tsx:165 | Filtering twice with the same test is filtering once. |
| Seqs.Dedup | src/App.tsx:95 | `Array.from(new Set(xs))` holds exactly the values of `xs`, with no repeats. |
| Views.ActiveItems | src/App.tsx:93 | The open items are exactly the list's items whose `completed` is false, every copy, in list order. |
| Views.CompletedItems | src/App.tsx:94 | The basket is exactly the list's items whose `completed` is true, every copy, in list order. |
| Views.ActiveCompletedPartition | src/App.tsx:93-94 | Each item lands in exactly one of the two views. Their multisets add up to the list's, and their lengths to its length. |
| Views.NothingCompleted | src/App.tsx:106 | The basket is empty exactly when the open view is the whole list. |
| Views.PrecedesTotal | src/App.tsx:95 | Different categories have different labels, so the sort orders any two of them. |
| Views.CategoryOrder | src/App.tsx:24 | The labels sort as DİĞER, ET, KİLER, MANAV, SÜT. |
| Views.Insert | src/App.tsx:95 | Inserting a missing category into a strictly sorted list keeps it strictly sorted and adds exactly that category. |
| Views.Sort | src/App.tsx:95 | Sorting distinct categories gives a strictly sorted list with the same elements and length. |
| Views.Categories | src/App.tsx:95 | The headings are strictly sorted by label and have no duplicates. A category is a heading exactly when some open item carries it. |
| Views.SortedUnique | src/App.tsx:95 | Two strictly sorted lists with the same elements are equal, so the headings depend only on which categories are open, not on insertion order. |
| Items.AddItem | src/App.tsx:97-103 | Blank input leaves the state unchanged. Otherwise exactly one item is prepended and the old list follows unchanged, in order. The new item has the given id, the trimmed (non-empty) name, category DİĞER, the selected market, quantity 1 and `completed = false`. Nothing else changes. |
| Items.AddItemViews | src/App.tsx:100 | The new item heads the open view, the basket is unchanged, and DİĞER becomes a heading. |
| Items.MarkCompleted | src/App.tsx:160 | The `items.map` of the tick handlers keeps length and order. It sets `completed` on every item with the id and returns every other item as it was. |
| Items.Complete | src/App.tsx:160 | Tapping an open item: same length and order. `completed` becomes true exactly for items with that id, and is otherwise unchanged. No other field of any item changes, and no other slice of the state changes. |
| Items.Uncomplete | src/App.tsx:181 | Tapping a basket item: same length and order. `completed` becomes false exactly for items with that id. No other field and no other slice of the state changes. |
| Items.CompleteThenUncomplete | src/App.tsx:181 | When every item with the id was open, un-completing after completing restores the state exactly. |
| Items.UncompleteThenComplete | src/App.tsx:160 | When every item with the id was in the basket, completing after un-completing restores the state exactly. |
| Items.CompleteIdempotent | src/App.tsx:160 | Completing twice is completing once. |
| Items.CompleteLeavesOpenView | src/App.tsx:159-160 | After completing an id, the open view is the old open view with that id deleted, in order. |
| Items.UncompleteLeavesBasketView | src/App.tsx:180-181 | After un-completing an id, the basket is the old basket with that id deleted, in order. |
| Items.DeleteItem | src/App.tsx:165 | Every item with the id goes and every other item stays, each copy, as a subsequence. The length drops by the number of items with that id. Nothing else changes. |
| Items.DeleteItemIdempotent | src/App.tsx:183 | Deleting the same id twice is deleting once. |
| Items.DeleteItemViews | src/App.tsx:165 | Deleting commutes with both views: each loses just the items with that id. |
| Items.DeleteUniqueRemovesOne | src/App.tsx:165 | With unique ids, deleting a listed id removes exactly one item. |
| Trips.DistinctMarketCount | src/App.tsx:109 | `new Set(markets).size > 1` holds exactly when two different markets occur. |
| Trips.StoreLabel | src/App.tsx:109 | Several markets give "Çoklu Market". One market gives that market, and then every item has it. The label is "Çoklu Market" exactly when there are several markets or the single market is named so. |
| Trips.NewTrip | src/App.tsx:107-113 | The new trip has the given id and date, `itemCount` equal to the basket size and to its number of lines, and line k equal to (name, market) of basket item k. Its store follows the market rule, and it is a well-formed snapshot. |
| Trips.FinishShopping | src/App.tsx:105-117 | With nothing in the basket the state is unchanged. Otherwise exactly one trip made from the basket is prepended and older history follows unchanged. The list keeps exactly the open items, every copy of each, as a subsequence, which with `Seqs.FilterUnique` makes it `items.filter(i => !i.completed)`. Markets and receipts are unchanged. |
| Trips.FinishShoppingViews | src/App.tsx:115 | Afterwards the basket is empty and the open view is unchanged. The remaining list and the old basket add up to the old list, in count and in multiset. |
| Trips.FinishShoppingTwice | src/App.tsx:106 | A second press straight after the first changes nothing. |
| Trips.DeleteTrip | src/App.tsx:201 | Every trip with the id goes and every other trip stays, each copy, as a subsequence. Nothing else changes. |
| Trips.FinishThenDeleteTrip | src/App.tsx:201 | Deleting the trip just made, when no older trip shares its id, leaves exactly the older history. |
| Settings.AddMarket | src/App.tsx:228 | Blank input leaves the state unchanged. Otherwise the untrimmed input is appended at the end and the old list is kept as a prefix. Nothing else changes. |
| Settings.RemoveMarket | src/App.tsx:229 | Every entry equal to the market goes and every other entry stays, each copy, as a subsequence. Nothing else changes. |
| Settings.RemoveOtherMarketKeepsDefault | src/App.tsx:229 | Removing any market other than "Genel" keeps "Genel" exactly when it was there. |
| Settings.AddThenRemoveMarket | src/App.tsx:228-229 | Removing a market just added, when the list did not hold it, restores the state exactly. |
| Settings.AddReceipt | src/App.tsx:212 | The read photo's record (id, date, data URL) is prepended and the older receipts follow unchanged. Nothing else changes. |
| Settings.DeleteReceipt | src/App.tsx:213 | Every receipt with the id goes and every other receipt stays, each copy, as a subsequence. Nothing else changes. |
| Settings.AddThenDeleteReceipt | src/App.tsx:212-213 | Deleting a receipt just added, when no older receipt shares its id, restores the state exactly. |
| App.Offered | src/App.tsx:229 | The remove button is never offered for "Genel" and only next to a listed market; every other control is always available. |
| App.Step | src/App.tsx:160-229 | A control that is not offered leaves the state alone. Only the item controls and "BİTİR" change the list, only "BİTİR" and trip deletion change the history, only the market controls change the markets, and only reading or deleting a receipt changes the receipts. |
| App.InitialInvariant | src/App.tsx:64-67 | The fresh-install state (empty lists, default markets) satisfies the invariant. |
| App.TickKeepsAsAdded | src/App.tsx:160 | A change that only touches `completed` keeps every item as `addItem` made it. |
| App.AddItemInvariant | src/App.tsx:100 | Adding an item keeps the invariant: the new item has a non-blank trimmed name, DİĞER and quantity 1. |
| App.FinishShoppingInvariant | src/App.tsx:107-115 | Finishing a trip keeps the invariant: the new history entry is well formed. |
| App.AddMarketInvariant | src/App.tsx:228 | Adding a market keeps "Genel" in the list. |
| App.StepInvariant | src/App.tsx:160-229 | Every control the pages offer keeps the invariant: "Genel" listed, every trip well formed, every item as added. |
| App.RunInvariant | src/App.tsx:160-229 | Any session of offered controls keeps the invariant. |
| App.FreshSessionInvariant | src/App.tsx:66 | From a fresh install no session removes "Genel" or produces a malformed history entry. |
| App.AtMostOneHeading | src/App.tsx:95-100 | When every item is as added, the category headings are empty or just DİĞER. |

## Left out

- Loading and saving through `localStorage` (`getSavedData` and the five persistence effects). This is browser I/O and JSON serialisation. The model starts from any state, or from the fresh-install defaults.
- The dark-mode flag and its `classList` effect. This is a display side effect that touches none of the four lists.
- `Date.now()`, `toLocaleString` and `toLocaleDateString`. They depend on the clock and locale, so their results are parameters.
- Reading the photo with `FileReader`. This is asynchronous browser I/O. Only the resulting prepend of a receipt record is modelled (`Settings.AddReceipt`).
- Settings.AddReceipt: prepends onto the current receipt list, with a string data URL. The app's `onloadend` callback prepends onto the `receipts` value captured when the file was picked, so a receipt deleted while the photo is being read comes back, and of two overlapping reads one record is lost. `loadend` also fires on a failed read, when `reader.result` is null, and a record with a null `imageUrl` is still prepended. Both come from the asynchronous read, which is not modelled.
- Clearing the input boxes after adding an item or a market, focusing the input, and switching to the history page after finishing a trip. These are UI-only state and have no effect on the lists.
- Rendering, animation, icons, `NavButton`, and the `view`, `expandedHistoryId` and `isCompletedExpanded` toggles. These are display only.
- UTF-16 surrogate pairs. `char` is a Unicode scalar value, and JavaScript compares strings by UTF-16 code units. The two orders agree inside the Basic Multilingual Plane, which holds every category label. All whitespace characters that `trim` removes are in that plane too.
- The JavaScript number width of `quantity` and `itemCount`. They are unbounded integers here. The app only ever stores 1 and basket sizes in them.
- Which controls are drawn per item. Tap and delete buttons appear only next to listed items. The handlers are total and do nothing for an id that is not listed, so the model lets every event through. The one exception is the market remove button, which is never drawn for "Genel" (`App.Offered`).

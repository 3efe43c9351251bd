# Inventory manager core, in Dafny

A model of the logic behind a client-side inventory screen (React and
TypeScript). The model covers four parts:

- **The item dialog's schema** (`ItemDialog`). It holds the per-field rules: a
  name of 2 to 20 characters, a non-empty category, a whole quantity above
  zero, and a price above zero. It also holds the case-insensitive name
  uniqueness refinement, whose exemption depends on the item being edited. The
  last part is the payload that `onSubmit` assembles.
- **The list state** (`Inventory`). It holds the seed list and the name search.
  Add appends. Edit replaces by id and stamps the time. Delete removes by id and
  keeps a snapshot, and its Undo action puts that snapshot back. The save flow
  runs the schema before it touches the list.
- **The table** (`InventoryTable`). It holds the sort-header state machine and
  the stable sort by the chosen column and direction.
- **The reports** (`Reports`). They hold the item count, the total stock value,
  the low-stock list (fewer than 5 units) and the per-category breakdown, which
  is sorted by value, largest first.

Supporting modules: `Wrappers` (`Option`, `Result`), `Types` (the `Item`
record), `Text` (an ASCII lower-case fold, substring search and the string
order that `<` uses), `Seqs` (filter, first match, sums, pairwise relations)
and `StableSort`. `StableSort` is an insertion sort by key. It is proved
stable and sorted, and proved equal to every other sequence that is stable and
sorted. So it yields what the built-in stable `Array.prototype.sort` yields
with a comparator that returns 0 on ties.

Clocks and id generators become parameters. `timestamp` is the submit time.
`stamp` is the time `handleEditItem` takes. `loadStamp` is the time taken when
the dialog module loads. `generatedId` and `freshId` are the ids of the dialog
and of `handleAddItem`. Prices and values are exact `real`s.

Behaviour of the code worth knowing, which the model keeps:

- Name length and the category check do not trim, so a category of `" "` passes.
- Undo does not check for conflicts and does not reinsert one item. It sets the
  list back to the whole snapshot taken at delete time. Every delete
  notification keeps its own snapshot, so an older one can still be used, and
  any change made after the delete is lost.
- A new item's `lastUpdated` is the timestamp in the form's default values. It
  is taken once when the module loads, not at submit.
- Ids are not checked for uniqueness. Lemmas that need unique ids take a fresh
  id as a precondition.

## Model

| member | source | states |
|---|---|---|
| ItemDialog.ValidateAsWritten | components/item-dialog.tsx:22-55 | The schema as written accepts exactly when every field rule holds and description, supplier and lastUpdated are all present; on failure it reports exactly the violated rules, several at once |
| ItemDialog.Validate | components/item-dialog.tsx:22-55 | The schema with absent free-text fields accepted: it accepts exactly the values meeting every field rule, otherwise it reports a non-empty list of exactly the violated field rules |
| ItemDialog.FieldIssues | components/item-dialog.tsx:24-34 | The name, category, quantity and price issues are exactly the violated field rules, and there are none exactly when the value is acceptable |
| ItemDialog.NameIssues | components/item-dialog.tsx:24-52 | The name key raises exactly its violated rules: too short, too long, taken; the uniqueness refinement runs even when a length check failed |
| ItemDialog.OtherIssues | components/item-dialog.tsx:29-34 | The category, quantity and price keys raise exactly their violated rules |
| ItemDialog.AsWrittenAgrees | components/item-dialog.tsx:28-36 | When description, supplier and lastUpdated are present, the schema as written and the corrected schema give the same result |
| ItemDialog.ItemToSave | components/item-dialog.tsx:110-120 | The saved item keeps the entered fields; an edit keeps the edited item's id and takes the submit time; an add keeps a non-empty entered id or takes the generated one; description and supplier default to "" |
| ItemDialog.SavedItemValid | components/item-dialog.tsx:110-120 | Whatever is saved after a successful validation meets every field rule and has a description |
| ItemDialog.NameLengthBoundaries | components/item-dialog.tsx:24-27 | Names of 2 and of 20 characters pass both length rules; 1 character is too short and 21 too long |
| ItemDialog.CategoryNotTrimmed | components/item-dialog.tsx:29 | A single blank counts as a category: there is no trim |
| ItemDialog.QuantityRule | components/item-dialog.tsx:30-33 | Zero, negative and fractional quantities are rejected; 1 passes |
| ItemDialog.PriceRule | components/item-dialog.tsx:34 | A price is rejected exactly when it is not above zero |
| ItemDialog.AddDuplicateRejected | components/item-dialog.tsx:50 | With no current item, a name equal ignoring case to any existing name is rejected |
| ItemDialog.EditOwnNameAccepted | components/item-dialog.tsx:47-48 | When editing, the item's own name in any case is never reported as taken |
| ItemDialog.EditOtherNameRejected | components/item-dialog.tsx:47-50 | When editing, a new name equal ignoring case to another item's name is rejected |
| ItemDialog.EditSaveKeepsIdentity | components/item-dialog.tsx:96-120 | Editing an item through the form keeps its id, stamps the submit time, keeps description and supplier ("" when absent) and takes the entered name, category, quantity and price |
| ItemDialog.AddSaveUsesLoadStamp | components/item-dialog.tsx:57-120 | A new item from the empty form gets the generated id, "" for description and supplier, and the module-load timestamp rather than the submit time |
| Inventory.SeedWellFormed | components/inventory.tsx:14-36 | The seed list has valid items, unique ids and names unique ignoring case |
| Inventory.Search | components/inventory.tsx:46-48 | The search keeps exactly the items whose lower-cased name contains the lower-cased term, as an order-preserving subsequence |
| Inventory.SearchExact | components/inventory.tsx:46-48 | Each matching item is kept as often as it occurs, and no other item is kept |
| Inventory.SearchEmptyTerm | components/inventory.tsx:46-48 | An empty term returns the list unchanged |
| Inventory.AddItem | components/inventory.tsx:50-55 | Adding appends exactly one item, carrying the fresh id, after the untouched old list |
| Inventory.EditItem | components/inventory.tsx:61-68 | Editing keeps the length, every id and every entry with another id, and replaces each entry with the updated id by the updated item stamped with the edit time |
| Inventory.AddKeepsIdsUnique | components/inventory.tsx:50-55 | Adding with a fresh id keeps the ids unique |
| Inventory.EditKeepsIdsUnique | components/inventory.tsx:61-68 | Editing keeps the ids unique |
| Inventory.AddKeepsNamesUnique | components/item-dialog.tsx:45-52 | An add that passed validation keeps the names unique ignoring case |
| Inventory.EditKeepsNamesUnique | components/item-dialog.tsx:45-52 | An edit of a listed item that passed validation keeps the names unique ignoring case |
| Inventory.Submit | components/inventory.tsx:74-80 | A submit fails exactly when the schema as written rejects the values, which includes a missing description, supplier or timestamp, and then it reports exactly the violated rules and leaves the list alone; an add appends the saved item under the fresh id after the untouched old list; an edit keeps the length, replaces each entry with the saved item's id by the saved item stamped with the edit time, and keeps every other entry |
| Inventory.SubmitCorrected | components/inventory.tsx:74-80 | With absent free-text fields accepted, a submit fails exactly when a field rule is violated; on success it adds or edits exactly as the flow as written does |
| Inventory.SubmitAgrees | components/item-dialog.tsx:28-36 | The two save flows give the same result whenever description, supplier and timestamp are present, and whenever the flow as written succeeds |
| Inventory.SubmitCorrectedKeepsWellFormed | components/inventory.tsx:74-80 | A successful corrected submit keeps the list valid, with unique ids and names, given a fresh id for an add and a listed item for an edit |
| Inventory.SubmitKeepsWellFormed | components/inventory.tsx:74-80 | A successful submit keeps the list valid, with unique ids and names, given a fresh id for an add and a listed item for an edit |
| Inventory.DuplicateLaptopRejected | components/item-dialog.tsx:50 | Adding "laptop" in another category to the seed list is refused because the name is taken |
| Inventory.FindById | components/inventory.tsx:82-84 | The lookup finds nothing exactly when no item has the id, and otherwise finds the first item with that id |
| Inventory.ConfirmDelete | components/inventory.tsx:88-114 | With no picked item nothing changes and no undo is offered; otherwise exactly the items with another id remain, in order, and the whole previous list is kept for undo |
| Inventory.DeleteMissingId | components/inventory.tsx:82-89 | A delete for an id no item has leaves the list unchanged and offers no undo |
| Inventory.DeleteFoundId | components/inventory.tsx:91 | A delete keeps each item with another id as often as before, in order, and drops the rest; with unique ids the list is one shorter |
| Inventory.RemoveUniqueId | components/inventory.tsx:91 | Removing an id that exactly one item has shortens the list by one |
| Inventory.DeleteKeepsWellFormed | components/inventory.tsx:91 | Deleting keeps the list valid with unique ids and names |
| Inventory.DeleteThenUndo | components/inventory.tsx:93-103 | Delete then Undo gives back exactly the list before the delete |
| Inventory.UndoDropsLaterAdd | components/inventory.tsx:101-103 | Undo restores the snapshot, not the current list, so an item added after the delete is lost |
| Inventory.FirstUndoAfterSecondDelete | components/inventory.tsx:93-103 | After a second delete, the first delete's Undo still restores the list from before the first delete, bringing back both items |
| Inventory.PrinterDeleteUndo | components/inventory.tsx:88-107 | Deleting the seed printer removes it, and Undo brings it back with its id and fields |
| Inventory.SeedEditRejectedAsWritten | components/item-dialog.tsx:28-36 | As written, a seed item submitted unchanged from the edit form is rejected because it has no description, so the save flow leaves the list unchanged |
| Inventory.UnchangedEditAccepted | components/item-dialog.tsx:114-118 | With absent free-text fields accepted, every item of a well-formed list passes validation when submitted unchanged from the edit form, and the corrected save flow keeps every entry, only filling in "" for missing text and stamping the edited one |
| InventoryTable.HandleSort | components/inventory-table.tsx:22-29 | A header click always selects that column; on the current column the direction changes, on another column it is ascending |
| InventoryTable.HandleSortTwice | components/inventory-table.tsx:23-24 | Two clicks on the current column restore the sort state |
| InventoryTable.HandleSortNewColumnTwice | components/inventory-table.tsx:25-28 | Two clicks on a new column leave it sorted descending |
| InventoryTable.SortItems | components/inventory-table.tsx:31-35 | The sorted view is a permutation of the shown items |
| InventoryTable.SortItemsCorrect | components/inventory-table.tsx:31-35 | Ascending, no item is followed by one with a smaller key; descending, none by one with a larger key; items with equal keys keep their input order |
| InventoryTable.SortItemsUnique | components/inventory-table.tsx:31-35 | Any sequence that is ordered that way and keeps ties in input order is exactly the sorted view |
| InventoryTable.PriceTiesKeepOrder | components/inventory-table.tsx:31-35 | Two items with equal prices stay in input order when sorted by price |
| InventoryTable.TableView | components/inventory.tsx:150-151 | The table shows exactly the items matching the search, each as often as the search keeps it, ordered by the current column in the current direction with ties in list order |
| InventoryTable.SeedInitialView | components/inventory-table.tsx:19-20 | The seed list opens in name order: laptop, office chair, printer |
| InventoryTable.StrLessStrictTotal | components/inventory-table.tsx:32-33 | The string order that the comparator uses is a strict total order |
| Text.Lower | components/inventory.tsx:47 | Lower-casing keeps the length and lower-cases each character |
| Text.Contains | components/inventory.tsx:47 | The search holds exactly when the term occurs at some position |
| Text.StrLessTransitive | components/inventory-table.tsx:32-33 | The string order is transitive |
| Text.StrLessTotal | components/inventory-table.tsx:32-33 | Of two different strings, one is below the other |
| StableSort.SortBy | components/inventory-table.tsx:31 | The sort returns a permutation of a copy of its input |
| StableSort.SortByStable | components/inventory-table.tsx:31-35 | For every key, the elements with that key appear in input order |
| StableSort.SortBySorted | components/inventory-table.tsx:31-35 | Under a strict total order no element is followed by one with a smaller key |
| StableSort.SortByUnique | components/inventory-table.tsx:31-35 | A sorted sequence that keeps every key's elements in input order is the sort's result |
| StableSort.SortByTiesInOrder | components/inventory-reports.tsx:40 | Elements with equal keys keep any order the input follows |
| Reports.TotalValueIsSum | components/inventory-reports.tsx:14-16 | The running total is the sum of price times quantity over the items |
| Reports.AddRaisesTotal | components/inventory-reports.tsx:12-16 | Adding an item raises the count by one and the total value by that item's value |
| Reports.TotalValuePositive | components/inventory-reports.tsx:14-16 | A non-empty list of items with positive prices and quantities has a positive total value |
| Reports.LowStock | components/inventory-reports.tsx:18-20 | The low-stock list keeps exactly the items with fewer than 5 units, in order |
| Reports.LowStockExact | components/inventory-reports.tsx:18-20 | Each low item is kept as often as it occurs and no other item is kept |
| Reports.LowStockBoundary | components/inventory-reports.tsx:19 | 4 units is low, 5 is not |
| Reports.SeedHasNoLowStock | components/inventory-reports.tsx:18-20 | The seed list has no low-stock item, the printer's 5 units being at the threshold |
| Reports.SeedTotals | components/inventory-reports.tsx:12-16 | The seed list has 3 items worth 26000 |
| Reports.Breakdown | components/inventory-reports.tsx:22-41 | The breakdown holds exactly the rows the record holds |
| Reports.TallyDescribes | components/inventory-reports.tsx:25-32 | The record built item by item has one row per category present, each with its item count and value, in order of first occurrence |
| Reports.AccumulateDescribes | components/inventory-reports.tsx:25-32 | One item's step keeps the record describing the items seen so far |
| Reports.TallyTotals | components/inventory-reports.tsx:25-32 | The record's counts add up to the item count and its values to the total value |
| Reports.BreakdownRows | components/inventory-reports.tsx:22-39 | Every breakdown row has a positive count and is its category's count and value, every category present has a row, and no category has two |
| Reports.BreakdownOrder | components/inventory-reports.tsx:34-40 | Values never increase down the breakdown, and rows of equal value follow the order in which their categories first occur |
| Reports.BreakdownTotals | components/inventory-reports.tsx:22-41 | The breakdown's counts add up to the item count and its values to the total value |
| Reports.SeedBreakdown | components/inventory-reports.tsx:22-41 | The seed list's breakdown is Electronics (2 items, 19750), then Furniture (1 item, 6250) |

## Left out

- Rendering, dialog chrome, tabs and the delete-confirmation dialog are presentation, so they are not modelled. `openAddDialog` and `openEditDialog` only choose the mode and the current item. Those two are parameters of `Inventory.Submit` and `Inventory.ConfirmDelete`.
- Notifications and their lifetime are not modelled, because they are UI side effects. So the time window in which Undo is offered is left out. The Undo action itself is `Inventory.Undo`.
- `Date.now()`, `Math.random()` and ISO timestamps are not modelled, because they are clocks and randomness. They become parameters.
- Inventory.AddItem: the code does not guarantee that the new id is fresh. Lemmas that need unique ids assume it as a precondition.
- Floating-point rounding is not modelled: prices, values and sums are exact reals.
- Currency formatting with `Intl.NumberFormat` is not modelled, because it is a library call.
- Zod's coercion of raw input strings is not modelled: the model starts from the coerced numbers. So a non-numeric quantity (NaN) is not a case here. The react-hook-form wiring is left out too, and so are the issue messages: only the kind of each issue is kept.
- `toLowerCase` is an ASCII fold here, not the Unicode mapping. `.length` counts characters, not UTF-16 code units. String `<` compares characters.
- React's state batching and stale closures are left out, because they are framework behaviour. Each handler is modelled as a function from the current list to the next list.
- Reports.Tally: category names are assumed to be ordinary own keys of the record. A name of an `Object.prototype` member (`constructor`, `toString`, `valueOf`, `hasOwnProperty`, `__proto__` and the like) finds an inherited truthy value, so the code creates no row for it, writes NaN onto a built-in object and `Object.entries` leaves that category out; the model gives it a row. Integer-like names, which `Object.entries` lists first, are left out as well. Modelling JavaScript's prototype lookup is outside this model.
- The category list is not enforced by the schema, so the model does not enforce it either.

## Findings

| source | as written | input that shows it | evidently intended | confidence | as-written member | corrected member |
|---|---|---|---|---|---|---|
| components/item-dialog.tsx:28-36 | `description`, `supplier` and `lastUpdated` are required strings. The seed items have none of them, and the form has no input for them. | Open the edit dialog on seed item "Laptop" and submit it unchanged. Validation fails with a `description` issue that no field displays. | Absent free-text fields are accepted, because `onSubmit` already falls back to "" and to the submit time | medium, not executed | Inventory.SeedEditRejectedAsWritten | Inventory.UnchangedEditAccepted |

# Data grid engine — a Dafny model

This project models the headless engine of a React data grid that lists, searches, sorts, pages and edits a table of users. It covers these parts:

- **Row pipeline:**
  - `sortData`: a multi-key, stable sort.
  - `filterData`: a case-insensitive whole-row search followed by per-column predicates.
  - `paginateData`: a slice.
- **Grid reducer:** the `(state, action) → state` transition function over `GridState`, and its initial state.
- **Windowing:** the virtual-scroll window formula.
- **Gesture state machines:** the touch swipe recogniser and the drag-reorder tracker.
- **Rules inside the UI components:**
  - Header: sort cycle, filter merge, select-all, pin toggle, resize clamp, drag-to-reorder.
  - Pagination: page arithmetic and the five-button page window.
  - Grid: the processed-data pipeline, the row-height table, swipe-to-page navigation, refresh, theme toggle and visible columns.
  - Column manager: reset to defaults, the export projection and the pin buttons.
- **Mock back end:** fetch, update and delete over the in-memory user table.

Modules, one per source file, plus shared ones:

| module | file | models |
|---|---|---|
| `Wrappers` | wrappers.dfy | `Option`, `Result`, `Outcome` |
| `Text` | text.dfy | the string built-ins the code relies on: `toLowerCase`, `includes`/`startsWith`/`endsWith`, `localeCompare`, `toString`, `Number.parseInt` and `Number` |
| `GridTypes` | grid_types.dfy | `types/grid.types.ts` |
| `IntMath` | int_math.dfy | floor and ceiling division (`Math.floor`, `Math.ceil` of a quotient) and the arithmetic lemmas about them |
| `GridHelpers` | grid_helpers.dfy | `utils/gridHelpers.ts` |
| `GridReducer` | grid_reducer.dfy | `contexts/DataGridContext.tsx` |
| `VirtualScroll` | virtual_scroll.dfy | `hooks/useVirtualScroll.ts` |
| `Touch` | touch.dfy | `hooks/useTouch.ts` |
| `DragDrop` | drag_drop.dfy | `hooks/useDragAndDrop.ts` |
| `DataGridView` | data_grid.dfy | `components/DataGrid/DataGrid.tsx` |
| `Header` | header.dfy | `components/DataGrid/DataGridHeader.tsx` |
| `PaginationView` | pagination_view.dfy | `components/DataGrid/Pagination.tsx` |
| `ColumnManager` | column_manager.dfy | `components/DataGrid/ColumnManager.tsx` |
| `Api` | api.dfy | `hooks/useApi.ts` |

Each part takes the form of its source:

- **Pure code** is written as functions with lemmas: the reducer, the header rules, pagination, windowing and the sort.
- **Code that changes state step by step** is imperative Dafny:
  - The touch recogniser is a class with the hook's fields, and so is the drag tracker.
  - `filterData` is a method whose loop reassigns the filtered rows once for each filter entry.
  - `resetColumns` is a method that loops, dispatching toggles through the reducer.
  - The export projection loops over the visible ids, filling each row's object.
  - The mock table is a class whose `users` field the update and delete methods reassign.
- **Each method is proved against a specification function,** and the properties are proved about that function.

Modelling choices:

- **Numbers** are mathematical integers: ids, salaries, milliseconds and page arithmetic are whole numbers in the code. Scroll offsets and touch coordinates are modelled as integers too; fractional CSS-pixel values are not represented (see "## Left out").
- **`Math.ceil` of a quotient** is written out with floor division. Dafny's `/` is Euclidean, and it agrees with `Math.floor` for the positive divisors used here.
- **`localeCompare`** is a total order on strings (lexicographic by code point). The sort proofs only need a total order, not real collation.
- **`toLowerCase`** maps `A`–`Z` to `a`–`z`.
- **`String(v)`** is a per-field rendering function.
- **`Number(v)` and `Number.parseInt`** are partial parses. `None` stands for `NaN`, which fails every comparison.
- **A JavaScript object used as a dictionary** (the filter model, the exported row) is a sequence of key–value pairs in insertion order with distinct keys. A `Set` is a Dafny `set`.
- **Inputs from the outside world are parameters:**
  - the clock (`Date.now()`), passed to the touch handlers as a time;
  - `isMobile`, a boolean;
  - the scroll offset, an integer;
  - the pointer coordinates of a resize drag.

Behaviour worth knowing:

- **Window size.** A window of `ceil(containerHeight / itemHeight) + 2 * overscan` rows is not guaranteed: the formula can render two more, because the `ceil` end can include a row that is not on screen. `VirtualScroll.WindowBounded` proves the looser bound and `VirtualScroll.WindowExceedsTightBound` shows the tight one failing.
- **Initial columns.** They carry neither `pinnable` nor `resizable`, so the header hides the pin and resize controls for the initial columns (`GridReducer.InitialColumnsNotPinnableOrResizable`).
- **Select-all** selects the ids of the loaded rows only (`state.data`), not of every row that matches.
- **`SET_PAGINATION`** overwrites only the fields given in the payload. It never resets the page by itself; `handlePageSizeChange` sends `page: 1` itself.

## Model

| member | source | states |
|---|---|---|
| `Text.ToLower` | utils/gridHelpers.ts:35 | lowercasing keeps the length |
| `Text.ToLowerIdempotent` | utils/gridHelpers.ts:35 | lowercasing twice is lowercasing once, so comparing lowercased text against a lowercased query is stable |
| `Text.AffixesAreOccurrences` | utils/gridHelpers.ts:47-53 | a prefix (`startsWith`) and a suffix (`endsWith`) are also substrings (`includes`); the empty string is in every string |
| `Text.LeadingDigits` | hooks/useApi.ts:63 | `parseInt` reads the longest run of leading digits: the result is all digits and a prefix of the input |
| `Text.NatToString` | contexts/DataGridContext.tsx:122 | `toString` of a natural number is a non-empty string of digits |
| `Text.DigitsValueOfNatToString` | contexts/DataGridContext.tsx:122 | reading the digits of `n.toString()` gives back `n` |
| `Text.LeadingDigitsOfDigits` | hooks/useApi.ts:63 | on an all-digit string `parseInt` reads every character |
| `Text.ParseIntToString` | hooks/useApi.ts:63 | `parseInt(n.toString()) == n` and `Number(n.toString()) == n` for every integer, so an id survives the string round trip the table lookups rely on |
| `Text.IntToStringInjective` | contexts/DataGridContext.tsx:122 | distinct ids have distinct string forms, so stringified ids in the selection identify rows |
| `Text.LocaleCompare` | utils/gridHelpers.ts:14 | the comparison returns -1, 0 or 1 |
| `Text.LocaleCompareAntisymmetric` | utils/gridHelpers.ts:14 | swapping the operands negates the comparison |
| `Text.LocaleCompareZero` | utils/gridHelpers.ts:14 | two strings compare equal exactly when they are equal |
| `Text.LocaleCompareTransitive` | utils/gridHelpers.ts:14 | the comparison is transitive, so it is a total order |
| `GridHelpers.FieldKindFixed` | utils/gridHelpers.ts:8-19 | every known field holds values of one kind (string or number) in every row, so two rows always compare by the same branch |
| `GridHelpers.KeyCompareAntisymmetric` | utils/gridHelpers.ts:11-23 | one sort key compares `b, a` as the negation of `a, b`, where `desc` flips the sign |
| `GridHelpers.KeyCompareTie` | utils/gridHelpers.ts:11-21 | two rows that tie on a key (other than `avatar`) compare the same way against any third row on that key |
| `GridHelpers.KeyCompareStrict` | utils/gridHelpers.ts:11-23 | on a key other than `avatar`, strictly-before is transitive |
| `GridHelpers.CompareRowsAntisymmetric` | utils/gridHelpers.ts:7-25 | the comparator (first non-zero key decides) is antisymmetric |
| `GridHelpers.CompareRowsReflexive` | utils/gridHelpers.ts:7-25 | every row ties with itself |
| `GridHelpers.CompareRowsTie` | utils/gridHelpers.ts:7-25 | with consistent keys, two rows the comparator ties compare the same way against any third row |
| `GridHelpers.CompareRowsTransitive` | utils/gridHelpers.ts:7-25 | with keys on fields of one kind, `<=` under the comparator is transitive |
| `GridHelpers.AvatarKeyInconsistent` | utils/gridHelpers.ts:8-19 | a key on the optional `avatar` field compares a missing value equal to everything, so the order is not transitive there; this is why the ordering lemmas assume no such key |
| `GridHelpers.StableSortMultiset` | utils/gridHelpers.ts:6 | the sort returns a permutation of its input |
| `GridHelpers.StableSortSorted` | utils/gridHelpers.ts:6-26 | with consistent keys the output is ordered by the comparator |
| `GridHelpers.StableSortTies` | utils/gridHelpers.ts:6-25 | rows tying on every key keep their input order (stability) |
| `GridHelpers.SortedFixpoint` | utils/gridHelpers.ts:6-26 | sorting an already sorted sequence changes nothing |
| `GridHelpers.SortDataSpec` | utils/gridHelpers.ts:3-27 | `sortData` returns a permutation of the same length; an empty model returns the input itself; under consistent keys the output is sorted and stable |
| `GridHelpers.SortDataIdempotent` | utils/gridHelpers.ts:3-27 | sorting twice is sorting once |
| `GridHelpers.FilterData` | utils/gridHelpers.ts:29-65 | the loop over filter entries, each pass reassigning the rows, computes exactly the rows that pass the search and every entry, in input order |
| `GridHelpers.SurvivorsMembers` | utils/gridHelpers.ts:29-65 | a row is in the filtered result iff it is in the input and passes the search and every entry |
| `GridHelpers.SurvivorsCount` | utils/gridHelpers.ts:29-65 | each passing row occurs as often as in the input, each failing row not at all |
| `GridHelpers.SurvivorsSubsequence` | utils/gridHelpers.ts:30-64 | the result is an order-preserving subsequence, no longer than the input |
| `GridHelpers.SurvivorsNoCriteria` | utils/gridHelpers.ts:30-64 | an empty query and no filters return the input unchanged |
| `GridHelpers.SurvivorsPermutation` | utils/gridHelpers.ts:29-65 | which rows survive depends only on the multiset of input rows |
| `GridHelpers.SurvivorsSorted` | utils/gridHelpers.ts:29-65 | filtering a sorted sequence leaves it sorted |
| `GridHelpers.TextFiltersIgnoreCase` | utils/gridHelpers.ts:46-53 | `contains`, `startsWith` and `endsWith` give the same answer for an operand and its lowercase form |
| `GridHelpers.EqualsIsStrict` | utils/gridHelpers.ts:46-49 | `equals` does not coerce: a numeric field does not equal its own rendered string, which `contains` does match |
| `GridHelpers.NumericFiltersNeedNumbers` | utils/gridHelpers.ts:54-57 | `greaterThan`/`lessThan` fail whenever either side is not a number, and never both hold |
| `GridHelpers.ClampIndex` | utils/gridHelpers.ts:70 | `slice` clamps an index into `[0, length]` |
| `GridHelpers.PaginateWindow` | utils/gridHelpers.ts:67-71 | for page ≥ 1 the page is `data[(page-1)*size .. min(page*size, length)]`, empty past the end, at most `pageSize` long |
| `GridHelpers.SliceMembers` | utils/gridHelpers.ts:70 | a slice, for any bounds, is a contiguous piece of its input and holds only input elements |
| `GridHelpers.SliceWindow` | utils/gridHelpers.ts:70 | a slice of `size` from a non-negative start is the clamped window and holds at most `size` elements |
| `GridReducer.Remove` | contexts/DataGridContext.tsx:64 | filtering out an id keeps every other id and drops all copies of it |
| `GridReducer.SpliceIndex` | contexts/DataGridContext.tsx:71-72 | `splice` clamps its index into `[0, length]` |
| `GridReducer.ReduceWritesOneField` | contexts/DataGridContext.tsx:44-147 | each action changes at most the one state field it is for; every other field is left as it was |
| `GridReducer.SettersStorePayload` | contexts/DataGridContext.tsx:46-56 | the plain setters (data, loading, error, columns, sort, filter, search, density, theme) store their payload |
| `GridReducer.ToggleVisibility` | contexts/DataGridContext.tsx:58-66 | a toggle flips membership of the id, keeps the membership of every other id, and appends an absent id at the end |
| `GridReducer.RemoveAppend` | contexts/DataGridContext.tsx:64 | the filter works part by part on a concatenation, so the remaining ids keep their order |
| `GridReducer.ToggleTwice` | contexts/DataGridContext.tsx:58-66 | toggling twice restores every membership, and the whole state when the id was hidden |
| `GridReducer.PinPlacesOnce` | contexts/DataGridContext.tsx:75-90 | after a pin the id is on exactly the chosen side (none for `none`), every other id keeps its sides, and disjoint sides stay disjoint |
| `GridReducer.ReducePreservesPinsDisjoint` | contexts/DataGridContext.tsx:44-147 | no action makes a column pinned on both sides |
| `GridReducer.ReorderMoves` | contexts/DataGridContext.tsx:68-73 | an in-range reorder is a permutation with the moved column at `to` and the others in their old order |
| `GridReducer.ResizeOnlyWidth` | contexts/DataGridContext.tsx:92-97 | a resize sets the width of the matching columns only, unclamped; length, order and other fields unchanged; unknown id is a no-op |
| `GridReducer.SelectRowFlips` | contexts/DataGridContext.tsx:108-116 | selecting flips the row's membership and no other; selecting twice gives back the state |
| `GridReducer.SelectAll` | contexts/DataGridContext.tsx:118-123 | select-all selects exactly the stringified ids of `data`; clearing gives the empty set |
| `GridReducer.SetPaginationMerges` | contexts/DataGridContext.tsx:125-129 | each pagination field is the payload's when given and the old one otherwise |
| `GridReducer.UpdateRowMerges` | contexts/DataGridContext.tsx:137-142 | an update merges the patch into exactly the rows whose stringified id matches, keeps the length, and is a no-op for an unknown id |
| `GridReducer.MergeFields` | contexts/DataGridContext.tsx:141 | the spread takes each of the nine fields from the patch where given and from the row otherwise; an empty patch changes nothing |
| `GridReducer.InitialStateShape` | contexts/DataGridContext.tsx:8-42 | the initial state shows the nine initial columns in order (`id` … `actions`), nothing pinned, page 1 of size 50, no selection, sort or filter |
| `GridReducer.InitialColumnsNotPinnableOrResizable` | contexts/DataGridContext.tsx:8-26 | no initial column carries `pinnable` or `resizable` |
| `VirtualScroll.WindowInBounds` | hooks/useVirtualScroll.ts:17-21 | `startIndex >= 0`, `endIndex <= itemCount - 1`; no items gives an empty range, and `endIndex == -1` for non-negative inputs |
| `VirtualScroll.WindowCovers` | hooks/useVirtualScroll.ts:18-19 | every item whose band meets the viewport lies in `[startIndex, endIndex]` |
| `VirtualScroll.WindowBounded` | hooks/useVirtualScroll.ts:18-19 | the window holds at most `ceil(containerHeight / itemHeight) + 2 * overscan + 2` items |
| `VirtualScroll.WindowExceedsTightBound` | hooks/useVirtualScroll.ts:18-19 | ten items of height 10 in a 50-pixel viewport at the top render six rows, one more than `ceil(50/10)` |
| `VirtualScroll.WindowHeights` | hooks/useVirtualScroll.ts:23-24 | `totalHeight = itemCount * itemHeight`, `offsetY = startIndex * itemHeight`, and `offsetY < totalHeight` for a non-empty range |
| `VirtualScroll.WindowMonotone` | hooks/useVirtualScroll.ts:17-21 | scrolling further down never moves either end of the window up |
| `Touch.Classify` | hooks/useTouch.ts:74-82 | the stored direction is null exactly when the release is not a swipe |
| `Touch.SquaredDistanceThreshold` | hooks/useTouch.ts:69-72 | `sqrt(dx² + dy²) > 50` iff `dx² + dy² > 2500`, so comparing squares decides the same swipes |
| `Touch.DirectionCases` | hooks/useTouch.ts:77-81 | a horizontal-dominant swipe goes right for `dx > 0`, left otherwise; ties and vertical-dominant swipes go down for `dy > 0`, up otherwise |
| `Touch.NoSwipeWithoutMovement` | hooks/useTouch.ts:67-82 | no movement or a touch of 300 ms or more is never a swipe; a swipe moved more than 35 pixels along some axis |
| `Touch.TouchTracker.constructor` | hooks/useTouch.ts:18-30 | the tracker starts all zero, not a swipe, no direction |
| `Touch.TouchTracker.TouchStart` | hooks/useTouch.ts:32-46 | start and current become the touch point, deltas zero, not a swipe, no direction, start time recorded |
| `Touch.TouchTracker.TouchMove` | hooks/useTouch.ts:48-63 | current becomes the touch point and the deltas are current minus start; swipe flag and direction unchanged |
| `Touch.TouchTracker.TouchEnd` | hooks/useTouch.ts:65-91 | the swipe flag and direction are the classification of the deltas and elapsed time; positions and deltas unchanged |
| `Touch.Gesture` | hooks/useTouch.ts:32-91 | start, one move and end classify the gesture by its total displacement and duration |
| `DragDrop.DropMove` | hooks/useDragAndDrop.ts:47-49 | the callback fires iff the dragged index is not -1 and differs from the target, and then from ≠ to |
| `DragDrop.DragTracker.constructor` | hooks/useDragAndDrop.ts:13-18 | the tracker starts idle |
| `DragDrop.DragTracker.DragStart` | hooks/useDragAndDrop.ts:20-27 | dragging the given item from the given index, no drop target |
| `DragDrop.DragTracker.DragOver` | hooks/useDragAndDrop.ts:29-34 | only the drop target changes |
| `DragDrop.DragTracker.DragEnd` | hooks/useDragAndDrop.ts:36-43 | back to idle unconditionally |
| `DragDrop.DragTracker.Drop` | hooks/useDragAndDrop.ts:45-53 | returns the move the callback receives, none from the idle state, and leaves the tracker idle |
| `DragDrop.DragThenDrop` | hooks/useDragAndDrop.ts:20-53 | start at `i`, hover, drop on `j` yields the move `(i, j)` exactly when `i != -1` and `i != j`, and ends idle |
| `DataGridView.ProcessData` | components/DataGrid/DataGrid.tsx:40-50 | the pipeline sorts (skipped for an empty model) and then filters, computing the processed rows |
| `DataGridView.ProcessedDataSpec` | components/DataGrid/DataGrid.tsx:40-50 | the processed rows are the passing input rows with their multiplicities; sorted under consistent keys; in input order when unsorted |
| `DataGridView.LayoutConstants` | components/DataGrid/DataGrid.tsx:52-70 | row heights 32/44/56 (desktop) and 36/48/64 (mobile) grow with density and on mobile; container 400/500 and overscan 3/5 are smaller on mobile |
| `DataGridView.RenderedRowsSpec` | components/DataGrid/DataGrid.tsx:322-327 | the rendered rows are the processed rows of the window, row `k` indexed `startIndex + k`, and every row in the viewport is rendered |
| `DataGridView.SwipeNavigation` | components/DataGrid/DataGrid.tsx:110-119 | one evaluation of the effect: a right swipe goes back a page only from page 2 on, a left swipe forward only before the last page, nothing else moves; the page stays within `[1, totalPages]` |
| `DataGridView.SwipeLeftRunsToLastPage` | components/DataGrid/DataGrid.tsx:110-119 | re-run after each of its own dispatches, a left swipe from an existing page ends on the last page, with nothing else in the state changed |
| `DataGridView.SwipeRightRunsToFirstPage` | components/DataGrid/DataGrid.tsx:110-119 | re-run after each of its own dispatches, a right swipe from any page from 1 on ends on page 1, with nothing else in the state changed |
| `DataGridView.SwipeSkipsToLastPage` | components/DataGrid/DataGrid.tsx:110-119 | on page 1 of 20 one evaluation moves to page 2, but the re-runs end on page 20 |
| `DataGridView.NonSwipeStaysPut` | components/DataGrid/DataGrid.tsx:110-119 | a release that is not a swipe never changes the page |
| `DataGridView.RefreshGoesToFirstPage` | components/DataGrid/DataGrid.tsx:121-123 | refresh sets page 1 and keeps page size and total |
| `DataGridView.ToggleThemeInvolution` | components/DataGrid/DataGrid.tsx:125-127 | the theme toggle always changes the theme and toggling twice restores it |
| `DataGridView.VisiblePositions` | components/DataGrid/DataGrid.tsx:131 | the positions in `columns` of the shown columns, strictly increasing |
| `DataGridView.VisibleColumnsSpec` | components/DataGrid/DataGrid.tsx:131 | the shown columns are exactly the columns whose id is visible, in column order |
| `DataGridView.VisibleColumnsOfPrefix` | components/DataGrid/DataGrid.tsx:131 | for any visible ids, the shown columns of a prefix of `columns` are a prefix of the shown columns |
| `DataGridView.VisibleColumnsPrefix` | components/DataGrid/DataGrid.tsx:131 | when every column is visible, every prefix of `columns` is shown whole |
| `Header.FindSortSpec` | components/DataGrid/DataGridHeader.tsx:28 | `find` returns the first entry for the field, or none when the field is absent |
| `Header.RemoveFieldMembers` | components/DataGrid/DataGridHeader.tsx:36 | filtering out a field keeps exactly the entries on other fields |
| `Header.RemoveFieldAppend` | components/DataGrid/DataGridHeader.tsx:36 | the filter works part by part on a concatenation, so the surviving keys keep their order and their priority |
| `Header.RemoveFieldUnique` | components/DataGrid/DataGridHeader.tsx:36 | removing a field keeps a model with one entry per field |
| `Header.HandleSortCases` | components/DataGrid/DataGridHeader.tsx:27-40 | an absent field is appended ascending; an ascending entry turns descending in place with every other entry unchanged; a descending entry is removed |
| `Header.HandleSortUnique` | components/DataGrid/DataGridHeader.tsx:27-40 | the click keeps at most one entry per field |
| `Header.ThreeClicksRestore` | components/DataGrid/DataGridHeader.tsx:27-40 | three clicks on an unsorted field give back the original model |
| `Header.AssignSpec` | components/DataGrid/DataGridHeader.tsx:45 | assigning a key sets its entry and leaves other keys alone |
| `Header.DeleteSpec` | components/DataGrid/DataGridHeader.tsx:47 | deleting a key removes it and leaves other keys alone |
| `Header.AssignUnique` | components/DataGrid/DataGridHeader.tsx:45 | assigning keeps the keys distinct |
| `Header.DeleteUnique` | components/DataGrid/DataGridHeader.tsx:47 | deleting keeps the keys distinct |
| `Header.HandleFilterSpec` | components/DataGrid/DataGridHeader.tsx:42-50 | a non-empty value sets a `contains` entry for the column, an empty one deletes it, other keys untouched, keys stay distinct |
| `Header.SelectAllBySize` | components/DataGrid/DataGridHeader.tsx:52-55 | as written, the click clears when the selection size equals the row count and selects every loaded row otherwise |
| `Header.SelectAllStaleSelection` | components/DataGrid/DataGridHeader.tsx:52-55 | one selected id of a row not loaded and one unselected loaded row: the click clears instead of selecting |
| `Header.SelectAllIntended` | components/DataGrid/DataGridHeader.tsx:52-55 | with the membership test the click selects every loaded row unless all are selected, in which case it clears |
| `Header.HeaderPinToggles` | components/DataGrid/DataGridHeader.tsx:190-196 | the header pin button pins an unpinned column left and unpins a column pinned on either side |
| `Header.ResizeWidthSpec` | components/DataGrid/DataGridHeader.tsx:230-235 | the width is `max(50, startWidth + dx)`, `startWidth` defaulting to 150: never below 50, exact above it, monotone in the pointer |
| `Header.ResizeDispatchBounded` | components/DataGrid/DataGridHeader.tsx:230-235 | a resize dispatched by the header never gives a width below 50 |
| `Header.HeaderDropMovesWrongColumn` | components/DataGrid/DataGridHeader.tsx:107-113 | with a hidden column, dragging the second shown header onto the first moves the hidden column instead |
| `Header.HeaderDropCorrectedMoves` | components/DataGrid/DataGridHeader.tsx:149-154 | translating shown indices to column positions moves the dragged column to the target's place and permutes the columns |
| `PaginationView.PageItems` | components/DataGrid/Pagination.tsx:12-14 | on a page in range, `startItem..endItem` counts from 1, holds at most `pageSize` items and is exactly the page `paginateData` returns |
| `PaginationView.PageSizeChangeResets` | components/DataGrid/Pagination.tsx:20-28 | a page-size change stores the new size with page 1 and keeps the total |
| `PaginationView.PageButtonsSpec` | components/DataGrid/Pagination.tsx:80-91 | `min(5, totalPages)` consecutive buttons; `1..totalPages` for five pages or fewer; otherwise five pages within `[1, totalPages]` that include the current page |
| `PaginationView.BackStaysOnPages` | components/DataGrid/Pagination.tsx:59-77 | from an existing page other than 1, the first and previous buttons' dispatches set page 1 and page - 1, both existing pages, keeping page size and total |
| `PaginationView.ForwardEnabledWithoutRows` | components/DataGrid/Pagination.tsx:110-125 | as written, with no rows next/last are enabled on page 1 and last moves to page 0, showing items from -49 |
| `PaginationView.ForwardIntendedStaysOnPages` | components/DataGrid/Pagination.tsx:110-125 | with the `>=` test an enabled next button stays within `[1, totalPages]`; on a page in range the two tests agree |
| `ColumnManager.ResetColumns` | components/DataGrid/ColumnManager.tsx:45-55 | the loop dispatches, one after another, the toggles chosen against the visibility at the start, and changes nothing but the visible list |
| `ColumnManager.ResetTogglesCount` | components/DataGrid/ColumnManager.tsx:46-54 | exactly the columns whose visibility differs from the default `visible !== false` are toggled |
| `ColumnManager.ApplyTogglesEffect` | components/DataGrid/ColumnManager.tsx:48-54 | after a run of toggles an id is visible iff its visibility flipped an odd number of times |
| `ColumnManager.DefaultVisibleIdsSpec` | components/DataGrid/ColumnManager.tsx:46 | the default list holds exactly the ids of columns whose flag is not `false` |
| `ColumnManager.ResetColumnDefault` | components/DataGrid/ColumnManager.tsx:45-55 | with distinct ids each column ends up visible iff its flag is not `false` |
| `ColumnManager.ResetRestoresDefaults` | components/DataGrid/ColumnManager.tsx:45-55 | with distinct ids every column gets its default visibility and ids naming no column are left as they were |
| `ColumnManager.ExportRow` | components/DataGrid/ColumnManager.tsx:29-35 | the `forEach` filling the exported object computes the row's projection |
| `ColumnManager.ExportData` | components/DataGrid/ColumnManager.tsx:28-36 | one exported object per loaded row, in order |
| `ColumnManager.PutSpec` | components/DataGrid/ColumnManager.tsx:32 | assigning a property sets that key and leaves the others |
| `ColumnManager.PutUnique` | components/DataGrid/ColumnManager.tsx:32 | assigning a property keeps the keys distinct |
| `ColumnManager.ProjectionSpec` | components/DataGrid/ColumnManager.tsx:28-36 | an exported row has exactly the visible ids other than `actions` as keys, distinct, each with the row's value in that column |
| `ColumnManager.ManagerPinToggles` | components/DataGrid/ColumnManager.tsx:142-150 | the left button toggles the left pin and the right button the right pin; either way the column ends up off the other side |
| `Api.CeilQuotient` | hooks/useApi.ts:44 | `Math.ceil(total / pageSize)` is the ceiling of the quotient for a non-zero page size of either sign and non-finite for zero |
| `Api.FindUser` | hooks/useApi.ts:63-66 | `findIndex` returns the first user with the parsed id, and none when the id does not parse or matches nobody |
| `Api.FindFirst` | hooks/useApi.ts:63-66 | a matching user with no match before it is the one `findIndex` returns |
| `Api.MockApi.constructor` | hooks/useApi.ts:9 | the table starts with the given users |
| `Api.MockApi.FetchUsers` | hooks/useApi.ts:15-53 | the response is computed from a copy of the table: search, then sort, then the page |
| `Api.OrderedSpec` | hooks/useApi.ts:23-37 | the sort step runs only with both `sortBy` and `sortOrder`; it rearranges the matching rows and, on a field other than `avatar`, orders them by that key with ties in table order |
| `Api.FetchSpec` | hooks/useApi.ts:23-45 | `total` counts the rows matching the search; `data` is the `(page - 1) * pageSize` window of the sorted rows, at most `pageSize` long and empty past the end; page and size are echoed and `totalPages` is the ceiling |
| `Api.FetchRowsMatch` | hooks/useApi.ts:26-37 | for any page and page size, every returned row is a table row matching the search |
| `Api.MockApi.UpdateUser` | hooks/useApi.ts:55-77 | an unknown id fails with "User not found" and leaves the table alone; otherwise the first match gets the patch merged in and is returned, every other row untouched |
| `Api.UpdateKeepsPlace` | hooks/useApi.ts:63-69 | an update that keeps the id leaves the user found at the same index |
| `Api.MockApi.DeleteUser` | hooks/useApi.ts:79-100 | an unknown id fails with "User not found" and leaves the table alone; otherwise the first match is spliced out |
| `Api.DeleteRemovesUser` | hooks/useApi.ts:87-92 | a delete removes one row and keeps the others in order; with distinct ids the id is then gone |

## Left out

- **Rendering.** All JSX, CSS classes and icons are left out: `DataGridRow.tsx`, `DataGridCell.tsx`, `LoadingStates.tsx`, `app/page.tsx`, and the markup of the modelled components. `BulkActionsBar.tsx` is left out too; its only logic is a one-line filter of `data` by `selectedRows`.
- **Preference hydrate/persist effects** (contexts/DataGridContext.tsx:156-267) are left out. They are effect glue over local storage and the document's class list.
- **Async work is left out:**
  - the debounced search timer and the load effect in `DataGrid.tsx`;
  - the `setTimeout` delays;
  - the `loading`/`error` flags of the mock back end;
  - its `try`/`catch`, which only re-throws. The failures are modelled by the `Result`/`Outcome` return values.
- **Listener wiring is left out.** This covers the window resize listener and the `document` mousemove/mouseup wiring of a resize drag. The model takes `isMobile`, the pointer positions and the touch outcome as inputs.
- **The swipe effect's re-runs** are modelled as a fixpoint, not as React scheduling. The effect depends on `state.pagination` (components/DataGrid/DataGrid.tsx:119), every `SET_PAGINATION` stores a new pagination object, and the touch state keeps `isSwipe` and `direction` until the next touch starts. So the effect runs again after each page it dispatches, and one swipe moves to the last or the first page. `DataGridView.SwipeSettle` is that repetition; `DataGridView.SwipePage` is one evaluation. `SwipeSettle` ignores the fetch responses. In the program, each page change also starts the load effect (components/DataGrid/DataGrid.tsx:100), which fetches the page that was current when it ran (DataGrid.tsx:77-81). The response echoes that page (hooks/useApi.ts:42) and arrives after 500 ms (hooks/useApi.ts:21). The grid dispatches it back (DataGrid.tsx:84-91), so a stale response moves the page back to the page it requested. The swipe effect, still seeing the swipe, then runs up to the last page again, and the load effect fetches again. While the swipe lasts the page goes back and forth and the requests never stop; the model captures neither the responses nor this oscillation.
- **`generateMockUsers` is not part of this model.** It depends on `Math.random` and `Date`, so `MockApi` starts from any given rows.
- **`exportToCSV`/`exportToJSON`** are foreign calls, so only the row projection handed to them is modelled.
- **String and number built-ins:**
  - Real locale collation, Unicode lowercasing and the full JavaScript `String`/`Number` coercions are simplified as described above.
  - `Number.parseInt` is modelled for decimal digits with an optional sign. Leading white space and a radix prefix are not modelled.
- **Floating point is not modelled.** Every number is a mathematical integer. `scrollTop` (hooks/useVirtualScroll.ts:27) and the touch coordinates `clientX`/`clientY` (hooks/useTouch.ts:37-56) are doubles that can be fractional on zoomed or high-DPI screens; the model takes them as integers. Fractional or negative page sizes never arise: the page-size options are 25/50/100/200, and the initial size is 50. So the pagination and swipe rules require `pageSize > 0`. `fetchUsers` takes any page size, and reports a non-finite page count for 0.
- **The `Date` branch of `sortData`** (utils/gridHelpers.ts:17) cannot be reached for a `User`, whose `joinDate` is a string, so it is not modelled.
- **The reducer's `default:` branch** returns the state unchanged, but it cannot be reached with a well-typed action, so it is not modelled.
- **GridReducer.Reduce:** a `REORDER_COLUMNS` whose source index is out of range splices an `undefined` column into the list. The model cannot represent that, so the reducer requires an in-range source index (`Dispatchable`). Every other action is total.
- **JavaScript ordering details are not modelled:**
  - the iteration order of a `Set`;
  - the rule that puts integer-like object keys first.
  
  A filter model is a sequence of entries in insertion order. Integer-like column ids do not occur.
- **`FetchUsers` ignores `filters`**, so `PaginationParams` has no `filters` field: the source reads it nowhere.
- **ColumnManager.ResetRestoresDefaults** assumes distinct column ids. The loop itself is modelled for any columns: a duplicated id is toggled once per copy, exactly as the source does.
- **GridHelpers.SortDataSpec:** its ordering and stability conclusions assume sort keys on fields whose values all have one kind. A key on the optional `avatar` field breaks transitivity (`GridHelpers.AvatarKeyInconsistent`).
- **VirtualScroll.WindowInBounds** states `endIndex == -1` for an empty list only when the scroll offset, container height and overscan are non-negative. For other inputs it states only that the range is empty.

## Findings

| source | as written | input that shows it | evidently intended | confidence | as-written member | corrected member |
|---|---|---|---|---|---|---|
| components/DataGrid/Pagination.tsx:110-125 | next/last are disabled only when `page === totalPages` | no rows: `total = 0`, so `totalPages = 0`; on page 1 both buttons are enabled, and "last" moves to page 0, whose first item is -49 | disabled from the last page on (`page >= totalPages`) | not executed | `PaginationView.ForwardEnabledWithoutRows` | `PaginationView.ForwardIntendedStaysOnPages` |
| components/DataGrid/DataGridHeader.tsx:52-55 | "all selected" is decided by comparing the selection's size with `data.length` | loaded rows `[id 1]` with selection `{"2"}` left from another page: the click clears the selection instead of selecting row 1 | all selected when every loaded row's id is in the selection | not executed | `Header.SelectAllStaleSelection` | `Header.SelectAllIntended` |
| components/DataGrid/DataGridHeader.tsx:107-113, 149-154 | drag indices are positions in the list of shown columns, but `REORDER_COLUMNS` applies them to the full column list | columns `a, b, c` with `b` hidden; dragging shown column 1 (`c`) onto shown column 0 (`a`) yields `b, a, c`, which moves the hidden `b` | translate shown positions into column positions before dispatching | not executed | `Header.HeaderDropMovesWrongColumn` | `Header.HeaderDropCorrectedMoves` |
| components/DataGrid/DataGrid.tsx:110-119 | the swipe effect depends on `state.pagination`, which its own dispatch replaces, while `touchState` keeps the swipe | page 1 of 20 (`total = 1000`, `pageSize = 50`), one left swipe: the effect re-runs after each dispatch and ends on page 20; a right swipe from page 20 ends on page 1 | one page per swipe, for example by depending on `touchState` alone or clearing the swipe after it is handled | not executed | `DataGridView.SwipeLeftRunsToLastPage` | `DataGridView.SwipeNavigation` |

# Table grid, cell merging and UUIDs

This project models the core of a table editor for HTML tables, with proofs.

- **Grid builder** (`TableUtils.js`, modules `TableGrid`, `GridFacts`, `GridLog`). It turns a table into a dense
  grid with one entry `{el, rowSpan, colSpan}` per position.
  - `dimensions` sizes the grid.
  - `initializeTableMap` fills it with blank entries.
  - `populateTableMap` places each row's cells left to right. It skips positions that cells from above already fill.
  - `fillSpans` writes the *remaining* spans into each cell's rectangle. It records the element at the rectangle's
    origin only.
  - `assertGrid` throws at the first position outside the grid. That exception is an error result here.
  - `logGrid` prints the grid, one line per row.

  The grid is an `array2`. Every in-place method is proved against a function on `seq<seq<Entry>>`, and the
  properties are proved about that function.
- **Merge operations** (`TableMergeUtils.js`, module `TableMerge`).
  - The table element is the class `Table`: its rows of cells, plus the next unused element id.
  - `mergeLeft/Right/Up/Down`, `unMerge` and `unMergeRow` edit it in place.
  - Each method is proved equal to a function of the table before it.
  - Lemmas state what that function does to the set of elements: which cells leave, which enter, the cell count,
    the row count and soundness. Soundness means spans of at least 1, distinct elements, and ids below the next id.
- **Occupancy helpers** (`TableUtils_Logan.js`, modules `CellOccupancy`, `JsParseInt`).
  - `buildCellTable`, as a sparse map from positions to the lists of cells covering them.
  - `cloneWithoutHoles` and `validateCellData`.
  - `buildColumnData`.
  - `getIntegerAttribute`, with `parseInt(s, 10)` as section 19.2.5 of ECMA-262 defines it.
- **UUIDs** (`UUID.js`, module `Uuid`). The generator fills the template `xxxxxxxxxxxx4xxxyxxxxxxxxxxxxxxx` from
  31 random nibbles, giving the version-4 layout of section 4.4 of RFC 4122 without dashes. `isUUID` matches its
  pattern.

Where the code and its documentation disagree, the model follows the code:

- The grid entries hold the remaining span, not the owner's span.
- `buildCellTable` walks `colSpan` rows and `rowSpan` columns, swapped relative to their names.
- `buildCellTable` returns what `cloneWithoutHoles` computes as written. The holes-free rectangle its comment
  describes is a separate, corrected member, `BuildCellTableWithoutHoles` (see Findings).
- Its `last` axis flags are always false.
- `isUUID` leaves index 16 unconstrained.

## Model

| member | source | states |
|---|---|---|
| TableGrid.Dimensions | src/javascripts/utils/TableUtils.js:100-111 | The row count, and the largest per-row sum of declared `colSpan`s (0 without rows). Cells reaching down from above are not counted. |
| TableGrid.MaxWidth | src/javascripts/utils/TableUtils.js:103-108 | The outer reduce is an upper bound on every row's span sum, and is attained by some row unless it is 0. |
| TableGrid.InitializeTableMap | src/javascripts/utils/TableUtils.js:58-72 | A fresh `nRows x nCols` grid whose every entry has no element and spans 0, 0. |
| TableGrid.Stamp | src/javascripts/utils/TableUtils.js:121-131 | `fillSpans` as a function. The grid keeps its shape, and the error is the first position outside the grid. |
| TableGrid.FillSpanRow | src/javascripts/utils/TableUtils.js:125-129 | One row of the rectangle is stamped left to right. It stops short of `colSpan` only where the position leaves the grid. |
| TableGrid.FillSpans | src/javascripts/utils/TableUtils.js:121-131 | The in-place loops leave exactly the grid and the error that `Stamp` describes. |
| GridFacts.FillSpansEncoding | src/javascripts/utils/TableUtils.js:121-131 | It succeeds iff the rectangle fits. It writes `rowSpan - i`, `colSpan - j` at `(row+i, col+j)` and the element only at the origin, and changes nothing outside the rectangle. It never checks that the rectangle was empty. |
| GridFacts.FillSpansThrows | src/javascripts/utils/TableUtils.js:122-136 | Where it throws: at the origin, else at the first column past the grid, else at the first row past it. |
| GridFacts.FillSpansTwoByTwo | src/javascripts/__tests__/table_merge.test.js:18-50 | A 2 x 2 cell on a blank 4 x 3 grid gives the entries `2,2 2,1 / 1,2 1,1` with the element at the origin. |
| TableGrid.Skip | src/javascripts/utils/TableUtils.js:79-82 | The first column from the cursor whose `rowSpan` is 0, every column before it being filled. Otherwise the position `assertGrid` rejects. |
| TableGrid.PlaceAfterSkip | src/javascripts/utils/TableUtils.js:84-87 | After the skip, the cell is stamped at the column found and the cursor advances by its `colSpan`. |
| TableGrid.PlaceCell | src/javascripts/utils/TableUtils.js:79-87 | One cell placed in place: the grid and cursor of `Place`, or its error. |
| TableGrid.PlaceRowCells | src/javascripts/utils/TableUtils.js:77-88 | One table row placed in place equals `PlaceRow`, or throws its error. |
| TableGrid.PopulateTableMap | src/javascripts/utils/TableUtils.js:74-91 | All rows placed in place equals `Populate`, or throws its error. |
| TableGrid.BuildTableMap | src/javascripts/utils/TableUtils.js:1-6 | A fresh grid holding `BuildGrid(rows)`, or the error thrown while filling it. |
| TableGrid.BuildGrid | src/javascripts/utils/TableUtils.js:1-6 | A successful build has one grid row per table row, each as wide as the widest declared row. |
| TableGrid.PlaceRowErrorSticks | src/javascripts/utils/TableUtils.js:78-88 | Once a cell of a row throws, the rest of the row does not run: every longer prefix gives the same error. |
| TableGrid.PopulateErrorSticks | src/javascripts/utils/TableUtils.js:76-90 | Once a row throws, every longer prefix of the table gives the same error. |
| TableGrid.PlaceRowStep | src/javascripts/utils/TableUtils.js:78-88 | Placing one more cell of a row is `Place` after the shorter prefix. |
| TableGrid.PopulateStep | src/javascripts/utils/TableUtils.js:76-90 | Placing one more row is `PlaceRow` after the shorter prefix, into the next grid row. |
| GridFacts.StampKeepsInvariant | src/javascripts/utils/TableUtils.js:80-87 | Stamping at a blank origin keeps every entry blank-or-spanned, and keeps blank positions exactly the uncovered ones. It records the cell at the origin and keeps every other element. |
| GridFacts.CoverAfterStamp | src/javascripts/utils/TableUtils.js:121-131 | Coverage after a stamp: a position is blank iff no origin's rectangle covers it. |
| GridFacts.PlaceProgress | src/javascripts/utils/TableUtils.js:79-87 | Placing a cell appends it to the grid row's origins, left to right, and keeps the row invariant. |
| GridFacts.ProgressStep | src/javascripts/utils/TableUtils.js:85-87 | Recording one origin right of the cursor appends it to that row's origins and leaves other rows' origins alone. |
| GridFacts.PlaceRowProgress | src/javascripts/utils/TableUtils.js:78-88 | A placed prefix of a row appears, in order, as that grid row's origins. |
| GridFacts.PopulateProgress | src/javascripts/utils/TableUtils.js:74-91 | After `n` rows, the grid stays well formed with coverage exact. Rows below `n` hold the table's cells as origins; the rest hold none. |
| GridFacts.BuiltGridCoverage | src/javascripts/utils/TableUtils.js:58-91 | After a successful build, every entry is blank or spans at least 1 both ways. Blank entries are exactly the uncovered positions; full coverage is not demanded. |
| GridFacts.BuiltGridOrigins | src/javascripts/utils/TableUtils.js:76-90 | After a successful build, the origins of grid row `i`, left to right, are the cells of table row `i`. |
| GridFacts.BuiltGridIndexes | src/javascripts/utils/TableUtils.js:80-86 | With spans of at least 1 and distinct elements, no two positions record the same element, and every recorded element is in the table. |
| GridFacts.ElIndexMonotone | src/javascripts/utils/TableUtils.js:78-87 | An origin further right comes later in the row's list of origins. |
| GridFacts.PushedRowThrows | src/javascripts/utils/TableUtils.js:100-111 | A 2-row cell over a one-cell second row gives a 2 x 1 grid. The second row's cell skips to column 1, and the build throws there. |
| GridFacts.PushedRowFirst | src/javascripts/utils/TableUtils.js:121-131 | The 2-row cell alone in row 0 fills column 0 of both rows. |
| GridFacts.PushedRowSecond | src/javascripts/utils/TableUtils.js:79-84 | The second row's cell skips the filled column 0 and is rejected at `(1, 1)`. |
| GridLog.TagText | src/javascripts/utils/TableUtils.js:50 | The printed tag is the element's tag name when it has a non-empty one. It is `--` without an element or with an empty tag name, so it is never empty. |
| GridLog.Words | src/javascripts/utils/TableUtils.js:49-52 | One printed entry per grid position, in order. |
| GridLog.LogGrid | src/javascripts/utils/TableUtils.js:45-56 | One line per grid row, each the row's printed entries joined by single spaces. |
| GridLog.EntryTextReadBack | src/javascripts/utils/TableUtils.js:51 | Splitting a printed entry on commas gives back both spans, as `parseInt` reads them, and the tag. |
| GridLog.EntryTextNoSpace | src/javascripts/utils/TableUtils.js:51 | A printed entry has no space when its tag has none, so the line's separator is unambiguous. |
| GridLog.LogLineReadBack | src/javascripts/utils/TableUtils.js:45-56 | Splitting a logged line on spaces gives one field per entry, and each field reads back as that entry's spans and tag. |
| Text.DecimalStringValue | src/javascripts/utils/TableUtils.js:51 | The printed numeral of a span reads back as the span. |
| Text.DecimalStringInjective | src/javascripts/utils/TableUtils.js:51 | Different spans print differently. |
| Text.SplitJoin | src/javascripts/utils/TableUtils.js:53 | Splitting a join recovers the words when no word holds the separator. |
| Cells.Locate | src/javascripts/utils/TableMergeUtils.js:11 | An element's row (`parentElement`) and index, found exactly when it is in the table. |
| Cells.IndexOf | src/javascripts/utils/TableMergeUtils.js:79 | The index of an element among its row's cells, or none when it is not among them. |
| Cells.LocateUnique | src/javascripts/utils/TableMergeUtils.js:11-12 | With distinct elements, `Locate` returns the one position holding the element. |
| Cells.CountReplaceRow | src/javascripts/utils/TableMergeUtils.js:12 | Replacing one row's cells changes the cell count by the difference in length. |
| Cells.SetAtCount | src/javascripts/utils/TableMergeUtils.js:8 | Changing a cell's spans keeps the cell count and the row count. |
| Cells.RemoveAtCount | src/javascripts/utils/TableMergeUtils.js:12 | `removeChild` removes exactly one cell and keeps every row. |
| Cells.InsertAtCount | src/javascripts/utils/TableMergeUtils.js:79 | `insertBefore` adds exactly the inserted cells and keeps every row. |
| Cells.SetAtSound | src/javascripts/utils/TableMergeUtils.js:8-9 | Writing back a cell under its own id, or a new element under the next id, keeps the table sound. |
| Cells.RemoveAtSound | src/javascripts/utils/TableMergeUtils.js:12 | Removing a cell keeps the table sound. |
| Cells.InsertAtSound | src/javascripts/utils/TableMergeUtils.js:79 | Inserting a new element under the next id keeps the table sound. |
| Cells.ElementsSetAt | src/javascripts/utils/TableMergeUtils.js:8 | Updating a cell in place changes that one element in the table's id-to-cell map. |
| Cells.ElementsReplaceAt | src/javascripts/utils/TableMergeUtils.js:9 | Replacing a cell by a new element removes the old id from the id-to-cell map and adds the new one. |
| Cells.ElementsRemoveAt | src/javascripts/utils/TableMergeUtils.js:12 | Removing a cell removes exactly its id from the map. |
| Cells.ElementsInsertAt | src/javascripts/utils/TableMergeUtils.js:79 | Inserting a new element adds exactly its id to the map. |
| Cells.HasSetAt | src/javascripts/utils/TableMergeUtils.js:9 | After replacing a position, the elements present are the others plus the new one. |
| Cells.HasRemoveAt | src/javascripts/utils/TableMergeUtils.js:12 | After a removal, the elements present are exactly the others. |
| Cells.LocateSetAt | src/javascripts/utils/TableMergeUtils.js:8 | Changing a cell's spans in place moves no element. |
| Cells.LocateRemoveAt | src/javascripts/utils/TableMergeUtils.js:12 | After `removeChild`, every other element keeps its row and moves one place left when it followed the removed one. |
| Cells.SetAtSwap | src/javascripts/utils/TableMergeUtils.js:8-9 | Writes to two different positions commute. |
| Cells.RemoveSetAt | src/javascripts/utils/TableMergeUtils.js:8-12 | Removing a position makes what was written there before irrelevant. |
| Cells.HasInsertAt | src/javascripts/utils/TableMergeUtils.js:79 | After an insertion, the elements present are the old ones plus the inserted one. |
| TableMerge.FindInLine | src/javascripts/utils/TableMergeUtils.js:4 | The first position of a grid row recording the element, or none when no position does. |
| TableMerge.FindCell | src/javascripts/utils/TableMergeUtils.js:4 | `findCell` by its postcondition: a position whose entry records the element, or none when no entry does. |
| TableMerge.FindCellUnique | src/javascripts/utils/TableMergeUtils.js:4 | With a grid from a successful build, the position found is the only one recording the element, and the element is in the table. |
| TableMerge.Widened | src/javascripts/utils/TableMergeUtils.js:3-52 | The source keeps its identity, tag and content and gains the neighbour's span on the merge axis only. |
| TableMerge.AbsorbEffect | src/javascripts/utils/TableMergeUtils.js:20-23 | Adding the neighbour's span and removing the neighbour takes exactly the neighbour out and widens the source. Every other element is unchanged; positions are stated by `AbsorbMoves`. |
| TableMerge.AbsorbMoves | src/javascripts/utils/TableMergeUtils.js:20-23 | With `p` and `q` the places of source and neighbour before: the widened source is written at `p` and the cell at `q` leaves its row. Every other row is untouched. The source ends at `p`, one place further left when the neighbour preceded it in the same row. |
| TableMerge.AbsorbNeighbour | src/javascripts/utils/TableMergeUtils.js:20-23 | The in-place edit equals `Absorb` and keeps the table sound. |
| TableMerge.MergeRight | src/javascripts/utils/TableMergeUtils.js:15-24 | The in-place `mergeRight` equals `MergeRightSpec` on the table before it, and keeps it sound. |
| TableMerge.MergeRightFails | src/javascripts/utils/TableMergeUtils.js:16-18 | It throws iff the cell is not in the grid, or the entry `colSpan` columns right is missing or has no element. A failed call changes nothing. |
| TableMerge.MergeRightMerges | src/javascripts/utils/TableMergeUtils.js:17-23 | Otherwise the neighbour leaves, the source's `colSpan` becomes the sum, and every other element and the row count are unchanged. The count drops by one. |
| TableMerge.MergeDown | src/javascripts/utils/TableMergeUtils.js:43-52 | The in-place `mergeDown` equals `MergeDownSpec` and keeps the table sound. |
| TableMerge.MergeDownFails | src/javascripts/utils/TableMergeUtils.js:44-46 | It throws iff the cell is not in the grid, or the entry `rowSpan` rows below is missing or has no element. A failed call changes nothing. |
| TableMerge.MergeRightMoves | src/javascripts/utils/TableMergeUtils.js:17-23 | Positions after `mergeRight`: the widened source stays in place and the neighbour's place is gone. Every other row is untouched. |
| TableMerge.MergeDownMerges | src/javascripts/utils/TableMergeUtils.js:45-50 | Otherwise the neighbour below leaves and the source's `rowSpan` becomes the sum. Its row stays, even if emptied. |
| TableMerge.MergeDownMoves | src/javascripts/utils/TableMergeUtils.js:45-50 | Positions after `mergeDown`: the widened source stays in place and the lower neighbour's place is gone. Every other row is untouched. |
| TableMerge.CopiedEffect | src/javascripts/utils/TableMergeUtils.js:8-9 | After widening and the `outerHTML` copy, the neighbour is gone and a copy of the widened source is in under a new id. The cell count is unchanged. |
| TableMerge.CopiedMoves | src/javascripts/utils/TableMergeUtils.js:8-9 | After the `outerHTML` copy, the copy sits exactly where the neighbour sat and the widened source where it sat. Every other row is untouched. |
| TableMerge.ReplaceEffect | src/javascripts/utils/TableMergeUtils.js:8-12 | With a distinct neighbour, source and neighbour leave and one new copy enters, so the count drops by one. When the neighbour is the source itself, the removal throws. |
| TableMerge.ReplaceMoves | src/javascripts/utils/TableMergeUtils.js:8-12 | With a distinct neighbour, the copy overwrites the neighbour's place and the source leaves its own. The copy ends at the neighbour's place, one further left when the source preceded it in the same row. When the neighbour is the source, the copy stands in its place. Other rows are untouched. |
| TableMerge.ReplaceOther | src/javascripts/utils/TableMergeUtils.js:8-12 | The distinct-neighbour case of `ReplaceMoves`. |
| TableMerge.ReplaceSelf | src/javascripts/utils/TableMergeUtils.js:8-12 | The case of `ReplaceMoves` where the neighbour is the source itself. |
| TableMerge.ReplaceWithCopy | src/javascripts/utils/TableMergeUtils.js:8-12 | The in-place edit equals `Replace` and keeps the table sound. |
| TableMerge.MergeLeft | src/javascripts/utils/TableMergeUtils.js:3-13 | The in-place `mergeLeft` equals `MergeLeftSpec` and keeps the table sound. |
| TableMerge.MergeLeftFails | src/javascripts/utils/TableMergeUtils.js:4-6 | It throws before any change when the cell is not found, sits in column 0, or the entry to its left has no element. |
| TableMerge.MergeLeftMerges | src/javascripts/utils/TableMergeUtils.js:5-12 | Otherwise source and neighbour leave. A copy of the source with the summed `colSpan` and the source's content enters under a new id. The row count is kept and the count drops by one. |
| TableMerge.MergeLeftMoves | src/javascripts/utils/TableMergeUtils.js:5-12 | Positions after `mergeLeft`: the copy is in the left neighbour's place, one further left when the source preceded it in the same row. The source's place is gone and every other row is untouched. |
| TableMerge.MergeUp | src/javascripts/utils/TableMergeUtils.js:26-41 | The in-place `mergeUp` equals `MergeUpSpec` and keeps the table sound. |
| TableMerge.MergeUpFails | src/javascripts/utils/TableMergeUtils.js:27-29 | It throws before any change when the cell is not found, sits in row 0, or the entry above has no element. |
| TableMerge.MergeUpMerges | src/javascripts/utils/TableMergeUtils.js:28-34 | Otherwise a copy of the source with the summed `rowSpan` takes the upper neighbour's place and the source leaves. Its row is kept even when emptied. |
| TableMerge.MergeUpMoves | src/javascripts/utils/TableMergeUtils.js:28-34 | Positions after `mergeUp`: the copy is in the upper neighbour's place, the source's place is gone, and every other row is untouched. |
| TableMerge.Clones | src/javascripts/utils/TableMergeUtils.js:75-79 | `n` contentless 1 x 1 clones, newest first, under consecutive fresh ids. |
| TableMerge.UnMergeRowSound | src/javascripts/utils/TableMergeUtils.js:74-83 | `unMergeRow` keeps the table sound and uses one new id per clone. |
| TableMerge.UnMergeRowShape | src/javascripts/utils/TableMergeUtils.js:74-83 | The source becomes 1 wide, followed directly by `colSpan - 1` contentless clones. Other rows are unchanged; the count grows by `colSpan - 1`. |
| TableMerge.UnMergeRowAt | src/javascripts/utils/TableMergeUtils.js:74-83 | The source's row after `unMergeRow`: the cells before it, the 1-wide source, the clones, the cells after it. |
| TableMerge.UnMergeRow | src/javascripts/utils/TableMergeUtils.js:74-83 | The in-place loop leaves exactly the rows and next id of `UnMergeRowSpec`. |
| TableMerge.Block | src/javascripts/utils/TableMergeUtils.js:63-68 | A spliced clone leaves `span` cells in its row. |
| TableMerge.BlockCells | src/javascripts/utils/TableMergeUtils.js:63-68 | Each of those cells is a contentless 1 x 1 cell of the source's tag under one of `span` fresh ids. |
| TableMerge.Spliced | src/javascripts/utils/TableMergeUtils.js:63-68 | Splicing a clone into a row changes no other row. |
| TableMerge.SplicedSound | src/javascripts/utils/TableMergeUtils.js:63-68 | Splicing keeps the table sound. |
| TableMerge.SplicedCount | src/javascripts/utils/TableMergeUtils.js:63-68 | Splicing adds `span` cells and uses `span` ids. |
| TableMerge.SplicedRow | src/javascripts/utils/TableMergeUtils.js:63-68 | The spliced row gains the block of `span` 1 x 1 cells at the insertion point. |
| TableMerge.Splice | src/javascripts/utils/TableMergeUtils.js:63-68 | The in-place insert-then-unmerge equals `Spliced`. |
| TableMerge.BelowStep | src/javascripts/utils/TableMergeUtils.js:62-68 | An iteration that does not throw moves to an existing next row and edits only that row. |
| TableMerge.UnMergeBelow | src/javascripts/utils/TableMergeUtils.js:61-69 | The loop keeps the row count and never edits the rows up to the source's. |
| TableMerge.UnMergeBelowUnfold | src/javascripts/utils/TableMergeUtils.js:61-69 | One turn of the loop: stop, throw, or go on from the next row. |
| TableMerge.BelowStepSound | src/javascripts/utils/TableMergeUtils.js:62-68 | An iteration keeps the table sound. |
| TableMerge.BelowStepCount | src/javascripts/utils/TableMergeUtils.js:62-68 | An iteration adds `span` cells and uses `span` ids. |
| TableMerge.BelowStepRow | src/javascripts/utils/TableMergeUtils.js:62-68 | An iteration splices one block into the next row, before the element the grid records right of the source's columns, or at the row's end. |
| TableMerge.UnMergeBelowSound | src/javascripts/utils/TableMergeUtils.js:61-69 | The loop keeps the table sound, whether or not it throws. |
| TableMerge.UnMergeBelowCount | src/javascripts/utils/TableMergeUtils.js:61-69 | A loop that does not throw adds `span` cells and uses `span` ids per further row. |
| TableMerge.UnMergeBelowKeeps | src/javascripts/utils/TableMergeUtils.js:61-69 | A loop that does not throw leaves every row below the ones it visits unchanged. |
| TableMerge.UnMergeBelowSplices | src/javascripts/utils/TableMergeUtils.js:61-69 | A loop that does not throw puts one block into each visited row, with consecutive ids. |
| TableMerge.BlockBelowShift | src/javascripts/utils/TableMergeUtils.js:61-69 | Block `d` seen from the next iteration is block `d + 1` seen from this one. |
| TableMerge.FillRow | src/javascripts/utils/TableMergeUtils.js:62-68 | One in-place iteration either throws with the loop's outcome, or leaves a table from which the rest of the loop gives the same outcome. |
| TableMerge.FillBelow | src/javascripts/utils/TableMergeUtils.js:60-69 | The in-place loop equals `UnMergeBelow` from iteration 1. |
| TableMerge.UnMerge | src/javascripts/utils/TableMergeUtils.js:54-72 | The in-place `unMerge` equals `UnMergeSpec` and keeps the table sound. |
| TableMerge.UnMergeSpecFound | src/javascripts/utils/TableMergeUtils.js:54-72 | Once the source is found, `unMerge` splits its own row and then runs the loop from the source's row. |
| TableMerge.UnMergeNotInGrid | src/javascripts/utils/TableMergeUtils.js:55 | A source not in the table is reported and the table is left as it was. |
| TableMerge.UnMergeSpecSound | src/javascripts/utils/TableMergeUtils.js:54-72 | `unMerge` keeps the table sound and the row count, whether it completes or throws part-way. |
| TableMerge.UnMergeCount | src/javascripts/utils/TableMergeUtils.js:54-72 | A completed `unMerge` of an R x C source adds R*C - 1 cells under the next R*C - 1 ids, and all its rows exist. |
| TableMerge.UnMergeSourceRow | src/javascripts/utils/TableMergeUtils.js:54-83 | A completed `unMerge` leaves the source, now 1 x 1, in its place, directly followed by `colSpan - 1` fresh contentless clones. |
| TableMerge.UnMergeBlocks | src/javascripts/utils/TableMergeUtils.js:60-69 | Each of the `rowSpan - 1` rows below gets a block of `colSpan` fresh 1 x 1 clones. It sits before the element the grid records right of the source's columns (at the row's end when there is none). Ids are consecutive. |
| TableMerge.UnMergeKeeps | src/javascripts/utils/TableMergeUtils.js:54-72 | A completed `unMerge` changes no row above the source or below its last row. |
| TableMerge.UnMergeRightEdge | src/javascripts/utils/TableMergeUtils.js:66 | A multi-row source reaching the grid's right edge reads past the grid row and throws a TypeError. This happens after splitting its own row and making one more clone. |
| CellOccupancy.RowInfos | src/javascripts/utils/TableUtils_Logan.js:114-118 | A row's cells tagged with their index `x` among the row's cells and the row's index `y`. |
| CellOccupancy.InfosLength | src/javascripts/utils/TableUtils_Logan.js:111-118 | One record per cell of the table. |
| CellOccupancy.InfosAt | src/javascripts/utils/TableUtils_Logan.js:111-118 | Cell `x` of row `y` is tagged `(x, y)`, in document order. |
| CellOccupancy.BaseX | src/javascripts/utils/TableUtils_Logan.js:122-123 | The first position from `x` on in row `y` that holds no list, every position before it holding one. |
| CellOccupancy.PutAt | src/javascripts/utils/TableUtils_Logan.js:131-135 | Pushing at a position appends to that position's list, creating it if missing. Lists accumulate rather than being overwritten; no other position changes. |
| CellOccupancy.StampRowAt | src/javascripts/utils/TableUtils_Logan.js:127-150 | The inner loop appends one record to each of `n` consecutive positions of one row, and to nothing else. |
| CellOccupancy.StampRectAt | src/javascripts/utils/TableUtils_Logan.js:126-151 | A cell is pushed once onto each position of rows `y .. y+colSpan-1` and columns `base .. base+rowSpan-1`. The spans are swapped, as written. |
| CellOccupancy.PlaceAt | src/javascripts/utils/TableUtils_Logan.js:120-154 | One reducer step: search from `x` for the first free position, then push the cell onto its rectangle there. |
| CellOccupancy.Occupy | src/javascripts/utils/TableUtils_Logan.js:120-154 | The reducer's sparse map keeps every list inside its row's length and every row inside the map's length. |
| CellOccupancy.OccupyTagged | src/javascripts/utils/TableUtils_Logan.js:120-154 | Every list the reducer creates holds at least one record. |
| CellOccupancy.StampCell | src/javascripts/utils/TableUtils_Logan.js:126-151 | The nested loops on the map equal `StampRect` over all `colSpan` outer iterations. |
| CellOccupancy.StampLine | src/javascripts/utils/TableUtils_Logan.js:127-150 | The inner loop on the map equals `StampRow` over all `rowSpan` iterations. |
| CellOccupancy.OccupyRows | src/javascripts/utils/TableUtils_Logan.js:111-154 | The reducer's loops over all the rows' cells build exactly `Occupy(Infos(rows))`. |
| CellOccupancy.BuildCellTable | src/javascripts/utils/TableUtils_Logan.js:110-157 | As written: the occupancy map of the rows, copied by `cloneWithoutHoles` as written (`ClonePerRow`). The result is a TypeError when a row has a hole. |
| CellOccupancy.BuildCellTableWithoutHoles | src/javascripts/utils/TableUtils_Logan.js:110-157 | Corrected copy (see Findings): the occupancy map of the rows as the holes-free rectangle. |
| CellOccupancy.WidthOf | src/javascripts/utils/TableUtils_Logan.js:185-201 | Corrected copy: the widest row length, bounding and attained. |
| CellOccupancy.WithoutHoles | src/javascripts/utils/TableUtils_Logan.js:185-201 | Corrected copy: the holes-free copy has one row per map row, each as wide as the widest. |
| CellOccupancy.WithoutHolesAt | src/javascripts/utils/TableUtils_Logan.js:185-201 | Corrected copy: every list keeps its place, and every hole or short-row position becomes `null`. |
| CellOccupancy.CloneWithoutHoles | src/javascripts/utils/TableUtils_Logan.js:185-201 | Corrected copy: the nested loops build exactly `WithoutHoles`. |
| CellOccupancy.Longest | src/javascripts/utils/TableUtils_Logan.js:188 | The inner reduce: the longest list of a row, skipping holes. |
| CellOccupancy.CloneRow | src/javascripts/utils/TableUtils_Logan.js:188-199 | The per-row callback as written throws iff the row has a hole and a non-empty list. Otherwise it gives a rectangle as wide as the longest list. |
| CellOccupancy.CloneRowAsWritten | src/javascripts/utils/TableUtils_Logan.js:188-199 | The callback's loops give `CloneRow`, including its TypeError. |
| CellOccupancy.ClonePerRow | src/javascripts/utils/TableUtils_Logan.js:185-201 | As written, over `n` rows: a missing row stays missing, and the first row that throws makes the whole map throw. |
| CellOccupancy.ClonePerRowThrows | src/javascripts/utils/TableUtils_Logan.js:187 | Once a row throws, the whole `map` does. |
| CellOccupancy.CloneWithoutHolesAsWritten | src/javascripts/utils/TableUtils_Logan.js:185-201 | The loops as written give `ClonePerRow` over the whole map. |
| CellOccupancy.ClonePerRowAt | src/javascripts/utils/TableUtils_Logan.js:187-200 | As written, row `y` of the copy is a hole for a missing row, and otherwise the rectangle `CloneRow` makes of it. |
| CellOccupancy.Items | src/javascripts/utils/TableUtils_Logan.js:238-241 | How `validateCellData` walks the copy as written: one item per position, each a padded list and never `null`. |
| CellOccupancy.ItemAt | src/javascripts/utils/TableUtils_Logan.js:188-199 | As written, every item of an existing row is as long as the row's longest list. |
| CellOccupancy.FirstBad | src/javascripts/utils/TableUtils_Logan.js:238-241 | The first null or multi-cell item of a row, or none. Holes are skipped. |
| CellOccupancy.ValidateFrom | src/javascripts/utils/TableUtils_Logan.js:236-243 | `validateCellData` returns iff no visited item is null or longer than 1. Otherwise it throws for the first such item, rows first and then columns: `Missing` for null, `Overlapping` for more than one cell. |
| CellOccupancy.ValidateWithoutHoles | src/javascripts/utils/TableUtils_Logan.js:236-243 | Corrected copy: on the holes-free copy, validation returns iff every position of the rectangle is covered by at least one and at most one cell. |
| CellOccupancy.ClonedValidation | src/javascripts/utils/TableUtils_Logan.js:236-243 | `buildCellTable` then `validateCellData`, both as written: no missing cell is ever reported. Validation fails iff some position is covered twice or more, and then reports column 0 of that row. |
| CellOccupancy.ValidateCellTable | src/javascripts/utils/TableUtils_Logan.js:110-157 | Corrected copy: `buildCellTable` then `validateCellData` accepts iff every position of the rectangle is covered by exactly one cell. |
| CellOccupancy.GapRowsThrow | src/javascripts/utils/TableUtils_Logan.js:185-201 | On a table whose colSpan-2 cell leaves position 0 of the next row uncovered, the clone as written throws a TypeError. Validating the holes-free copy reports a missing cell at row 1, column 0. |
| CellOccupancy.ShortRowsAccepted | src/javascripts/utils/TableUtils_Logan.js:185-201 | On `[[TD colSpan 2], [TD]]`, where no position is covered twice but row 0 is one position short, the copy as written is accepted. The holes-free rectangle is rejected for the missing cell at row 0, column 1. |
| CellOccupancy.ShortOccupancy | src/javascripts/utils/TableUtils_Logan.js:120-154 | The map built for that table: row 0 has one position and row 1 two. |
| CellOccupancy.GapOccupancy | src/javascripts/utils/TableUtils_Logan.js:120-154 | The map built for that table, with a hole at row 1, position 0. |
| CellOccupancy.FlatMapSplit | src/javascripts/utils/TableUtils_Logan.js:165-171 | The flattening reduce goes element by element: that of a list is that of its two parts, joined. |
| CellOccupancy.FlattenAt | src/javascripts/utils/TableUtils_Logan.js:165-171 | A `colgroup` without a `span` attribute is replaced by its element children; every other element is kept as itself, in place. |
| CellOccupancy.ExpandIndexed | src/javascripts/utils/TableUtils_Logan.js:173-182 | One entry per spanned column, so the length is the sum of spans, and the `k`-th entry has `x == k`. |
| CellOccupancy.ExpandBlock | src/javascripts/utils/TableUtils_Logan.js:173-182 | Element `m` owns the `span` consecutive entries starting at the sum of the spans before it. |
| CellOccupancy.BuildColumnData | src/javascripts/utils/TableUtils_Logan.js:162-183 | The reducers' loops give the expanded list of the flattened elements. |
| JsParseInt.TrimStart | src/javascripts/utils/TableUtils_Logan.js:207 | `parseInt` drops exactly the leading white space (step 2 of section 19.2.5 of ECMA-262). |
| JsParseInt.DigitPrefix | src/javascripts/utils/TableUtils_Logan.js:207 | The longest prefix of decimal digits (step 11). |
| JsParseInt.ParseDecimal | src/javascripts/utils/TableUtils_Logan.js:207 | A numeral followed by a non-digit reads as its number. |
| JsParseInt.ParseNegative | src/javascripts/utils/TableUtils_Logan.js:207 | A leading minus sign negates, and `-0` reads as 0. |
| JsParseInt.ParseSkipsWhiteSpace | src/javascripts/utils/TableUtils_Logan.js:207 | Leading white space does not change the result. |
| JsParseInt.ParseNaN | src/javascripts/utils/TableUtils_Logan.js:207 | NaN exactly when no digit follows the white space and one optional sign. |
| JsParseInt.GetIntegerAttribute | src/javascripts/utils/TableUtils_Logan.js:206-210 | 1 when the attribute is absent or parses to NaN; otherwise the parsed value unchanged, including 0 and negatives. |
| JsParseInt.GetIntegerAttributeNumeral | src/javascripts/utils/TableUtils_Logan.js:206-210 | An attribute holding a numeral gives that number. |
| JsParseInt.GetIntegerAttributeDefault | src/javascripts/utils/TableUtils_Logan.js:206-210 | Absent, empty and non-numeric attributes give 1. |
| JsParseInt.GetIntegerAttributePadded | src/javascripts/utils/TableUtils_Logan.js:206-210 | Surrounding white space is ignored. |
| JsParseInt.GetIntegerAttributeUnit | src/javascripts/utils/TableUtils_Logan.js:206-210 | A trailing unit is ignored: `2px` gives 2. |
| JsParseInt.GetIntegerAttributeNegativeZero | src/javascripts/utils/TableUtils_Logan.js:206-210 | `-0` gives 0. |
| Uuid.HexChar | src/javascripts/utils/UUID.js:13-14 | A nibble prints as one lower-case hex digit. |
| Uuid.VariantNibble | src/javascripts/utils/UUID.js:12 | `r & 0x3`, then OR 0x8, is one of 8, 9, 10, 11. |
| Uuid.Fill | src/javascripts/utils/UUID.js:10-13 | The replacement keeps the template's length. |
| Uuid.TemplateSlots | src/javascripts/utils/UUID.js:10 | The template is 32 characters with 31 `x`/`y` slots. |
| Uuid.FillAt | src/javascripts/utils/UUID.js:10-13 | Position `i` holds a random hex digit for `x`, a variant digit for `y`, and the template character otherwise. Each slot takes the next nibble in order. |
| Uuid.FillTemplateAt | src/javascripts/utils/UUID.js:10-13 | On the template: '4' at 12, the variant digit at 16, and the next nibble's digit elsewhere. |
| Uuid.UUIDAt | src/javascripts/utils/UUID.js:9-15 | The generated string is 32 characters: '4' at index 12, one of `8 9 a b` at index 16, a lower-case hex digit elsewhere. |
| Uuid.UUIDIsV4Layout | src/javascripts/utils/UUID.js:9-15 | Every generated string has the version-4 layout: 32 lower-case hex digits, '4' at 12, one of `8 9 a b` at 16. |
| Uuid.DrawsAt | src/javascripts/utils/UUID.js:10-13 | The nibbles read back from a version-4 string regenerate it position by position. |
| Uuid.V4LayoutIsGenerated | src/javascripts/utils/UUID.js:9-15 | Every string with the version-4 layout is generated by some choice of nibbles. |
| Uuid.UUIDImage | src/javascripts/utils/UUID.js:9-15 | The strings the generator can produce are exactly those with the version-4 layout. |
| Uuid.MatchesAllPointwise | src/javascripts/utils/UUID.js:29 | An anchored pattern of single-character classes matches iff lengths agree and each character matches its class. |
| Uuid.HexClassMatches | src/javascripts/utils/UUID.js:29 | `[0-9a-f]` with the `i` flag matches exactly the hex digits of either case. |
| Uuid.IsUUIDExactly | src/javascripts/utils/UUID.js:24-30 | `isUUID` accepts exactly 12 hex digits, '4', then 19 hex digits, in either case. |
| Uuid.IsUUIDRejectsMissing | src/javascripts/utils/UUID.js:25-27 | A missing or empty string is rejected. |
| Uuid.GeneratedIsAccepted | src/javascripts/utils/UUID.js:9-30 | Every generated string is accepted by `isUUID`. |
| Uuid.V4LayoutIsAccepted | src/javascripts/utils/UUID.js:29 | Every string with the version-4 layout is accepted. |
| Uuid.AcceptedButNeverGenerated | src/javascripts/utils/UUID.js:10-29 | `isUUID` accepts a string the generator never produces: index 16 is '0', not a variant digit. |
| Uuid.ZeroVariantAccepted | src/javascripts/utils/UUID.js:29 | A '4' at index 12 and '0' everywhere else passes the pattern but lacks the version-4 layout. |

## Left out

- The UI wiring and module loading (`modules/table_merge.js`, `modules/index.js`), `DOMUtils.js` and the console dumps of `DebugUtils.js` are not part of this model.
- `operations` and `canMergeLeft` in `TableUtils.js` are stubs that decide nothing, and the merge-legality tables of the later test suite describe code that is not here.
- `buildTableMap`, `removeLine`/`addLine` and the empty `mergeLeft` of `TableUtils_Logan.js` are not modelled. They use an unimported library and build a `Map` from non-pair values.
- `getElementChildren` is not modelled. The rows are given as their element children, and its error on non-white-space text children is not represented.
- `findCell` is not in this model. `TableMerge.FindCell` specifies it by its postcondition (an entry recording the element) with a row-by-row search.
- `Math.random` is floating-point randomness. The 31 nibbles are an input of `Uuid.UUID`.
- The DOM: element identity is an `id` and `Table.nextId` hands out fresh ones.
  - `outerHTML = sourceEl.outerHTML` is a new element copying the source's tag, spans and content, under a new id. No HTML is serialised or parsed.
  - `cloneNode(false)` gives a contentless copy of the tag. Other attributes and the cell's content are not modelled.
- Zero spans: every `rowSpan` and `colSpan` is required to be at least 1, as the DOM reports them for `rowspan="1"` and up. `rowspan="0"` is not modelled.
- Merging into a neighbour with a span larger than 1. The remaining-span grid makes the left and upper neighbours always adjacent; the model states what happens whatever the grid holds, and does not reproduce the later test suite's expectations.
- TableMerge.Widened: adds the spans without a bound. Setting `colSpan` or `rowSpan` in the DOM clamps the value (`colSpan` to 1..1000, `rowSpan` to 0..65534, as the HTML standard's table section defines), so a large `+=` saturates there. That clamping is not modelled.
- TableMerge.BelowStep: the rows of `thead`, `tbody` and `tfoot` are one flat sequence here. In the DOM `nextElementSibling` is null at the end of a section, so `unMerge` throws there. The model instead moves on to the first row of the next section.
- TableMerge.MergeLeftFails: states only that the listed cases fail without a change, not the converse. When the left entry records the source itself, the call fails after editing (see `ReplaceEffect`).
- TableMerge.MergeUpFails: states only that the listed cases fail without a change, for the same reason.
- CellOccupancy.Mark: the `last` flags read `info.colSpan` and `info.rowSpan`, which the record lacks, so they are always false. `first` compares the outer index on both axes, as written.
- CellOccupancy.ValidateCellData: generic over the item type. It is applied to the copy as written through `Items`, and to the corrected rectangle through `Solid`.
- JsParseInt.ParseInt: radix 10 only, and results are integers. `parseInt` works in floating point, so precision loss beyond 2^53 is not modelled.
- CellOccupancy.LowerAscii and Uuid.LowerAscii: `toLowerCase` maps ASCII letters only, which is all that tag names and hex digits contain.
- Uuid.Canonicalize: the `i` flag folds ASCII letters only.

## Findings

| source | as written | input that shows it | evidently intended | confidence | as-written member | corrected member |
|---|---|---|---|---|---|---|
| src/javascripts/utils/TableUtils_Logan.js:185-201 | Each row's position lists are copied by reading `row[i][j]` for every position `i`. A position no cell covers is a hole, so `row[i]` is `undefined` and the read throws a TypeError. | Rows `[[TD 1x1, TD with colSpan 2], []]`. The second cell reaches into row 1 at position 1 (spans swapped as written), so row 1 has a hole at position 0. | A holes-free copy with `null` at uncovered positions, as the comment at line 186 says. `validateCellData` (lines 236-243) then reports "Missing cell at row 1 column 0". | not executed; high | CellOccupancy.ClonePerRow, CellOccupancy.GapRowsThrow | CellOccupancy.BuildCellTableWithoutHoles, CellOccupancy.CloneWithoutHoles, CellOccupancy.ValidateCellTable |
| src/javascripts/utils/TableUtils_Logan.js:185-201 | `row[i][j]` takes the `j`-th cell of position `i`. Each row becomes one entry per position, padded with `null` to the row's longest list, and rows keep their own lengths. `validateCellData` (lines 236-243) then sees padded lists, never `null`. It never reports a missing cell, and it reports an overlap at column 0 of the row. | Rows `[[TD with colSpan 2], [TD]]`. Row 0 has one position and row 1 two; no position is covered twice. As written the copy is accepted. | A rectangle as wide as the widest row, each position holding its list or `null`, as the comment at line 186 says. `validateCellData` then reports "Missing cell at row 0 column 1", and reports an overlap at its own column. | not executed; medium | CellOccupancy.ClonedValidation, CellOccupancy.ShortRowsAccepted | CellOccupancy.BuildCellTableWithoutHoles, CellOccupancy.ValidateCellTable |

/**
 * The grid builder of src/javascripts/utils/TableUtils.js.
 *
 * `buildTableMap` sizes a grid with `dimensions`, fills it with blank entries
 * (`initializeTableMap`) and then walks the rows with a column cursor
 * (`populateTableMap`), stamping each cell's rectangle (`fillSpans`). Every
 * stamped position records the span that REMAINS from it to the far edge of
 * its cell (`rowSpan - i`, `colSpan - j`); only the origin records the element.
 *
 * The model has two layers: a functional reference on `Grid` values
 * (`Stamp`, `Skip`, `Place`, `PlaceRow`, `Populate`, `BuildGrid`), and the
 * imperative methods on an `array2<Entry>`, each proved to leave in the array
 * exactly what the reference computes.
 */
module TableGrid {
  import opened Basics
  import opened Cells

  /** One grid position: the element whose origin it is (null elsewhere) and the remaining spans. */
  datatype Entry = Entry(el: Option<Cell>, rowSpan: nat, colSpan: nat)

  /** The entry `initializeTableMap` writes everywhere. */
  const Blank: Entry := Entry(None, 0, 0)

  type Grid = seq<seq<Entry>>

  /** `Error('Invalid grid operation: row=…, col=…')`, thrown by `assertGrid`. */
  datatype GridError = InvalidGrid(row: nat, col: nat)

  /** `grid[0].length`; a grid without rows has width 0. */
  function Width(g: Grid): nat
  {
    if g == [] then 0 else |g[0]|
  }

  /** Every row as wide as the first. */
  predicate IsRect(g: Grid)
  {
    forall r :: 0 <= r < |g| ==> |g[r]| == Width(g)
  }

  /** `assertGrid(grid, row, col)` returns (instead of throwing). */
  predicate InGrid(g: Grid, row: nat, col: nat)
  {
    row < |g| && col < Width(g)
  }

  /** Same number of rows, and row by row the same length. */
  predicate SameShape(g: Grid, h: Grid)
  {
    |g| == |h| && forall r :: 0 <= r < |g| ==> |g[r]| == |h[r]|
  }

  predicate SpannedRow(cells: seq<Cell>)
  {
    forall k :: 0 <= k < |cells| ==> cells[k].rowSpan >= 1 && cells[k].colSpan >= 1
  }

  function Max(a: nat, b: nat): nat
  {
    if a >= b then a else b
  }

  // ---------------------------------------------------------------------------
  // dimensions

  /** The inner reduce of `dimensions`: the sum of the declared `colSpan`s of one row. */
  function RowWidth(cells: seq<Cell>): nat
  {
    if cells == [] then 0 else RowWidth(cells[..|cells| - 1]) + cells[|cells| - 1].colSpan
  }

  /** The outer reduce of `dimensions`: the widest row, 0 for a table without rows. */
  function MaxWidth(rows: Rows): (w: nat)
    ensures forall r :: 0 <= r < |rows| ==> RowWidth(rows[r]) <= w
    ensures w == 0 || exists r :: 0 <= r < |rows| && RowWidth(rows[r]) == w
  {
    if rows == [] then 0
    else
      var front := rows[..|rows| - 1];
      assert forall r :: 0 <= r < |front| ==> front[r] == rows[r];
      Max(MaxWidth(front), RowWidth(rows[|rows| - 1]))
  }

  /**
   * `dimensions(tableEl)`: the number of rows, and the largest per-row sum of
   * declared `colSpan`s. Cells reaching into a row from above are not counted.
   */
  function Dimensions(rows: Rows): (d: (nat, nat))
    ensures d.0 == |rows|
    ensures forall r :: 0 <= r < |rows| ==> RowWidth(rows[r]) <= d.1
    ensures d.1 == 0 || exists r :: 0 <= r < |rows| && RowWidth(rows[r]) == d.1
    ensures rows == [] ==> d.1 == 0
  {
    (|rows|, MaxWidth(rows))
  }

  // ---------------------------------------------------------------------------
  // The functional reference

  /** The grid `initializeTableMap(h, w)` returns. */
  function Init(h: nat, w: nat): Grid
  {
    seq(h, _ => seq(w, _ => Blank))
  }

  predicate InRect(r: nat, k: nat, row: nat, col: nat, nr: nat, nc: nat)
  {
    row <= r < row + nr && col <= k < col + nc
  }

  /** What `fillSpans` leaves at a stamped position `(r, k)` of the cell `c` placed at `(row, col)`. */
  function Stamped(e: Entry, r: nat, k: nat, row: nat, col: nat, c: Cell): Entry
    requires InRect(r, k, row, col, c.rowSpan, c.colSpan)
  {
    Entry(if r == row && k == col then Some(c) else e.el, c.rowSpan - (r - row), c.colSpan - (k - col))
  }

  /** The first `nr` rows and `nc` columns of the cell's rectangle stamped, every other entry kept. */
  function StampRect(g: Grid, row: nat, col: nat, c: Cell, nr: nat, nc: nat): (s: Grid)
    requires nr <= c.rowSpan && nc <= c.colSpan
    ensures SameShape(s, g)
  {
    seq(|g|, r requires 0 <= r < |g| =>
      seq(|g[r]|, k requires 0 <= k < |g[r]| =>
        if InRect(r, k, row, col, nr, nc) then Stamped(g[r][k], r, k, row, col, c) else g[r][k]))
  }

  /** The grid after `fillSpans`, and the error it threw, if any. */
  datatype Filled = Filled(grid: Grid, error: Option<GridError>)

  /**
   * `fillSpans(grid, row, col, cell)`. The loops visit the rectangle row by
   * row; `assertGrid` throws at the first position outside the grid, after
   * the positions before it were stamped: at `(row, width)` when the cell is
   * too wide, otherwise at `(height, col)` when it is too tall.
   */
  function Stamp(g: Grid, row: nat, col: nat, c: Cell): (f: Filled)
    requires IsRect(g) && c.rowSpan >= 1 && c.colSpan >= 1
    ensures SameShape(f.grid, g)
  {
    if !InGrid(g, row, col) then Filled(g, Some(InvalidGrid(row, col)))
    else if col + c.colSpan > Width(g) then
      Filled(StampRect(g, row, col, c, 1, Width(g) - col), Some(InvalidGrid(row, Width(g))))
    else if row + c.rowSpan > |g| then
      Filled(StampRect(g, row, col, c, |g| - row, c.colSpan), Some(InvalidGrid(|g|, col)))
    else
      Filled(StampRect(g, row, col, c, c.rowSpan, c.colSpan), None)
  }

  /** The skip loop of `populateTableMap`: the first column from `col` on whose `rowSpan` is 0. */
  function Skip(g: Grid, row: nat, col: nat): (k: Result<nat, GridError>)
    requires IsRect(g)
    decreases Width(g) - col
    ensures k.Ok? ==>
      && col <= k.value && InGrid(g, row, k.value) && g[row][k.value].rowSpan == 0
      && forall j :: col <= j < k.value ==> g[row][j].rowSpan != 0
    ensures k.Err? && row >= |g| ==> k.error == InvalidGrid(row, col)
    ensures k.Err? && row < |g| ==>
      && k.error == InvalidGrid(row, Max(col, Width(g)))
      && forall j :: col <= j < Width(g) ==> g[row][j].rowSpan != 0
  {
    if !InGrid(g, row, col) then Err(InvalidGrid(row, col))
    else if g[row][col].rowSpan != 0 then Skip(g, row, col + 1)
    else Ok(col)
  }

  /** One cell of `populateTableMap`: skip filled positions, stamp, advance the cursor by `colSpan`. */
  function Place(g: Grid, row: nat, col: nat, c: Cell): (p: Result<(Grid, nat), GridError>)
    requires IsRect(g) && c.rowSpan >= 1 && c.colSpan >= 1
    ensures p.Ok? ==> SameShape(p.value.0, g)
  {
    match Skip(g, row, col)
    case Err(e) => Err(e)
    case Ok(k) =>
      var f := Stamp(g, row, k, c);
      if f.error.Some? then Err(f.error.value) else Ok((f.grid, k + c.colSpan))
  }

  /** The cells of one row placed left to right into grid row `row`; the grid and the final cursor. */
  function PlaceRow(g: Grid, row: nat, cells: seq<Cell>): (p: Result<(Grid, nat), GridError>)
    requires IsRect(g) && SpannedRow(cells)
    ensures p.Ok? ==> SameShape(p.value.0, g)
  {
    if cells == [] then Ok((g, 0))
    else
      match PlaceRow(g, row, cells[..|cells| - 1])
      case Err(e) => Err(e)
      case Ok((g', col)) => Place(g', row, col, cells[|cells| - 1])
  }

  /** `populateTableMap`: row `i` of the table placed into grid row `i`, in order. */
  function Populate(g: Grid, rows: Rows): (p: Result<Grid, GridError>)
    requires IsRect(g) && Spanned(rows)
    ensures p.Ok? ==> SameShape(p.value, g)
  {
    if rows == [] then Ok(g)
    else
      var n := |rows| - 1;
      assert Spanned(rows[..n]) by {
        forall r, k | 0 <= r < n && 0 <= k < |rows[..n][r]|
          ensures rows[..n][r][k].rowSpan >= 1 && rows[..n][r][k].colSpan >= 1
        {
          assert rows[..n][r] == rows[r];
        }
      }
      match Populate(g, rows[..n])
      case Err(e) => Err(e)
      case Ok(g') =>
        match PlaceRow(g', n, rows[n])
        case Err(e) => Err(e)
        case Ok((g'', _)) => Ok(g'')
  }

  /** `buildTableMap`: the grid, or the error `assertGrid` threw while it was filled. */
  function BuildGrid(rows: Rows): (p: Result<Grid, GridError>)
    requires Spanned(rows)
    ensures p.Ok? ==> |p.value| == |rows| && forall r :: 0 <= r < |rows| ==> |p.value[r]| == MaxWidth(rows)
  {
    Populate(Init(|rows|, MaxWidth(rows)), rows)
  }

  // ---------------------------------------------------------------------------
  // The imperative builder

  /** The grid an `array2` holds, row by row. */
  function Snap(a: array2<Entry>): (g: Grid)
    reads a
    ensures |g| == a.Length0 && forall r :: 0 <= r < |g| ==> |g[r]| == a.Length1
    ensures forall r, k :: 0 <= r < a.Length0 && 0 <= k < a.Length1 ==> g[r][k] == a[r, k]
  {
    seq(a.Length0, r requires 0 <= r < a.Length0 reads a =>
      seq(a.Length1, k requires 0 <= k < a.Length1 reads a => a[r, k]))
  }

  /** Two grids of the same shape that agree everywhere are equal. */
  lemma GridExt(g: Grid, h: Grid)
    requires SameShape(g, h)
    requires forall r, k :: 0 <= r < |g| && 0 <= k < |g[r]| ==> g[r][k] == h[r][k]
    ensures g == h
  {
    forall r | 0 <= r < |g| ensures g[r] == h[r] {
      assert |g[r]| == |h[r]|;
    }
  }

  /** `initializeTableMap(nRows, nCols)`. */
  method InitializeTableMap(nRows: nat, nCols: nat) returns (grid: array2<Entry>)
    ensures fresh(grid)
    ensures Snap(grid) == Init(nRows, nCols)
  {
    grid := new Entry[nRows, nCols];
    var i := 0;
    while i < nRows
      invariant 0 <= i <= nRows
      invariant forall r, k :: 0 <= r < i && 0 <= k < nCols ==> grid[r, k] == Blank
    {
      var j := 0;
      while j < nCols
        invariant 0 <= j <= nCols
        invariant forall r, k :: 0 <= r < i && 0 <= k < nCols ==> grid[r, k] == Blank
        invariant forall k :: 0 <= k < j ==> grid[i, k] == Blank
      {
        grid[i, j] := Blank;
        j := j + 1;
      }
      i := i + 1;
    }
    GridExt(Snap(grid), Init(nRows, nCols));
  }

  /** The entry at `(r, k)` once `fillSpans` has stamped `i` full rows and `j` positions of the next. */
  function Progress(g: Grid, r: nat, k: nat, row: nat, col: nat, c: Cell, i: nat, j: nat): Entry
    requires r < |g| && k < |g[r]|
    requires i <= c.rowSpan && j <= c.colSpan
  {
    if InRect(r, k, row, col, i, c.colSpan) || (r == row + i && i < c.rowSpan && col <= k < col + j) then
      Stamped(g[r][k], r, k, row, col, c)
    else if r == row && k == col then
      g[r][k].(el := Some(c))
    else g[r][k]
  }

  /**
   * Where `fillSpans` stops (all rows done, or `assertGrid` throws below the
   * last row or right of the last column) the stamped positions form the
   * rectangle `StampRect` describes.
   */
  lemma ProgressEnd(a: array2<Entry>, g0: Grid, row: nat, col: nat, c: Cell, i: nat, j: nat)
    requires |g0| == a.Length0 && forall r :: 0 <= r < |g0| ==> |g0[r]| == a.Length1
    requires 1 <= c.rowSpan && 1 <= c.colSpan && i <= c.rowSpan && j <= c.colSpan
    requires row < a.Length0 && col < a.Length1
    requires (i == c.rowSpan && j == 0) || (i >= 1 && row + i == a.Length0 && j == 0) || (i == 0 && j >= 1 && col + j == a.Length1)
    requires forall r, k :: 0 <= r < a.Length0 && 0 <= k < a.Length1 ==> a[r, k] == Progress(g0, r, k, row, col, c, i, j)
    ensures Snap(a) == StampRect(g0, row, col, c, if i == 0 then 1 else i, if i == 0 then j else c.colSpan)
  {
    var s := StampRect(g0, row, col, c, if i == 0 then 1 else i, if i == 0 then j else c.colSpan);
    forall r, k | 0 <= r < a.Length0 && 0 <= k < a.Length1 ensures Snap(a)[r][k] == s[r][k] {
    }
    GridExt(Snap(a), s);
  }

  /**
   * Row `i` of the stamping in `fillSpans`: positions `(row + i, col)` to
   * `(row + i, col + colSpan - 1)`, left to right; `j` is where it stops,
   * short of `colSpan` only where `assertGrid` throws.
   */
  method FillSpanRow(grid: array2<Entry>, ghost g0: Grid, row: nat, col: nat, c: Cell, i: nat) returns (j: nat)
    requires c.rowSpan >= 1 && c.colSpan >= 1 && i < c.rowSpan
    requires |g0| == grid.Length0 && forall r :: 0 <= r < |g0| ==> |g0[r]| == grid.Length1
    requires forall r, k :: 0 <= r < grid.Length0 && 0 <= k < grid.Length1 ==>
      grid[r, k] == Progress(g0, r, k, row, col, c, i, 0)
    modifies grid
    ensures j <= c.colSpan
    ensures j < c.colSpan ==> !(row + i < grid.Length0 && col + j < grid.Length1)
    ensures j > 0 ==> row + i < grid.Length0 && col + j <= grid.Length1
    ensures forall r, k :: 0 <= r < grid.Length0 && 0 <= k < grid.Length1 ==>
      grid[r, k] == Progress(g0, r, k, row, col, c, i, j)
  {
    j := 0;
    while j < c.colSpan
      invariant 0 <= j <= c.colSpan
      invariant j > 0 ==> row + i < grid.Length0 && col + j <= grid.Length1
      invariant forall r, k :: 0 <= r < grid.Length0 && 0 <= k < grid.Length1 ==>
        grid[r, k] == Progress(g0, r, k, row, col, c, i, j)
    {
      if !(row + i < grid.Length0 && col + j < grid.Length1) {
        return;
      }
      grid[row + i, col + j] := grid[row + i, col + j].(rowSpan := c.rowSpan - i, colSpan := c.colSpan - j);
      j := j + 1;
    }
  }

  /** `fillSpans(grid, row, col, cell)`, in place. */
  method FillSpans(grid: array2<Entry>, row: nat, col: nat, c: Cell) returns (err: Option<GridError>)
    requires c.rowSpan >= 1 && c.colSpan >= 1
    modifies grid
    ensures Filled(Snap(grid), err) == Stamp(old(Snap(grid)), row, col, c)
  {
    ghost var g0 := Snap(grid);
    if !(row < grid.Length0 && col < grid.Length1) {
      return Some(InvalidGrid(row, col));
    }
    grid[row, col] := grid[row, col].(el := Some(c));
    var i := 0;
    while i < c.rowSpan
      invariant 0 <= i <= c.rowSpan
      invariant i > 0 ==> col + c.colSpan <= grid.Length1 && row + i <= grid.Length0
      invariant forall r, k :: 0 <= r < grid.Length0 && 0 <= k < grid.Length1 ==>
        grid[r, k] == Progress(g0, r, k, row, col, c, i, 0)
    {
      var j := FillSpanRow(grid, g0, row, col, c, i);
      if j < c.colSpan {
        ProgressEnd(grid, g0, row, col, c, i, j);
        return Some(InvalidGrid(row + i, col + j));
      }
      i := i + 1;
    }
    ProgressEnd(grid, g0, row, col, c, i, 0);
    return None;
  }

  /** Once a prefix of a row throws, every longer prefix throws the same error. */
  lemma {:induction false} PlaceRowErrorSticks(g: Grid, row: nat, cells: seq<Cell>, n: nat, m: nat, e: GridError)
    requires IsRect(g) && SpannedRow(cells) && n <= m <= |cells|
    requires SpannedRow(cells[..n]) && PlaceRow(g, row, cells[..n]) == Err(e)
    ensures SpannedRow(cells[..m]) && PlaceRow(g, row, cells[..m]) == Err(e)
  {
    if m > n {
      PlaceRowErrorSticks(g, row, cells, n, m - 1, e);
      assert cells[..m][..m - 1] == cells[..m - 1];
    }
  }

  /** Once a prefix of the rows throws, every longer prefix throws the same error. */
  lemma {:induction false} PopulateErrorSticks(g: Grid, rows: Rows, n: nat, m: nat, e: GridError)
    requires IsRect(g) && Spanned(rows) && n <= m <= |rows|
    requires Spanned(rows[..n]) && Populate(g, rows[..n]) == Err(e)
    ensures Spanned(rows[..m]) && Populate(g, rows[..m]) == Err(e)
  {
    if m > n {
      PopulateErrorSticks(g, rows, n, m - 1, e);
      assert rows[..m][..m - 1] == rows[..m - 1];
    }
  }

  lemma SkipStep(g: Grid, row: nat, col: nat)
    requires IsRect(g) && InGrid(g, row, col) && g[row][col].rowSpan != 0
    ensures Skip(g, row, col) == Skip(g, row, col + 1)
  {
  }

  lemma SkipStop(g: Grid, row: nat, col: nat)
    requires IsRect(g) && !(InGrid(g, row, col) && g[row][col].rowSpan != 0)
    ensures Skip(g, row, col) == if InGrid(g, row, col) then Ok(col) else Err(InvalidGrid(row, col))
  {
  }

  /** `Place` once the skip has stopped at column `k`: the stamp's outcome and the advanced cursor. */
  lemma PlaceAfterSkip(g: Grid, row: nat, col: nat, c: Cell, k: nat)
    requires IsRect(g) && c.rowSpan >= 1 && c.colSpan >= 1 && Skip(g, row, col) == Ok(k)
    ensures Place(g, row, col, c) ==
      var f := Stamp(g, row, k, c);
      if f.error.Some? then Err(f.error.value) else Ok((f.grid, k + c.colSpan))
  {
  }

  /** `PlaceRow` on one more cell is `Place` after the shorter prefix. */
  lemma PlaceRowStep(g: Grid, row: nat, cells: seq<Cell>, j: nat, g': Grid, col: nat)
    requires IsRect(g) && SpannedRow(cells) && j < |cells|
    requires SpannedRow(cells[..j]) && PlaceRow(g, row, cells[..j]) == Ok((g', col))
    ensures SpannedRow(cells[..j + 1]) && IsRect(g')
    ensures PlaceRow(g, row, cells[..j + 1]) == Place(g', row, col, cells[j])
  {
    assert cells[..j + 1][..j] == cells[..j];
  }

  /** `Populate` on one more row is `PlaceRow` after the shorter prefix. */
  lemma PopulateStep(g: Grid, rows: Rows, n: nat, g': Grid)
    requires IsRect(g) && Spanned(rows) && n < |rows|
    requires Spanned(rows[..n]) && Populate(g, rows[..n]) == Ok(g')
    ensures Spanned(rows[..n + 1]) && IsRect(g') && SpannedRow(rows[n])
    ensures Populate(g, rows[..n + 1]) ==
      match PlaceRow(g', n, rows[n])
      case Err(e) => Err(e)
      case Ok((g'', _)) => Ok(g'')
  {
    assert rows[..n + 1][..n] == rows[..n];
  }

  /** One cell of the inner `forEach`: skip the positions filled from above, stamp, advance the cursor. */
  method PlaceCell(grid: array2<Entry>, row: nat, col: nat, c: Cell) returns (err: Option<GridError>, next: nat)
    requires c.rowSpan >= 1 && c.colSpan >= 1
    modifies grid
    ensures err.Some? ==> Place(old(Snap(grid)), row, col, c) == Err(err.value)
    ensures err.None? ==> Place(old(Snap(grid)), row, col, c) == Ok((Snap(grid), next))
  {
    ghost var g := Snap(grid);
    var k := col;
    // Skip positions already filled by rowspans from above.
    while row < grid.Length0 && k < grid.Length1 && grid[row, k].rowSpan != 0
      invariant col <= k
      invariant Snap(grid) == g
      invariant Skip(g, row, col) == Skip(g, row, k)
      decreases grid.Length1 - k
    {
      SkipStep(g, row, k);
      k := k + 1;
    }
    SkipStop(g, row, k);
    if !(row < grid.Length0 && k < grid.Length1) {
      return Some(InvalidGrid(row, k)), 0;
    }
    err := FillSpans(grid, row, k, c);
    PlaceAfterSkip(g, row, col, c, k);
    next := k + c.colSpan;
  }

  /** The cells of row `row` placed into the grid in place (the inner `forEach`). */
  method PlaceRowCells(grid: array2<Entry>, row: nat, cells: seq<Cell>) returns (err: Option<GridError>)
    requires SpannedRow(cells)
    modifies grid
    ensures err.None? ==> PlaceRow(old(Snap(grid)), row, cells).Ok? && PlaceRow(old(Snap(grid)), row, cells).value.0 == Snap(grid)
    ensures err.Some? ==> PlaceRow(old(Snap(grid)), row, cells) == Err(err.value)
  {
    ghost var gRow := Snap(grid);
    var col := 0;
    var j := 0;
    while j < |cells|
      invariant 0 <= j <= |cells|
      invariant SpannedRow(cells[..j])
      invariant PlaceRow(gRow, row, cells[..j]) == Ok((Snap(grid), col))
    {
      PlaceRowStep(gRow, row, cells, j, Snap(grid), col);
      err, col := PlaceCell(grid, row, col, cells[j]);
      if err.Some? {
        PlaceRowErrorSticks(gRow, row, cells, j + 1, |cells|, err.value);
        assert cells[..|cells|] == cells;
        return;
      }
      j := j + 1;
    }
    assert cells[..|cells|] == cells;
    return None;
  }

  /** `populateTableMap(tableEl, grid, nRows, nCols)`, in place. */
  method PopulateTableMap(rows: Rows, grid: array2<Entry>) returns (err: Option<GridError>)
    requires Spanned(rows)
    modifies grid
    ensures err.None? ==> Populate(old(Snap(grid)), rows) == Ok(Snap(grid))
    ensures err.Some? ==> Populate(old(Snap(grid)), rows) == Err(err.value)
  {
    ghost var g0 := Snap(grid);
    var row := 0;
    while row < |rows|
      invariant 0 <= row <= |rows|
      invariant Spanned(rows[..row]) && IsRect(Snap(grid))
      invariant Populate(g0, rows[..row]) == Ok(Snap(grid))
    {
      ghost var gRow := Snap(grid);
      PopulateStep(g0, rows, row, gRow);
      err := PlaceRowCells(grid, row, rows[row]);
      if err.Some? {
        PopulateErrorSticks(g0, rows, row + 1, |rows|, err.value);
        assert rows[..|rows|] == rows;
        return;
      }
      row := row + 1;
    }
    assert rows[..|rows|] == rows;
    return None;
  }

  /** `buildTableMap(tableEl)`: a fresh grid holding what `BuildGrid` computes, or the error thrown. */
  method BuildTableMap(rows: Rows) returns (res: Result<array2<Entry>, GridError>)
    requires Spanned(rows)
    ensures res.Ok? ==> fresh(res.value) && BuildGrid(rows) == Ok(Snap(res.value))
    ensures res.Err? ==> BuildGrid(rows) == Err(res.error)
  {
    var (nRows, nCols) := Dimensions(rows);
    var grid := InitializeTableMap(nRows, nCols);
    var err := PopulateTableMap(rows, grid);
    if err.Some? {
      return Err(err.value);
    }
    return Ok(grid);
  }
}

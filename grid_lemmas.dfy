/**
 * What a successful `buildTableMap` guarantees about its grid
 * (src/javascripts/utils/TableUtils.js).
 *
 *  - Every entry is blank (`el` null, spans 0,0) or carries spans of at least 1.
 *  - An entry is blank exactly when no placed cell's rectangle covers it; the
 *    builder never demands full coverage.
 *  - Read left to right, the origins of grid row `i` are exactly the cells of
 *    table row `i`; so no two cells share an origin and every `el` is a cell of
 *    the table.
 */
module GridFacts {
  import opened Basics
  import opened Cells
  import opened TableGrid

  /** Every entry is blank or spans at least one row and one column. */
  predicate WellFormed(g: Grid)
  {
    forall r, k :: 0 <= r < |g| && 0 <= k < |g[r]| ==> g[r][k] == Blank || (g[r][k].rowSpan >= 1 && g[r][k].colSpan >= 1)
  }

  /** Some origin's cell, by its own spans, covers `(r, k)`. */
  predicate Covered(g: Grid, r: nat, k: nat)
  {
    exists r0, k0 :: 0 <= r0 < |g| && 0 <= k0 < |g[r0]| && g[r0][k0].el.Some? &&
      InRect(r, k, r0, k0, g[r0][k0].el.value.rowSpan, g[r0][k0].el.value.colSpan)
  }

  /** Blank entries are exactly the positions no cell covers. */
  predicate BlankIffUncovered(g: Grid)
  {
    forall r, k :: 0 <= r < |g| && 0 <= k < |g[r]| ==> (g[r][k] == Blank <==> !Covered(g, r, k))
  }

  /** The elements recorded in one grid row, left to right. */
  function Els(line: seq<Entry>): seq<Cell>
  {
    if line == [] then []
    else Els(line[..|line| - 1]) + (if line[|line| - 1].el.Some? then [line[|line| - 1].el.value] else [])
  }

  /** No entry of row `r` records an element. */
  predicate NoEls(line: seq<Entry>)
  {
    forall k :: 0 <= k < |line| ==> line[k].el.None?
  }

  /** Two rows recording the same elements at the same places. */
  predicate SameEls(a: seq<Entry>, b: seq<Entry>)
  {
    |a| == |b| && forall k :: 0 <= k < |a| ==> a[k].el == b[k].el
  }

  lemma {:induction false} ElsOfSameEls(a: seq<Entry>, b: seq<Entry>)
    requires SameEls(a, b)
    ensures Els(a) == Els(b)
  {
    if a != [] {
      ElsOfSameEls(a[..|a| - 1], b[..|b| - 1]);
    }
  }

  lemma {:induction false} ElsOfNoEls(line: seq<Entry>)
    requires NoEls(line)
    ensures Els(line) == []
  {
    if line != [] {
      ElsOfNoEls(line[..|line| - 1]);
    }
  }

  /** Positions from `m` on record nothing: only the prefix contributes. */
  lemma {:induction false} ElsOfPrefix(line: seq<Entry>, m: nat)
    requires m <= |line| && forall k :: m <= k < |line| ==> line[k].el.None?
    ensures Els(line) == Els(line[..m])
  {
    if m < |line| {
      var n := |line| - 1;
      assert line[..n][..m] == line[..m];
      ElsOfPrefix(line[..n], m);
    } else {
      assert line[..m] == line;
    }
  }

  /** Recording `c` at `k`, right of every recorded element, appends `c`. */
  lemma ElsRecord(line: seq<Entry>, k: nat, c: Cell)
    requires k < |line| && forall j :: k <= j < |line| ==> line[j].el.None?
    ensures Els(line[k := line[k].(el := Some(c))]) == Els(line) + [c]
  {
    var line' := line[k := line[k].(el := Some(c))];
    ElsOfPrefix(line, k);
    ElsOfPrefix(line', k + 1);
    assert line'[..k + 1][..k] == line[..k];
  }

  // ---------------------------------------------------------------------------
  // One stamp

  /** The stamp of a cell whose origin is blank keeps the grid well formed and extends the coverage by its rectangle. */
  lemma StampKeepsInvariant(g: Grid, row: nat, k: nat, c: Cell)
    requires IsRect(g) && c.rowSpan >= 1 && c.colSpan >= 1
    requires WellFormed(g) && BlankIffUncovered(g)
    requires InGrid(g, row, k) && g[row][k].rowSpan == 0
    requires Stamp(g, row, k, c).error.None?
    ensures var g' := Stamp(g, row, k, c).grid;
      && WellFormed(g') && BlankIffUncovered(g')
      && g'[row][k].el == Some(c) && g[row][k].el.None?
      && forall r, j :: 0 <= r < |g| && 0 <= j < |g[r]| && (r != row || j != k) ==> g'[r][j].el == g[r][j].el
  {
    var g': Grid := Stamp(g, row, k, c).grid;
    assert g' == StampRect(g, row, k, c, c.rowSpan, c.colSpan);
    assert g[row][k] == Blank;
    assert g'[row][k].el == Some(c);
    forall r, j | 0 <= r < |g| && 0 <= j < |g[r]|
      ensures (r != row || j != k) ==> g'[r][j].el == g[r][j].el
      ensures !InRect(r, j, row, k, c.rowSpan, c.colSpan) ==> g'[r][j] == g[r][j]
      ensures InRect(r, j, row, k, c.rowSpan, c.colSpan) ==> g'[r][j].rowSpan >= 1 && g'[r][j].colSpan >= 1
    {
    }
    CoverAfterStamp(g, g', row, k, c);
  }

  /**
   * Coverage after a stamp, from what the stamp changes: the origin now
   * records `c`, every position of `c`'s rectangle is filled, and every other
   * position and every other origin is as before.
   */
  lemma CoverAfterStamp(g: Grid, g': Grid, row: nat, k: nat, c: Cell)
    requires SameShape(g', g) && BlankIffUncovered(g)
    requires row < |g| && k < |g[row]| && g[row][k] == Blank
    requires g'[row][k].el == Some(c)
    requires forall r, j :: 0 <= r < |g| && 0 <= j < |g[r]| && (r != row || j != k) ==> g'[r][j].el == g[r][j].el
    requires forall r, j :: 0 <= r < |g| && 0 <= j < |g[r]| && !InRect(r, j, row, k, c.rowSpan, c.colSpan) ==> g'[r][j] == g[r][j]
    requires forall r, j :: 0 <= r < |g| && 0 <= j < |g[r]| && InRect(r, j, row, k, c.rowSpan, c.colSpan) ==>
      g'[r][j].rowSpan >= 1 && g'[r][j].colSpan >= 1
    ensures BlankIffUncovered(g')
  {
    forall r, j | 0 <= r < |g'| && 0 <= j < |g'[r]|
      ensures g'[r][j] == Blank <==> !Covered(g', r, j)
    {
      if InRect(r, j, row, k, c.rowSpan, c.colSpan) {
        assert g'[r][j] != Blank;
        assert Covered(g', r, j);
      } else {
        if Covered(g, r, j) {
          var r0, k0 :| 0 <= r0 < |g| && 0 <= k0 < |g[r0]| && g[r0][k0].el.Some? &&
            InRect(r, j, r0, k0, g[r0][k0].el.value.rowSpan, g[r0][k0].el.value.colSpan);
          assert (r0, k0) != (row, k);
          assert g'[r0][k0].el == g[r0][k0].el;
        }
        if Covered(g', r, j) {
          var r0, k0 :| 0 <= r0 < |g'| && 0 <= k0 < |g'[r0]| && g'[r0][k0].el.Some? &&
            InRect(r, j, r0, k0, g'[r0][k0].el.value.rowSpan, g'[r0][k0].el.value.colSpan);
          assert (r0, k0) != (row, k);
          assert g'[r0][k0].el == g[r0][k0].el;
          assert Covered(g, r, j);
        }
      }
    }
  }

  lemma SameShapeRect(g: Grid, h: Grid)
    requires IsRect(h) && SameShape(g, h)
    ensures IsRect(g) && Width(g) == Width(h)
  {
  }

  // ---------------------------------------------------------------------------
  // One row, then the whole table

  /** What holds after some cells of row `row` were placed, with the cursor at `col`. */
  predicate RowProgress(g0: Grid, g: Grid, row: nat, placed: seq<Cell>, col: nat)
  {
    && SameShape(g, g0) && row < |g|
    && WellFormed(g) && BlankIffUncovered(g)
    && Els(g[row]) == placed
    && (forall j :: col <= j < |g[row]| ==> g[row][j].el.None?)
    && (forall r :: 0 <= r < |g| && r != row ==> SameEls(g[r], g0[r]))
  }

  /** Placing one more cell appends it to the row's origins and keeps the invariant. */
  lemma PlaceProgress(g0: Grid, g: Grid, row: nat, placed: seq<Cell>, col: nat, c: Cell)
    requires IsRect(g0) && c.rowSpan >= 1 && c.colSpan >= 1
    requires RowProgress(g0, g, row, placed, col)
    ensures IsRect(g)
    ensures Place(g, row, col, c).Ok? ==>
      RowProgress(g0, Place(g, row, col, c).value.0, row, placed + [c], Place(g, row, col, c).value.1)
  {
    SameShapeRect(g, g0);
    match Skip(g, row, col)
    case Err(_) =>
    case Ok(k) =>
      var f := Stamp(g, row, k, c);
      if f.error.None? {
        StampKeepsInvariant(g, row, k, c);
        ProgressStep(g0, g, f.grid, row, placed, col, k, c);
      }
  }

  /** The invariant after one stamp, from what the stamp changes: the one origin it records. */
  lemma ProgressStep(g0: Grid, g: Grid, g': Grid, row: nat, placed: seq<Cell>, col: nat, k: nat, c: Cell)
    requires SameShape(g, g0) && row < |g| && Els(g[row]) == placed
    requires forall j :: col <= j < |g[row]| ==> g[row][j].el.None?
    requires forall r :: 0 <= r < |g| && r != row ==> SameEls(g[r], g0[r])
    requires col <= k < |g[row]| && c.colSpan >= 1
    requires SameShape(g', g) && g'[row][k].el == Some(c)
    requires forall r, j :: 0 <= r < |g| && 0 <= j < |g[r]| && (r != row || j != k) ==> g'[r][j].el == g[r][j].el
    ensures SameShape(g', g0) && Els(g'[row]) == placed + [c]
    ensures forall j :: k + c.colSpan <= j < |g'[row]| ==> g'[row][j].el.None?
    ensures forall r :: 0 <= r < |g'| && r != row ==> SameEls(g'[r], g0[r])
  {
    assert Els(g'[row]) == placed + [c] by {
      var line := g[row][k := g[row][k].(el := Some(c))];
      ElsRecord(g[row], k, c);
      assert SameEls(g'[row], line);
      ElsOfSameEls(g'[row], line);
    }
    forall r | 0 <= r < |g'| && r != row ensures SameEls(g'[r], g0[r]) {
      assert SameEls(g[r], g0[r]);
    }
  }

  lemma {:induction false} PlaceRowProgress(g0: Grid, row: nat, cells: seq<Cell>, n: nat)
    requires IsRect(g0) && SpannedRow(cells) && n <= |cells| && row < |g0|
    requires WellFormed(g0) && BlankIffUncovered(g0) && NoEls(g0[row])
    ensures SpannedRow(cells[..n])
    ensures PlaceRow(g0, row, cells[..n]).Ok? ==>
      RowProgress(g0, PlaceRow(g0, row, cells[..n]).value.0, row, cells[..n], PlaceRow(g0, row, cells[..n]).value.1)
  {
    if n == 0 {
      assert cells[..0] == [];
      ElsOfNoEls(g0[row]);
      forall r | 0 <= r < |g0| && r != row ensures SameEls(g0[r], g0[r]) { }
    } else {
      PlaceRowProgress(g0, row, cells, n - 1);
      assert cells[..n][..n - 1] == cells[..n - 1];
      assert cells[..n] == cells[..n - 1] + [cells[n - 1]];
      match PlaceRow(g0, row, cells[..n - 1])
      case Err(_) =>
      case Ok((g, col)) =>
        PlaceProgress(g0, g, row, cells[..n - 1], col, cells[n - 1]);
    }
  }

  lemma {:induction false} PopulateProgress(g0: Grid, rows: Rows, n: nat)
    requires IsRect(g0) && Spanned(rows) && n <= |rows| && |g0| == |rows|
    requires forall r, k :: 0 <= r < |g0| && 0 <= k < |g0[r]| ==> g0[r][k] == Blank
    ensures Spanned(rows[..n])
    ensures Populate(g0, rows[..n]).Ok? ==>
      var g := Populate(g0, rows[..n]).value;
      && WellFormed(g) && BlankIffUncovered(g)
      && (forall r :: 0 <= r < n ==> Els(g[r]) == rows[r])
      && (forall r :: n <= r < |g| ==> NoEls(g[r]))
  {
    if n == 0 {
      assert rows[..0] == [];
      forall r, k | 0 <= r < |g0| && 0 <= k < |g0[r]| ensures g0[r][k] == Blank <==> !Covered(g0, r, k) {
        assert g0[r][k] == Blank;
      }
    } else {
      PopulateProgress(g0, rows, n - 1);
      assert rows[..n][..n - 1] == rows[..n - 1];
      match Populate(g0, rows[..n - 1])
      case Err(_) =>
      case Ok(g) =>
        PopulateStep(g0, rows, n - 1, g);
        SameShapeRect(g, g0);
        PlaceRowProgress(g, n - 1, rows[n - 1], |rows[n - 1]|);
        assert rows[n - 1][..|rows[n - 1]|] == rows[n - 1];
        match PlaceRow(g, n - 1, rows[n - 1])
        case Err(_) =>
        case Ok((g', _)) =>
          forall r | 0 <= r < |g'| && r != n - 1 ensures Els(g'[r]) == Els(g[r]) {
            ElsOfSameEls(g'[r], g[r]);
          }
          forall r | n <= r < |g'| ensures NoEls(g'[r]) {
            assert SameEls(g'[r], g[r]);
          }
    }
  }

  // ---------------------------------------------------------------------------
  // The results

  /**
   * After a successful build every entry is blank or spans at least 1 both
   * ways, and the blank entries are exactly the positions no cell covers.
   */
  lemma BuiltGridCoverage(rows: Rows)
    requires Spanned(rows) && BuildGrid(rows).Ok?
    ensures WellFormed(BuildGrid(rows).value) && BlankIffUncovered(BuildGrid(rows).value)
  {
    PopulateProgress(Init(|rows|, MaxWidth(rows)), rows, |rows|);
    assert rows[..|rows|] == rows;
  }

  /** After a successful build, the origins of grid row `i`, left to right, are the cells of table row `i`. */
  lemma BuiltGridOrigins(rows: Rows)
    requires Spanned(rows) && BuildGrid(rows).Ok?
    ensures forall r :: 0 <= r < |rows| ==> Els(BuildGrid(rows).value[r]) == rows[r]
  {
    PopulateProgress(Init(|rows|, MaxWidth(rows)), rows, |rows|);
    assert rows[..|rows|] == rows;
  }

  lemma {:induction false} ElsAppend(a: seq<Entry>, b: seq<Entry>)
    ensures Els(a + b) == Els(a) + Els(b)
  {
    if b == [] {
      assert a + b == a;
    } else {
      var n := |b| - 1;
      assert (a + b)[..|a + b| - 1] == a + b[..n];
      ElsAppend(a, b[..n]);
    }
  }

  /** An origin at `k` is element number `|Els(line[..k])|` of the row's origins. */
  lemma ElIndex(line: seq<Entry>, k: nat)
    requires k < |line| && line[k].el.Some?
    ensures |Els(line[..k])| < |Els(line)| && Els(line)[|Els(line[..k])|] == line[k].el.value
  {
    assert line == line[..k] + [line[k]] + line[k + 1..];
    ElsAppend(line[..k] + [line[k]], line[k + 1..]);
    ElsAppend(line[..k], [line[k]]);
    assert [line[k]][..0] == [];
  }

  /** Origins further right have larger indexes. */
  lemma ElIndexMonotone(line: seq<Entry>, k1: nat, k2: nat)
    requires k1 < k2 <= |line| && line[k1].el.Some?
    ensures |Els(line[..k1])| < |Els(line[..k2])|
  {
    ElIndex(line[..k2], k1);
    assert line[..k2][..k1] == line[..k1];
  }

  /**
   * The grid refers only to cells of the table, each from at most one
   * position: what `TableUtils.findCell` needs to find a cell's origin.
   */
  predicate Indexes(rows: Rows, g: Grid)
  {
    && (forall r, k :: 0 <= r < |g| && 0 <= k < |g[r]| && g[r][k].el.Some? ==> Has(rows, g[r][k].el.value.id))
    && (forall r1, k1, r2, k2 |
          0 <= r1 < |g| && 0 <= k1 < |g[r1]| && 0 <= r2 < |g| && 0 <= k2 < |g[r2]| &&
          g[r1][k1].el.Some? && g[r2][k2].el.Some? ::
          g[r1][k1].el.value.id == g[r2][k2].el.value.id ==> r1 == r2 && k1 == k2)
  }

  /** With every span at least 1 and distinct elements, no two cells share an origin and every origin is a table cell. */
  lemma BuiltGridIndexes(rows: Rows)
    requires Spanned(rows) && UniqueIds(rows) && BuildGrid(rows).Ok?
    ensures Indexes(rows, BuildGrid(rows).value)
  {
    var g: Grid := BuildGrid(rows).value;
    BuiltGridOrigins(rows);
    forall r, k | 0 <= r < |g| && 0 <= k < |g[r]| && g[r][k].el.Some?
      ensures Has(rows, g[r][k].el.value.id)
    {
      ElIndex(g[r], k);
    }
    forall r1, k1, r2, k2 |
      0 <= r1 < |g| && 0 <= k1 < |g[r1]| && 0 <= r2 < |g| && 0 <= k2 < |g[r2]| &&
      g[r1][k1].el.Some? && g[r2][k2].el.Some? && g[r1][k1].el.value.id == g[r2][k2].el.value.id
      ensures r1 == r2 && k1 == k2
    {
      ElIndex(g[r1], k1);
      ElIndex(g[r2], k2);
      var i1, i2 := |Els(g[r1][..k1])|, |Els(g[r2][..k2])|;
      assert rows[r1][i1].id == rows[r2][i2].id;
      if k1 < k2 {
        ElIndexMonotone(g[r1], k1, k2);
      } else if k2 < k1 {
        ElIndexMonotone(g[r2], k2, k1);
      }
    }
  }

  // ---------------------------------------------------------------------------
  // fillSpans and the skip, one call at a time

  /**
   * `fillSpans` succeeds exactly when the rectangle lies inside the grid. It
   * then writes the remaining spans `rowSpan - i`, `colSpan - j` at
   * `(row + i, col + j)`, records the element at the origin only, keeps every
   * other element, and changes nothing outside the rectangle. What was there
   * before is not examined: a covered position is overwritten.
   */
  lemma FillSpansEncoding(g: Grid, row: nat, col: nat, c: Cell)
    requires IsRect(g) && c.rowSpan >= 1 && c.colSpan >= 1
    ensures Stamp(g, row, col, c).error.None? <==> row + c.rowSpan <= |g| && col + c.colSpan <= Width(g)
    ensures Stamp(g, row, col, c).error.None? ==>
      var g' := Stamp(g, row, col, c).grid;
      && (forall r: nat, k: nat :: InRect(r, k, row, col, c.rowSpan, c.colSpan) ==>
            g'[r][k].rowSpan == c.rowSpan - (r - row) && g'[r][k].colSpan == c.colSpan - (k - col) &&
            g'[r][k].el == if r == row && k == col then Some(c) else g[r][k].el)
      && (forall r, k :: 0 <= r < |g| && 0 <= k < |g[r]| && !InRect(r, k, row, col, c.rowSpan, c.colSpan) ==>
            g'[r][k] == g[r][k])
  {
  }

  /** Where `fillSpans` throws: at the origin when it is outside, then right of the last column, then below the last row. */
  lemma FillSpansThrows(g: Grid, row: nat, col: nat, c: Cell)
    requires IsRect(g) && c.rowSpan >= 1 && c.colSpan >= 1
    ensures var e := Stamp(g, row, col, c).error;
      && (!InGrid(g, row, col) ==> e == Some(InvalidGrid(row, col)))
      && (InGrid(g, row, col) && col + c.colSpan > Width(g) ==> e == Some(InvalidGrid(row, Width(g))))
      && (InGrid(g, row, col) && col + c.colSpan <= Width(g) && row + c.rowSpan > |g| ==> e == Some(InvalidGrid(|g|, col)))
  {
  }

  /** The four `fillSpans` cases of table_merge.test.js on a blank 4 x 3 grid: the 2 x 2 cell. */
  lemma FillSpansTwoByTwo(c: Cell)
    requires c.rowSpan == 2 && c.colSpan == 2
    ensures var g := Stamp(Init(4, 3), 0, 0, c);
      && g.error.None?
      && g.grid[0][0] == Entry(Some(c), 2, 2) && g.grid[0][1] == Entry(None, 2, 1) && g.grid[0][2] == Blank
      && g.grid[1][0] == Entry(None, 1, 2) && g.grid[1][1] == Entry(None, 1, 1) && g.grid[1][2] == Blank
      && g.grid[2][0] == Blank && g.grid[2][1] == Blank && g.grid[2][2] == Blank
  {
    FillSpansEncoding(Init(4, 3), 0, 0, c);
  }

  /**
   * `dimensions` ignores cells reaching down from above, so a row they push
   * right is wider than the grid: with a 2-row cell over a second row of one
   * cell the grid is 2 x 1, the second row's cell skips to column 1, and
   * `assertGrid` throws there.
   */
  lemma PushedRowThrows(a: Cell, b: Cell)
    requires a.rowSpan == 2 && a.colSpan == 1 && b.rowSpan == 1 && b.colSpan == 1
    ensures BuildGrid([[a], [b]]) == Err(InvalidGrid(1, 1))
  {
    var rows := [[a], [b]];
    assert MaxWidth(rows) == 1 by {
      assert RowWidth([a]) == 1 && RowWidth([b]) == 1;
      assert rows[..1] == [[a]];
      assert rows[..1][..0] == [];
    }
    var g0: Grid := Init(2, 1);
    var g1 := PushedRowFirst(g0, a);
    PushedRowSecond(g1, b);
    assert rows[..1] == [[a]] && rows[..1][..0] == [];
    assert Populate(g0, rows[..1]) == Ok(g1);
    assert rows[..2] == rows;
  }

  /** The 2-row cell, alone in the first row, fills column 0 of both rows. */
  lemma PushedRowFirst(g0: Grid, a: Cell) returns (g1: Grid)
    requires g0 == Init(2, 1) && a.rowSpan == 2 && a.colSpan == 1
    ensures IsRect(g1) && |g1| == 2 && |g1[1]| == 1 && g1[1][0].rowSpan == 1
    ensures PlaceRow(g0, 0, [a]) == Ok((g1, 1))
  {
    g1 := Stamp(g0, 0, 0, a).grid;
    FillSpansEncoding(g0, 0, 0, a);
    assert [a][..0] == [];
    assert Skip(g0, 0, 0) == Ok(0);
    assert InRect(1, 0, 0, 0, a.rowSpan, a.colSpan);
  }

  /** The second row's cell skips the filled column 0 and lands right of the grid. */
  lemma PushedRowSecond(g1: Grid, b: Cell)
    requires IsRect(g1) && |g1| == 2 && |g1[1]| == 1 && g1[1][0].rowSpan == 1
    requires b.rowSpan == 1 && b.colSpan == 1
    ensures PlaceRow(g1, 1, [b]) == Err(InvalidGrid(1, 1))
  {
    assert [b][..0] == [];
    assert Width(g1) == 1;
    assert Skip(g1, 1, 0) == Err(InvalidGrid(1, 1));
  }
}

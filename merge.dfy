/**
 * The cell merge operations of src/javascripts/utils/TableMergeUtils.js.
 *
 * Each operation takes the grid `buildTableMap` made of the table and one cell
 * element, finds the cell in the grid, reads its neighbour's position from the
 * grid's remaining spans, and then edits the table's rows in place: it widens
 * or lengthens the cell, removes the neighbour, or (`unMerge`) inserts
 * contentless clones. The grid is only read; it goes stale once the rows
 * change, so each operation asks for a grid that indexes the current table.
 *
 * Elements are values `Cell` with an identity `id`; the table hands out the
 * next unused id to every element it creates (a copy made by assigning
 * `outerHTML`, a clone made by `cloneNode`).
 */
module TableMerge {
  import opened Basics
  import opened Cells
  import opened TableGrid
  import opened GridFacts

  /**
   * How an operation fails: the cell is not in the grid, a property is read
   * from `undefined` or `null` (a `TypeError`), or `insertBefore` is given a
   * reference node that is not a child of the row (a `NotFoundError`).
   */
  datatype MergeError = NotInGrid | TypeError | NotFoundError

  /** The rows after an operation, the next unused element id, and the error it threw, if any. */
  datatype Outcome = Outcome(rows: Rows, next: nat, error: Option<MergeError>)

  /** The table element the operations edit. */
  class Table {
    var rows: Rows
    var nextId: nat

    predicate Valid()
      reads this
    {
      Sound(rows, nextId)
    }
  }

  // ---------------------------------------------------------------------------
  // Finding cells in the grid

  /** The grid entry records the element `id`. */
  predicate Holds(e: Entry, id: nat)
  {
    e.el.Some? && e.el.value.id == id
  }

  function FindInLine(line: seq<Entry>, id: nat): (k: Option<nat>)
    ensures k.Some? ==> k.value < |line| && Holds(line[k.value], id)
    ensures k.None? ==> forall j :: 0 <= j < |line| ==> !Holds(line[j], id)
  {
    if line == [] then None
    else if Holds(line[0], id) then Some(0)
    else match FindInLine(line[1..], id)
      case None => None
      case Some(j) => Some(j + 1)
  }

  /**
   * `TableUtils.findCell(grid, sourceEl)`: a position `[row, col]` whose entry
   * records the element. Its definition is not part of this model; it is
   * specified by that postcondition, and the search here is row by row.
   */
  function FindCell(g: Grid, id: nat): (p: Option<(nat, nat)>)
    ensures p.Some? ==> p.value.0 < |g| && p.value.1 < |g[p.value.0]| && Holds(g[p.value.0][p.value.1], id)
    ensures p.None? ==> forall r, k :: 0 <= r < |g| && 0 <= k < |g[r]| ==> !Holds(g[r][k], id)
  {
    if g == [] then None
    else match FindInLine(g[0], id)
      case Some(k) => Some((0, k))
      case None =>
        match FindCell(g[1..], id)
        case None => None
        case Some(p) =>
          assert g[1..][p.0] == g[p.0 + 1];
          Some((p.0 + 1, p.1))
  }

  /** With an indexing grid, the position found is the only one recording the element, and the element is in the table. */
  lemma FindCellUnique(rows: Rows, g: Grid, id: nat, r: nat, k: nat)
    requires Indexes(rows, g) && r < |g| && k < |g[r]| && Holds(g[r][k], id)
    ensures FindCell(g, id) == Some((r, k)) && Has(rows, id)
  {
  }

  // ---------------------------------------------------------------------------
  // The neighbour each merge takes in

  /** `mergeRight`: the element at `(row, col + grid[row][col].colSpan)`, if that entry exists and records one. */
  function RightNeighbour(g: Grid, row: nat, col: nat): Option<nat>
    requires row < |g| && col < |g[row]|
  {
    var destCol := col + g[row][col].colSpan;
    if destCol < |g[row]| && g[row][destCol].el.Some? then Some(g[row][destCol].el.value.id) else None
  }

  /** `mergeDown`: the element at `(row + grid[row][col].rowSpan, col)`. */
  function BelowNeighbour(g: Grid, row: nat, col: nat): Option<nat>
    requires row < |g| && col < |g[row]|
  {
    var destRow := row + g[row][col].rowSpan;
    if destRow < |g| && col < |g[destRow]| && g[destRow][col].el.Some? then Some(g[destRow][col].el.value.id) else None
  }

  /** `mergeLeft`: the element at `(row, col - grid[row][col - 1].colSpan)`; column 0 has none. */
  function LeftNeighbour(g: Grid, row: nat, col: nat): Option<nat>
    requires row < |g| && col < |g[row]|
  {
    if col == 0 then None
    else
      var destCol := col - g[row][col - 1].colSpan;
      if destCol >= 0 && g[row][destCol].el.Some? then Some(g[row][destCol].el.value.id) else None
  }

  /** `mergeUp`: the element at `(row - grid[row - 1][col].rowSpan, col)`; row 0 has none. */
  function AboveNeighbour(g: Grid, row: nat, col: nat): Option<nat>
    requires row < |g| && col < |g[row]|
  {
    if row == 0 || col >= |g[row - 1]| then None
    else
      var destRow := row - g[row - 1][col].rowSpan;
      if destRow >= 0 && col < |g[destRow]| && g[destRow][col].el.Some? then Some(g[destRow][col].el.value.id) else None
  }

  /** The source cell with the neighbour's span added, across (`colSpan`) or down (`rowSpan`). */
  function Widened(s: Cell, d: Cell, across: bool): (w: Cell)
    ensures w.id == s.id && w.tag == s.tag && w.content == s.content
    ensures across ==> w.colSpan == s.colSpan + d.colSpan && w.rowSpan == s.rowSpan
    ensures !across ==> w.rowSpan == s.rowSpan + d.rowSpan && w.colSpan == s.colSpan
  {
    if across then s.(colSpan := s.colSpan + d.colSpan) else s.(rowSpan := s.rowSpan + d.rowSpan)
  }

  // ---------------------------------------------------------------------------
  // mergeRight and mergeDown: the neighbour is absorbed and leaves its row

  /** `sourceEl.colSpan += destEl.colSpan` (or `rowSpan`), then `destEl.parentElement.removeChild(destEl)`. */
  function Absorb(rows: Rows, next: nat, src: nat, d: nat, across: bool): Outcome
    requires Sound(rows, next) && Has(rows, src) && Has(rows, d)
  {
    var p := Locate(rows, src).value;
    var w := Widened(rows[p.0][p.1], CellOf(rows, d), across);
    var rows1 := SetAt(rows, p.0, p.1, w);
    HasSetAt(rows, p.0, p.1, w, d);
    var q := Locate(rows1, d).value;
    Outcome(RemoveAt(rows1, q.0, q.1), next, None)
  }

  /**
   * Absorbing takes exactly one element out of the table: the neighbour. The
   * source keeps its identity and gains the neighbour's span; every other
   * element is unchanged, and so is the number of rows.
   */
  lemma AbsorbEffect(rows: Rows, next: nat, src: nat, d: nat, across: bool)
    requires Sound(rows, next) && Has(rows, src) && Has(rows, d)
    ensures var o := Absorb(rows, next, src, d, across);
      && o.error.None? && o.next == next && Sound(o.rows, next)
      && |o.rows| == |rows| && Count(o.rows) == Count(rows) - 1
      && Elements(o.rows) == Elements(rows)[src := Widened(Elements(rows)[src], Elements(rows)[d], across)] - {d}
  {
    var p := Locate(rows, src).value;
    ElementAt(rows, p.0, p.1);
    var w := Widened(rows[p.0][p.1], CellOf(rows, d), across);
    var rows1 := SetAt(rows, p.0, p.1, w);
    SetAtSound(rows, next, p.0, p.1, w, next);
    SetAtCount(rows, p.0, p.1, w);
    ElementsSetAt(rows, p.0, p.1, w);
    HasSetAt(rows, p.0, p.1, w, d);
    var q := Locate(rows1, d).value;
    RemoveAtSound(rows1, next, q.0, q.1);
    RemoveAtCount(rows1, q.0, q.1);
    ElementsRemoveAt(rows1, q.0, q.1);
  }

  /**
   * Where things sit afterwards, in terms of the places `p` of the source and
   * `q` of the neighbour before: the widened source is written at `p`, the
   * cell at `q` leaves its row, every other row is untouched, and the source
   * ends up at `p`, one place further left when the neighbour preceded it in
   * the same row.
   */
  lemma AbsorbMoves(rows: Rows, next: nat, src: nat, d: nat, across: bool, p: (nat, nat), q: (nat, nat))
    requires Sound(rows, next) && Locate(rows, src) == Some(p) && Locate(rows, d) == Some(q)
    ensures var o := Absorb(rows, next, src, d, across);
      var w := Widened(rows[p.0][p.1], rows[q.0][q.1], across);
      && q.1 < |SetAt(rows, p.0, p.1, w)[q.0]|
      && o.rows == RemoveAt(SetAt(rows, p.0, p.1, w), q.0, q.1)
      && SameRowsExcept(o.rows, rows, p.0, q.0)
      && (src != d ==> Locate(o.rows, src) == Some(AfterRemoval(p, q)))
  {
    var w := Widened(rows[p.0][p.1], CellOf(rows, d), across);
    var rows1 := SetAt(rows, p.0, p.1, w);
    SetAtSound(rows, next, p.0, p.1, w, next);
    LocateSetAt(rows, p.0, p.1, w, d);
    RemoveAtSound(rows1, next, q.0, q.1);
    if src != d {
      LocateSetAt(rows, p.0, p.1, w, src);
      LocateRemoveAt(rows1, q.0, q.1, src);
    }
  }

  /** The in-place edit `Absorb` describes. */
  method AbsorbNeighbour(t: Table, src: nat, d: nat, across: bool)
    requires t.Valid() && Has(t.rows, src) && Has(t.rows, d)
    modifies t
    ensures t.Valid()
    ensures Outcome(t.rows, t.nextId, None) == Absorb(old(t.rows), old(t.nextId), src, d, across)
  {
    AbsorbEffect(t.rows, t.nextId, src, d, across);
    var p := Locate(t.rows, src).value;
    var w := Widened(t.rows[p.0][p.1], CellOf(t.rows, d), across);
    HasSetAt(t.rows, p.0, p.1, w, d);
    t.rows := SetAt(t.rows, p.0, p.1, w);
    var q := Locate(t.rows, d).value;
    t.rows := RemoveAt(t.rows, q.0, q.1);
  }

  /** `mergeRight(grid, sourceEl)`, as a function of the table before it. */
  function MergeRightSpec(rows: Rows, next: nat, g: Grid, src: nat): Outcome
    requires Sound(rows, next) && Indexes(rows, g)
  {
    match FindCell(g, src)
    case None => Outcome(rows, next, Some(NotInGrid))
    case Some(p) =>
      match RightNeighbour(g, p.0, p.1)
      case None => Outcome(rows, next, Some(TypeError))
      case Some(d) => Absorb(rows, next, src, d, true)
  }

  /** `mergeDown(grid, sourceEl)`, as a function of the table before it. */
  function MergeDownSpec(rows: Rows, next: nat, g: Grid, src: nat): Outcome
    requires Sound(rows, next) && Indexes(rows, g)
  {
    match FindCell(g, src)
    case None => Outcome(rows, next, Some(NotInGrid))
    case Some(p) =>
      match BelowNeighbour(g, p.0, p.1)
      case None => Outcome(rows, next, Some(TypeError))
      case Some(d) => Absorb(rows, next, src, d, false)
  }

  method MergeRight(t: Table, grid: array2<Entry>, src: nat) returns (err: Option<MergeError>)
    requires t.Valid() && Indexes(t.rows, Snap(grid))
    modifies t
    ensures t.Valid()
    ensures Outcome(t.rows, t.nextId, err) == MergeRightSpec(old(t.rows), old(t.nextId), Snap(grid), src)
  {
    var p := FindCell(Snap(grid), src);
    if p.None? {
      return Some(NotInGrid);
    }
    var row, col := p.value.0, p.value.1;
    var destCol := col + grid[row, col].colSpan;
    if destCol >= grid.Length1 {
      // grid[row][destCol] is undefined
      return Some(TypeError);
    }
    var destEl := grid[row, destCol].el;
    if destEl.None? {
      // destEl.colSpan on null
      return Some(TypeError);
    }
    AbsorbNeighbour(t, src, destEl.value.id, true);
    return None;
  }

  method MergeDown(t: Table, grid: array2<Entry>, src: nat) returns (err: Option<MergeError>)
    requires t.Valid() && Indexes(t.rows, Snap(grid))
    modifies t
    ensures t.Valid()
    ensures Outcome(t.rows, t.nextId, err) == MergeDownSpec(old(t.rows), old(t.nextId), Snap(grid), src)
  {
    var p := FindCell(Snap(grid), src);
    if p.None? {
      return Some(NotInGrid);
    }
    var row, col := p.value.0, p.value.1;
    var destRow := row + grid[row, col].rowSpan;
    if destRow >= grid.Length0 {
      // grid[destRow] is undefined
      return Some(TypeError);
    }
    var destEl := grid[destRow, col].el;
    if destEl.None? {
      return Some(TypeError);
    }
    AbsorbNeighbour(t, src, destEl.value.id, false);
    return None;
  }

  /**
   * `mergeRight` fails exactly when the cell is not in the grid, or the entry
   * `colSpan` columns to its right is missing or records no element; a failed
   * call changes nothing.
   */
  lemma MergeRightFails(rows: Rows, next: nat, g: Grid, src: nat)
    requires Sound(rows, next) && Indexes(rows, g)
    ensures var o := MergeRightSpec(rows, next, g, src);
      && (o.error.Some? <==> FindCell(g, src).None? || RightNeighbour(g, FindCell(g, src).value.0, FindCell(g, src).value.1).None?)
      && (o.error.Some? ==> o.rows == rows && o.next == next)
  {
    match FindCell(g, src)
    case None =>
    case Some(p) =>
      match RightNeighbour(g, p.0, p.1)
      case None =>
      case Some(d) =>
        AbsorbEffect(rows, next, src, d, true);
  }

  /**
   * Otherwise it takes the neighbour out of the table and adds its `colSpan`
   * to the source; every other element, and the number of rows, is unchanged.
   */
  lemma MergeRightMerges(rows: Rows, next: nat, g: Grid, src: nat, row: nat, col: nat, d: nat)
    requires Sound(rows, next) && Indexes(rows, g)
    requires FindCell(g, src) == Some((row, col)) && RightNeighbour(g, row, col) == Some(d)
    ensures Has(rows, src) && Has(rows, d)
    ensures var o := MergeRightSpec(rows, next, g, src);
      var e := Elements(rows);
      && o.error.None? && o.next == next && Sound(o.rows, next)
      && |o.rows| == |rows| && Count(o.rows) == Count(rows) - 1
      && Elements(o.rows) == e[src := e[src].(colSpan := e[src].colSpan + e[d].colSpan)] - {d}
  {
    AbsorbEffect(rows, next, src, d, true);
    var e := Elements(rows);
    var w := Widened(e[src], e[d], true);
    assert w == e[src].(colSpan := e[src].colSpan + e[d].colSpan);
  }

  /**
   * Where things sit afterwards: the source, widened, stays where it was
   * (one place further left when the neighbour to the right preceded it in the same
   * row), the neighbour's place is gone, and every other row is untouched.
   */
  lemma MergeRightMoves(rows: Rows, next: nat, g: Grid, src: nat, row: nat, col: nat, d: nat)
    requires Sound(rows, next) && Indexes(rows, g)
    requires FindCell(g, src) == Some((row, col)) && RightNeighbour(g, row, col) == Some(d)
    ensures Has(rows, src) && Has(rows, d)
    ensures var o := MergeRightSpec(rows, next, g, src);
      var p, q := Locate(rows, src).value, Locate(rows, d).value;
      var w := Widened(rows[p.0][p.1], rows[q.0][q.1], true);
      && q.1 < |SetAt(rows, p.0, p.1, w)[q.0]|
      && o.rows == RemoveAt(SetAt(rows, p.0, p.1, w), q.0, q.1)
      && SameRowsExcept(o.rows, rows, p.0, q.0)
      && (src != d ==> Locate(o.rows, src) == Some(AfterRemoval(p, q)))
  {
    assert MergeRightSpec(rows, next, g, src) == Absorb(rows, next, src, d, true);
    var p, q := Locate(rows, src).value, Locate(rows, d).value;
    AbsorbMoves(rows, next, src, d, true, p, q);
  }

  /** `mergeDown` fails exactly when the entry `rowSpan` rows below is missing or records no element. */
  lemma MergeDownFails(rows: Rows, next: nat, g: Grid, src: nat)
    requires Sound(rows, next) && Indexes(rows, g)
    ensures var o := MergeDownSpec(rows, next, g, src);
      && (o.error.Some? <==> FindCell(g, src).None? || BelowNeighbour(g, FindCell(g, src).value.0, FindCell(g, src).value.1).None?)
      && (o.error.Some? ==> o.rows == rows && o.next == next)
  {
    match FindCell(g, src)
    case None =>
    case Some(p) =>
      match BelowNeighbour(g, p.0, p.1)
      case None =>
      case Some(d) =>
        AbsorbEffect(rows, next, src, d, false);
  }

  /** Otherwise it takes the neighbour below out of the table and adds its `rowSpan` to the source. */
  lemma MergeDownMerges(rows: Rows, next: nat, g: Grid, src: nat, row: nat, col: nat, d: nat)
    requires Sound(rows, next) && Indexes(rows, g)
    requires FindCell(g, src) == Some((row, col)) && BelowNeighbour(g, row, col) == Some(d)
    ensures Has(rows, src) && Has(rows, d)
    ensures var o := MergeDownSpec(rows, next, g, src);
      var e := Elements(rows);
      && o.error.None? && o.next == next && Sound(o.rows, next)
      && |o.rows| == |rows| && Count(o.rows) == Count(rows) - 1
      && Elements(o.rows) == e[src := e[src].(rowSpan := e[src].rowSpan + e[d].rowSpan)] - {d}
  {
    AbsorbEffect(rows, next, src, d, false);
    var e := Elements(rows);
    var w := Widened(e[src], e[d], false);
    assert w == e[src].(rowSpan := e[src].rowSpan + e[d].rowSpan);
  }

  /**
   * Where things sit afterwards: the source, widened, stays where it was
   * (one place further left when the neighbour below preceded it in the same
   * row), the neighbour's place is gone, and every other row is untouched.
   */
  lemma MergeDownMoves(rows: Rows, next: nat, g: Grid, src: nat, row: nat, col: nat, d: nat)
    requires Sound(rows, next) && Indexes(rows, g)
    requires FindCell(g, src) == Some((row, col)) && BelowNeighbour(g, row, col) == Some(d)
    ensures Has(rows, src) && Has(rows, d)
    ensures var o := MergeDownSpec(rows, next, g, src);
      var p, q := Locate(rows, src).value, Locate(rows, d).value;
      var w := Widened(rows[p.0][p.1], rows[q.0][q.1], false);
      && q.1 < |SetAt(rows, p.0, p.1, w)[q.0]|
      && o.rows == RemoveAt(SetAt(rows, p.0, p.1, w), q.0, q.1)
      && SameRowsExcept(o.rows, rows, p.0, q.0)
      && (src != d ==> Locate(o.rows, src) == Some(AfterRemoval(p, q)))
  {
    assert MergeDownSpec(rows, next, g, src) == Absorb(rows, next, src, d, false);
    var p, q := Locate(rows, src).value, Locate(rows, d).value;
    AbsorbMoves(rows, next, src, d, false, p, q);
  }

  // ---------------------------------------------------------------------------
  // mergeLeft and mergeUp: a copy of the source takes the neighbour's place

  /**
   * `sourceEl.colSpan += destEl.colSpan` (or `rowSpan`), then `destEl.outerHTML =
   * sourceEl.outerHTML`, which puts a new element, a copy of the widened
   * source under the id `next`, in the neighbour's place.
   */
  function Copied(rows: Rows, next: nat, src: nat, d: nat, across: bool): Rows
    requires Sound(rows, next) && Has(rows, src) && Has(rows, d)
  {
    var p := Locate(rows, src).value;
    var w := Widened(rows[p.0][p.1], CellOf(rows, d), across);
    var rows1 := SetAt(rows, p.0, p.1, w);
    HasSetAt(rows, p.0, p.1, w, d);
    var q := Locate(rows1, d).value;
    SetAt(rows1, q.0, q.1, w.(id := next))
  }

  /** ... and then `sourceEl.parentElement.removeChild(sourceEl)`, which throws when the source is no longer in a row. */
  function Replace(rows: Rows, next: nat, src: nat, d: nat, across: bool): Outcome
    requires Sound(rows, next) && Has(rows, src) && Has(rows, d)
  {
    var rows2 := Copied(rows, next, src, d, across);
    match Locate(rows2, src)
    case None => Outcome(rows2, next + 1, Some(TypeError))
    case Some(r) => Outcome(RemoveAt(rows2, r.0, r.1), next + 1, None)
  }

  /** After the copy: the neighbour is gone, the copy is in, the source is widened. */
  lemma CopiedEffect(rows: Rows, next: nat, src: nat, d: nat, across: bool)
    requires Sound(rows, next) && Has(rows, src) && Has(rows, d)
    ensures var rows2 := Copied(rows, next, src, d, across);
      var e := Elements(rows);
      && Sound(rows2, next + 1) && |rows2| == |rows| && Count(rows2) == Count(rows)
      && Elements(rows2) == (e[src := Widened(e[src], e[d], across)] - {d})[next := Widened(e[src], e[d], across).(id := next)]
  {
    var e := Elements(rows);
    var p := Locate(rows, src).value;
    ElementAt(rows, p.0, p.1);
    var w := Widened(rows[p.0][p.1], CellOf(rows, d), across);
    var rows1 := SetAt(rows, p.0, p.1, w);
    SetAtSound(rows, next, p.0, p.1, w, next);
    SetAtCount(rows, p.0, p.1, w);
    ElementsSetAt(rows, p.0, p.1, w);
    HasSetAt(rows, p.0, p.1, w, d);
    var q := Locate(rows1, d).value;
    var copy := w.(id := next);
    SetAtSound(rows1, next, q.0, q.1, copy, next + 1);
    SetAtCount(rows1, q.0, q.1, copy);
    ElementsReplaceAt(rows1, q.0, q.1, copy);
  }

  /**
   * Where things sit after the copy: the widened source is still at its own
   * place `p`, the copy sits exactly where the neighbour sat (`q`), and every
   * other row is untouched.
   */
  lemma CopiedMoves(rows: Rows, next: nat, src: nat, d: nat, across: bool, p: (nat, nat), q: (nat, nat))
    requires Sound(rows, next) && Locate(rows, src) == Some(p) && Locate(rows, d) == Some(q)
    ensures var rows2 := Copied(rows, next, src, d, across);
      var w := Widened(rows[p.0][p.1], rows[q.0][q.1], across);
      && q.1 < |SetAt(rows, p.0, p.1, w)[q.0]|
      && rows2 == SetAt(SetAt(rows, p.0, p.1, w), q.0, q.1, w.(id := next))
      && SameRowsExcept(rows2, rows, p.0, q.0)
      && Locate(rows2, next) == Some(q)
      && (src != d ==> Locate(rows2, src) == Some(p))
  {
    var w := Widened(rows[p.0][p.1], CellOf(rows, d), across);
    var rows1 := SetAt(rows, p.0, p.1, w);
    SetAtSound(rows, next, p.0, p.1, w, next);
    LocateSetAt(rows, p.0, p.1, w, d);
    var rows2 := SetAt(rows1, q.0, q.1, w.(id := next));
    SetAtSound(rows1, next, q.0, q.1, w.(id := next), next + 1);
    LocateUnique(rows2, q.0, q.1);
    if src != d {
      assert rows2[p.0][p.1] == w;
      LocateUnique(rows2, p.0, p.1);
    }
  }

  lemma DropBoth(e: map<nat, Cell>, src: nat, d: nat, w: Cell, next: nat, copy: Cell)
    requires src != d && src != next
    ensures (e[src := w] - {d})[next := copy] - {src} == (e - {src, d})[next := copy]
  {
  }

  lemma DropSame(e: map<nat, Cell>, src: nat, w: Cell, next: nat, copy: Cell)
    ensures (e[src := w] - {src})[next := copy] == (e - {src})[next := copy]
  {
  }

  /**
   * When the neighbour is another element, both it and the source leave the
   * table and one new element enters: the widened source under a new id. When
   * the "neighbour" is the source itself, the copy replaces it and the removal
   * throws.
   */
  lemma ReplaceEffect(rows: Rows, next: nat, src: nat, d: nat, across: bool)
    requires Sound(rows, next) && Has(rows, src) && Has(rows, d)
    ensures var o := Replace(rows, next, src, d, across);
      var e := Elements(rows);
      var copy := Widened(e[src], e[d], across).(id := next);
      && o.next == next + 1 && Sound(o.rows, next + 1) && |o.rows| == |rows|
      && (o.error.None? <==> src != d)
      && (src != d ==> Count(o.rows) == Count(rows) - 1 && Elements(o.rows) == (e - {src, d})[next := copy])
      && (src == d ==> o.error == Some(TypeError) && Count(o.rows) == Count(rows) && Elements(o.rows) == (e - {src})[next := copy])
  {
    var e := Elements(rows);
    var w := Widened(e[src], e[d], across);
    var copy := w.(id := next);
    var rows2 := Copied(rows, next, src, d, across);
    CopiedEffect(rows, next, src, d, across);
    if src != d {
      assert src in Elements(rows2);
      var r := Locate(rows2, src).value;
      RemoveAtSound(rows2, next + 1, r.0, r.1);
      RemoveAtCount(rows2, r.0, r.1);
      ElementsRemoveAt(rows2, r.0, r.1);
      DropBoth(e, src, d, w, next, copy);
    } else {
      assert src !in Elements(rows2);
      DropSame(e, src, w, next, copy);
    }
  }

  /**
   * Where things sit at the end. When the neighbour is another element, the
   * copy takes the neighbour's place `q` and the source leaves its place `p`,
   * so the copy ends up at `q`, one place further left when the source
   * preceded it in the same row. When the neighbour is the source itself, the
   * copy stands in its place. Either way every other row is untouched.
   */
  lemma ReplaceMoves(rows: Rows, next: nat, src: nat, d: nat, across: bool, p: (nat, nat), q: (nat, nat))
    requires Sound(rows, next) && Locate(rows, src) == Some(p) && Locate(rows, d) == Some(q)
    ensures var o := Replace(rows, next, src, d, across);
      var copy := Widened(rows[p.0][p.1], rows[q.0][q.1], across).(id := next);
      && SameRowsExcept(o.rows, rows, p.0, q.0)
      && (src != d ==> o.rows == RemoveAt(SetAt(rows, q.0, q.1, copy), p.0, p.1) && Locate(o.rows, next) == Some(AfterRemoval(q, p)))
      && (src == d ==> o.rows == SetAt(rows, p.0, p.1, copy) && Locate(o.rows, next) == Some(p))
  {
    if src != d {
      ReplaceOther(rows, next, src, d, across, p, q);
    } else {
      ReplaceSelf(rows, next, src, across, p);
    }
  }

  lemma ReplaceOther(rows: Rows, next: nat, src: nat, d: nat, across: bool, p: (nat, nat), q: (nat, nat))
    requires Sound(rows, next) && Locate(rows, src) == Some(p) && Locate(rows, d) == Some(q) && src != d
    ensures var o := Replace(rows, next, src, d, across);
      var copy := Widened(rows[p.0][p.1], rows[q.0][q.1], across).(id := next);
      && o.rows == RemoveAt(SetAt(rows, q.0, q.1, copy), p.0, p.1)
      && SameRowsExcept(o.rows, rows, p.0, q.0)
      && Locate(o.rows, next) == Some(AfterRemoval(q, p))
  {
    CopiedMoves(rows, next, src, d, across, p, q);
    var w := Widened(rows[p.0][p.1], rows[q.0][q.1], across);
    var copy := w.(id := next);
    var rows2 := Copied(rows, next, src, d, across);
    assert Sound(rows2, next + 1) by {
      SetAtSound(rows, next, p.0, p.1, w, next);
      SetAtSound(SetAt(rows, p.0, p.1, w), next, q.0, q.1, copy, next + 1);
    }
    SetAtSwap(rows, p.0, p.1, w, q.0, q.1, copy);
    RemoveSetAt(SetAt(rows, q.0, q.1, copy), p.0, p.1, w);
    RemoveAtSound(rows2, next + 1, p.0, p.1);
    LocateRemoveAt(rows2, p.0, p.1, next);
  }

  lemma ReplaceSelf(rows: Rows, next: nat, src: nat, across: bool, p: (nat, nat))
    requires Sound(rows, next) && Locate(rows, src) == Some(p)
    ensures var o := Replace(rows, next, src, src, across);
      var copy := Widened(rows[p.0][p.1], rows[p.0][p.1], across).(id := next);
      && o.rows == SetAt(rows, p.0, p.1, copy)
      && SameRowsExcept(o.rows, rows, p.0, p.0)
      && Locate(o.rows, next) == Some(p)
  {
    CopiedMoves(rows, next, src, src, across, p, p);
    var w := Widened(rows[p.0][p.1], rows[p.0][p.1], across);
    var copy := w.(id := next);
    var rows1 := SetAt(rows, p.0, p.1, w);
    SetAtSound(rows, next, p.0, p.1, w, next);
    HasSetAt(rows1, p.0, p.1, copy, src);
    assert rows1[p.0][p.1 := copy] == rows[p.0][p.1 := copy];
  }

  /** `Replace` keeps the table sound, with one more id used. */
  lemma ReplaceSound(rows: Rows, next: nat, src: nat, d: nat, across: bool)
    requires Sound(rows, next) && Has(rows, src) && Has(rows, d)
    ensures Sound(Replace(rows, next, src, d, across).rows, next + 1)
  {
    ReplaceEffect(rows, next, src, d, across);
  }

  /** The in-place edit `Replace` describes. */
  method ReplaceWithCopy(t: Table, src: nat, d: nat, across: bool) returns (err: Option<MergeError>)
    requires t.Valid() && Has(t.rows, src) && Has(t.rows, d)
    modifies t
    ensures t.Valid()
    ensures Outcome(t.rows, t.nextId, err) == Replace(old(t.rows), old(t.nextId), src, d, across)
  {
    ghost var o := Replace(t.rows, t.nextId, src, d, across);
    ReplaceSound(t.rows, t.nextId, src, d, across);
    ghost var copied := Copied(t.rows, t.nextId, src, d, across);
    var p := Locate(t.rows, src).value;
    var w := Widened(t.rows[p.0][p.1], CellOf(t.rows, d), across);
    HasSetAt(t.rows, p.0, p.1, w, d);
    t.rows := SetAt(t.rows, p.0, p.1, w);
    var q := Locate(t.rows, d).value;
    t.rows := SetAt(t.rows, q.0, q.1, w.(id := t.nextId));
    t.nextId := t.nextId + 1;
    assert t.rows == copied;
    var r := Locate(t.rows, src);
    if r.None? {
      // sourceEl.parentElement is null
      return Some(TypeError);
    }
    t.rows := RemoveAt(t.rows, r.value.0, r.value.1);
    return None;
  }

  /** `mergeLeft(grid, sourceEl)`, as a function of the table before it. */
  function MergeLeftSpec(rows: Rows, next: nat, g: Grid, src: nat): Outcome
    requires Sound(rows, next) && Indexes(rows, g)
  {
    match FindCell(g, src)
    case None => Outcome(rows, next, Some(NotInGrid))
    case Some(p) =>
      match LeftNeighbour(g, p.0, p.1)
      case None => Outcome(rows, next, Some(TypeError))
      case Some(d) => Replace(rows, next, src, d, true)
  }

  /** `mergeUp(grid, sourceEl)`, as a function of the table before it. */
  function MergeUpSpec(rows: Rows, next: nat, g: Grid, src: nat): Outcome
    requires Sound(rows, next) && Indexes(rows, g)
  {
    match FindCell(g, src)
    case None => Outcome(rows, next, Some(NotInGrid))
    case Some(p) =>
      match AboveNeighbour(g, p.0, p.1)
      case None => Outcome(rows, next, Some(TypeError))
      case Some(d) => Replace(rows, next, src, d, false)
  }

  method MergeLeft(t: Table, grid: array2<Entry>, src: nat) returns (err: Option<MergeError>)
    requires t.Valid() && Indexes(t.rows, Snap(grid))
    modifies t
    ensures t.Valid()
    ensures Outcome(t.rows, t.nextId, err) == MergeLeftSpec(old(t.rows), old(t.nextId), Snap(grid), src)
  {
    var p := FindCell(Snap(grid), src);
    if p.None? {
      return Some(NotInGrid);
    }
    var row, col := p.value.0, p.value.1;
    if col == 0 {
      // grid[row][-1] is undefined
      return Some(TypeError);
    }
    var destCol := col - grid[row, col - 1].colSpan;
    if destCol < 0 {
      // grid[row][destCol] is undefined
      return Some(TypeError);
    }
    var destEl := grid[row, destCol].el;
    if destEl.None? {
      // destEl.colSpan on null
      return Some(TypeError);
    }
    err := ReplaceWithCopy(t, src, destEl.value.id, true);
  }

  method MergeUp(t: Table, grid: array2<Entry>, src: nat) returns (err: Option<MergeError>)
    requires t.Valid() && Indexes(t.rows, Snap(grid))
    modifies t
    ensures t.Valid()
    ensures Outcome(t.rows, t.nextId, err) == MergeUpSpec(old(t.rows), old(t.nextId), Snap(grid), src)
  {
    var p := FindCell(Snap(grid), src);
    if p.None? {
      return Some(NotInGrid);
    }
    var row, col := p.value.0, p.value.1;
    if row == 0 {
      // grid[-1] is undefined
      return Some(TypeError);
    }
    var destRow := row - grid[row - 1, col].rowSpan;
    if destRow < 0 {
      // grid[destRow] is undefined
      return Some(TypeError);
    }
    var destEl := grid[destRow, col].el;
    if destEl.None? {
      return Some(TypeError);
    }
    err := ReplaceWithCopy(t, src, destEl.value.id, false);
  }

  /**
   * `mergeLeft` fails before changing anything when the cell is not in the
   * grid, sits in column 0, or the entry `grid[row][col - 1].colSpan` columns
   * to its left is missing or records no element.
   */
  lemma MergeLeftFails(rows: Rows, next: nat, g: Grid, src: nat)
    requires Sound(rows, next) && Indexes(rows, g)
    ensures var o := MergeLeftSpec(rows, next, g, src);
      FindCell(g, src).None? || LeftNeighbour(g, FindCell(g, src).value.0, FindCell(g, src).value.1).None? ==>
        o.error.Some? && o.rows == rows && o.next == next
  {
  }

  /**
   * Otherwise the neighbour and the source both leave the table and a copy of
   * the source, with the neighbour's `colSpan` added, takes the neighbour's
   * place under a new id; every other element is unchanged.
   */
  lemma MergeLeftMerges(rows: Rows, next: nat, g: Grid, src: nat, row: nat, col: nat, d: nat)
    requires Sound(rows, next) && Indexes(rows, g)
    requires FindCell(g, src) == Some((row, col)) && LeftNeighbour(g, row, col) == Some(d) && d != src
    ensures Has(rows, src) && Has(rows, d)
    ensures var o := MergeLeftSpec(rows, next, g, src);
      var e := Elements(rows);
      && o.error.None? && o.next == next + 1 && Sound(o.rows, o.next)
      && |o.rows| == |rows| && Count(o.rows) == Count(rows) - 1
      && Elements(o.rows) == (e - {src, d})[next := e[src].(id := next, colSpan := e[src].colSpan + e[d].colSpan)]
  {
    ReplaceEffect(rows, next, src, d, true);
    var e := Elements(rows);
    assert Widened(e[src], e[d], true).(id := next) == e[src].(id := next, colSpan := e[src].colSpan + e[d].colSpan);
  }

  /**
   * Where things sit afterwards: the copy is in the left neighbour's place,
   * one place further left when the source preceded it in the same row; the
   * source's place is gone; every other row is untouched.
   */
  lemma MergeLeftMoves(rows: Rows, next: nat, g: Grid, src: nat, row: nat, col: nat, d: nat)
    requires Sound(rows, next) && Indexes(rows, g)
    requires FindCell(g, src) == Some((row, col)) && LeftNeighbour(g, row, col) == Some(d) && d != src
    ensures Has(rows, src) && Has(rows, d)
    ensures var o := MergeLeftSpec(rows, next, g, src);
      var p, q := Locate(rows, src).value, Locate(rows, d).value;
      var copy := Widened(rows[p.0][p.1], rows[q.0][q.1], true).(id := next);
      && o.rows == RemoveAt(SetAt(rows, q.0, q.1, copy), p.0, p.1)
      && SameRowsExcept(o.rows, rows, p.0, q.0)
      && Locate(o.rows, next) == Some(AfterRemoval(q, p))
  {
    assert MergeLeftSpec(rows, next, g, src) == Replace(rows, next, src, d, true);
    var p, q := Locate(rows, src).value, Locate(rows, d).value;
    ReplaceMoves(rows, next, src, d, true, p, q);
  }

  /** `mergeUp` fails before changing anything in the same cases, with row 0 and the entry above. */
  lemma MergeUpFails(rows: Rows, next: nat, g: Grid, src: nat)
    requires Sound(rows, next) && Indexes(rows, g)
    ensures var o := MergeUpSpec(rows, next, g, src);
      FindCell(g, src).None? || AboveNeighbour(g, FindCell(g, src).value.0, FindCell(g, src).value.1).None? ==>
        o.error.Some? && o.rows == rows && o.next == next
  {
  }

  /** Otherwise a copy of the source with the neighbour's `rowSpan` added takes the upper neighbour's place. */
  lemma MergeUpMerges(rows: Rows, next: nat, g: Grid, src: nat, row: nat, col: nat, d: nat)
    requires Sound(rows, next) && Indexes(rows, g)
    requires FindCell(g, src) == Some((row, col)) && AboveNeighbour(g, row, col) == Some(d) && d != src
    ensures Has(rows, src) && Has(rows, d)
    ensures var o := MergeUpSpec(rows, next, g, src);
      var e := Elements(rows);
      && o.error.None? && o.next == next + 1 && Sound(o.rows, o.next)
      && |o.rows| == |rows| && Count(o.rows) == Count(rows) - 1
      && Elements(o.rows) == (e - {src, d})[next := e[src].(id := next, rowSpan := e[src].rowSpan + e[d].rowSpan)]
  {
    ReplaceEffect(rows, next, src, d, false);
    var e := Elements(rows);
    assert Widened(e[src], e[d], false).(id := next) == e[src].(id := next, rowSpan := e[src].rowSpan + e[d].rowSpan);
  }

  /**
   * Where things sit afterwards: the copy is in the upper neighbour's place,
   * one place further left when the source preceded it in the same row; the
   * source's place is gone; every other row is untouched.
   */
  lemma MergeUpMoves(rows: Rows, next: nat, g: Grid, src: nat, row: nat, col: nat, d: nat)
    requires Sound(rows, next) && Indexes(rows, g)
    requires FindCell(g, src) == Some((row, col)) && AboveNeighbour(g, row, col) == Some(d) && d != src
    ensures Has(rows, src) && Has(rows, d)
    ensures var o := MergeUpSpec(rows, next, g, src);
      var p, q := Locate(rows, src).value, Locate(rows, d).value;
      var copy := Widened(rows[p.0][p.1], rows[q.0][q.1], false).(id := next);
      && o.rows == RemoveAt(SetAt(rows, q.0, q.1, copy), p.0, p.1)
      && SameRowsExcept(o.rows, rows, p.0, q.0)
      && Locate(o.rows, next) == Some(AfterRemoval(q, p))
  {
    assert MergeUpSpec(rows, next, g, src) == Replace(rows, next, src, d, false);
    var p, q := Locate(rows, src).value, Locate(rows, d).value;
    ReplaceMoves(rows, next, src, d, false, p, q);
  }

  // ---------------------------------------------------------------------------
  // unMergeRow and unMerge: contentless clones fill the area the cell spanned

  /** `n` clones made by `cloneNode(false)` and set to 1 x 1, newest first: ids `base + n - 1` down to `base`. */
  function Clones(tag: string, base: nat, n: nat): (cs: seq<Cell>)
    ensures |cs| == n
    ensures forall i :: 0 <= i < n ==> cs[i] == Cell(base + n - 1 - i, tag, 1, 1, "")
  {
    if n == 0 then [] else [Cell(base + n - 1, tag, 1, 1, "")] + Clones(tag, base, n - 1)
  }

  /**
   * `unMergeRow(sourceEl)` for the cell at `(r, k)`: `colSpan - 1` clones, each
   * inserted directly after the source (so the newest comes first), then the
   * source's `colSpan` set to 1.
   */
  function UnMergeRowSpec(rows: Rows, next: nat, r: nat, k: nat): (Rows, nat)
    requires r < |rows| && k < |rows[r]| && rows[r][k].colSpan >= 1
  {
    var c := rows[r][k];
    (SetAt(InsertAt(rows, r, k + 1, Clones(c.tag, next, c.colSpan - 1)), r, k, c.(colSpan := 1)), next + c.colSpan - 1)
  }

  lemma InsertTwice(rows: Rows, r: nat, k: nat, c: Cell, cs: seq<Cell>)
    requires r < |rows| && k <= |rows[r]|
    ensures InsertAt(InsertAt(rows, r, k, cs), r, k, [c]) == InsertAt(rows, r, k, [c] + cs)
  {
    var row := rows[r];
    var once := row[..k] + cs + row[k..];
    assert once[..k] == row[..k] && once[k..] == cs + row[k..];
    assert once[..k] + [c] + once[k..] == row[..k] + ([c] + cs) + row[k..];
  }

  /** Inserting `n` clones under the ids from `next` on keeps the table sound. */
  lemma {:induction false} InsertClonesSound(rows: Rows, next: nat, r: nat, k: nat, tag: string, n: nat)
    requires Sound(rows, next) && r < |rows| && k <= |rows[r]|
    ensures Sound(InsertAt(rows, r, k, Clones(tag, next, n)), next + n)
  {
    if n == 0 {
      assert rows[r][..k] + [] + rows[r][k..] == rows[r];
      assert InsertAt(rows, r, k, []) == rows;
    } else {
      var c := Cell(next + n - 1, tag, 1, 1, "");
      InsertClonesSound(rows, next, r, k, tag, n - 1);
      InsertAtSound(InsertAt(rows, r, k, Clones(tag, next, n - 1)), next + n - 1, r, k, c);
      InsertTwice(rows, r, k, c, Clones(tag, next, n - 1));
    }
  }

  lemma InsertNothing(rows: Rows, r: nat, k: nat)
    requires r < |rows| && k <= |rows[r]|
    ensures InsertAt(rows, r, k, []) == rows
  {
    assert rows[r][..k] + [] + rows[r][k..] == rows[r];
  }

  /** `unMergeRow` keeps the table sound and consumes one id per clone. */
  lemma UnMergeRowSound(rows: Rows, next: nat, r: nat, k: nat)
    requires Sound(rows, next) && r < |rows| && k < |rows[r]|
    ensures var o := UnMergeRowSpec(rows, next, r, k);
      Sound(o.0, o.1) && o.1 == next + rows[r][k].colSpan - 1
  {
    var c := rows[r][k];
    var rows1 := InsertAt(rows, r, k + 1, Clones(c.tag, next, c.colSpan - 1));
    InsertClonesSound(rows, next, r, k + 1, c.tag, c.colSpan - 1);
    assert rows1[r][k] == c;
    SetAtSound(rows1, next + c.colSpan - 1, r, k, c.(colSpan := 1), next + c.colSpan - 1);
  }

  /**
   * `unMergeRow` turns a cell `colSpan` wide into `colSpan` cells one column
   * wide, in the same row and the same place: the source, now 1 wide, followed
   * by `colSpan - 1` new contentless clones. No other row changes.
   */
  lemma UnMergeRowShape(rows: Rows, next: nat, r: nat, k: nat)
    requires r < |rows| && k < |rows[r]| && rows[r][k].colSpan >= 1
    ensures var c := rows[r][k];
      var o := UnMergeRowSpec(rows, next, r, k);
      && |o.0| == |rows| && Count(o.0) == Count(rows) + c.colSpan - 1
      && o.0[r] == rows[r][..k] + [c.(colSpan := 1)] + Clones(c.tag, next, c.colSpan - 1) + rows[r][k + 1..]
      && (forall j :: 0 <= j < |rows| && j != r ==> o.0[j] == rows[j])
  {
    var c := rows[r][k];
    var cs := Clones(c.tag, next, c.colSpan - 1);
    var rows1 := InsertAt(rows, r, k + 1, cs);
    InsertAtCount(rows, r, k + 1, cs);
    SetAtCount(rows1, r, k, c.(colSpan := 1));
    UnMergeRowAt(rows, next, r, k);
  }

  /** The unmerged row itself: the source, now 1 wide, then its clones. */
  lemma UnMergeRowAt(rows: Rows, next: nat, r: nat, k: nat)
    requires r < |rows| && k < |rows[r]| && rows[r][k].colSpan >= 1
    ensures var c := rows[r][k];
      UnMergeRowSpec(rows, next, r, k).0[r] == rows[r][..k] + [c.(colSpan := 1)] + Clones(c.tag, next, c.colSpan - 1) + rows[r][k + 1..]
  {
    var c := rows[r][k];
    var cs := Clones(c.tag, next, c.colSpan - 1);
    var rows1 := InsertAt(rows, r, k + 1, cs);
    assert rows[r][..k + 1] == rows[r][..k] + [c];
    assert rows1[r] == rows[r][..k] + [c] + cs + rows[r][k + 1..];
    assert rows1[r][k := c.(colSpan := 1)] == rows[r][..k] + [c.(colSpan := 1)] + cs + rows[r][k + 1..];
  }

  /** `unMergeRow(sourceEl)`: the loop of lines 75-80, then line 82. */
  method UnMergeRow(t: Table, src: nat)
    requires t.Valid() && Has(t.rows, src)
    modifies t
    ensures t.Valid()
    ensures var p := Locate(old(t.rows), src).value;
      p.0 < |old(t.rows)| && p.1 < |old(t.rows)[p.0]| && old(t.rows)[p.0][p.1].colSpan >= 1 &&
      (t.rows, t.nextId) == UnMergeRowSpec(old(t.rows), old(t.nextId), p.0, p.1)
  {
    var p := Locate(t.rows, src).value;
    var r, k := p.0, p.1;
    ghost var rows0, next0 := t.rows, t.nextId;
    var s := t.rows[r][k];
    InsertNothing(rows0, r, k + 1);
    var i := 1;
    while i < t.rows[r][k].colSpan
      invariant 1 <= i <= s.colSpan
      invariant t.rows == InsertAt(rows0, r, k + 1, Clones(s.tag, next0, i - 1))
      invariant t.nextId == next0 + i - 1
      invariant t.Valid()
      invariant r < |t.rows| && k < |t.rows[r]| && t.rows[r][k] == s
      decreases s.colSpan - i
    {
      var el := Cell(t.nextId, s.tag, 1, 1, "");
      // insertBefore(el, sourceEl.nextElementSibling): directly after the source, or at the end
      InsertAtSound(t.rows, t.nextId, r, k + 1, el);
      InsertTwice(rows0, r, k + 1, el, Clones(s.tag, next0, i - 1));
      t.rows := InsertAt(t.rows, r, k + 1, [el]);
      t.nextId := t.nextId + 1;
      i := i + 1;
    }
    SetAtSound(t.rows, t.nextId, r, k, s.(colSpan := 1), t.nextId);
    t.rows := SetAt(t.rows, r, k, s.(colSpan := 1));
  }

  /**
   * One iteration of lines 63-68 once the insertion point is known: a clone
   * `span` columns wide and one row high, with the id `next`, inserted at
   * `(r, k)` and split by `unMergeRow`.
   */
  function Spliced(rows: Rows, next: nat, r: nat, k: nat, tag: string, span: nat): (o: (Rows, nat))
    requires r < |rows| && k <= |rows[r]| && span >= 1
    ensures |o.0| == |rows|
    ensures forall j :: 0 <= j < |rows| && j != r ==> o.0[j] == rows[j]
  {
    var el := Cell(next, tag, 1, span, "");
    UnMergeRowShape(InsertAt(rows, r, k, [el]), next + 1, r, k);
    UnMergeRowSpec(InsertAt(rows, r, k, [Cell(next, tag, 1, span, "")]), next + 1, r, k)
  }

  /** The `span` contentless 1 x 1 cells a spliced clone leaves in its row: the clone, then its own clones. */
  function Block(tag: string, base: nat, span: nat): (cs: seq<Cell>)
    requires span >= 1
    ensures |cs| == span
  {
    [Cell(base, tag, 1, 1, "")] + Clones(tag, base + 1, span - 1)
  }

  /** A block holds contentless 1 x 1 cells of the source's tag, under the ids `base` to `base + span - 1`. */
  lemma BlockCells(tag: string, base: nat, span: nat)
    requires span >= 1
    ensures forall c :: c in Block(tag, base, span) ==>
      c.tag == tag && c.rowSpan == 1 && c.colSpan == 1 && c.content == "" && base <= c.id < base + span
  {
    var cs := Clones(tag, base + 1, span - 1);
    forall c | c in Block(tag, base, span)
      ensures c.tag == tag && c.rowSpan == 1 && c.colSpan == 1 && c.content == "" && base <= c.id < base + span
    {
      if c != Cell(base, tag, 1, 1, "") {
        assert c in cs;
      }
    }
  }

  /** Splicing keeps the table sound. */
  lemma SplicedSound(rows: Rows, next: nat, r: nat, k: nat, tag: string, span: nat)
    requires Sound(rows, next) && r < |rows| && k <= |rows[r]| && span >= 1
    ensures var o := Spliced(rows, next, r, k, tag, span);
      Sound(o.0, o.1)
  {
    var el := Cell(next, tag, 1, span, "");
    InsertAtSound(rows, next, r, k, el);
    UnMergeRowSound(InsertAt(rows, r, k, [el]), next + 1, r, k);
  }

  /** Splicing adds `span` cells to the table and uses `span` ids. */
  lemma SplicedCount(rows: Rows, next: nat, r: nat, k: nat, tag: string, span: nat)
    requires r < |rows| && k <= |rows[r]| && span >= 1
    ensures var o := Spliced(rows, next, r, k, tag, span);
      o.1 == next + span && Count(o.0) == Count(rows) + span
  {
    var el := Cell(next, tag, 1, span, "");
    var rows1 := InsertAt(rows, r, k, [el]);
    InsertAtCount(rows, r, k, [el]);
    UnMergeRowShape(rows1, next + 1, r, k);
  }

  /** A row with `el` inserted, once `el` is unmerged in place, holds the block of `el`'s pieces. */
  lemma BlockRegroup(pre: seq<Cell>, post: seq<Cell>, row1: seq<Cell>, out: seq<Cell>, el: Cell, tag: string, next: nat, span: nat)
    requires span >= 1 && el == Cell(next, tag, 1, span, "")
    requires row1 == pre + [el] + post
    requires out == row1[..|pre|] + [el.(colSpan := 1)] + Clones(el.tag, next + 1, el.colSpan - 1) + row1[|pre| + 1..]
    ensures out == pre + Block(tag, next, span) + post
  {
    var x := el.(colSpan := 1);
    var cs := Clones(tag, next + 1, span - 1);
    assert Block(tag, next, span) == [x] + cs;
    Around(pre, el, post);
    Regroup(pre, x, cs, post);
  }

  lemma Around<T>(pre: seq<T>, x: T, post: seq<T>)
    ensures (pre + [x] + post)[..|pre|] == pre && (pre + [x] + post)[|pre| + 1..] == post
  {
  }

  lemma Regroup<T>(a: seq<T>, x: T, cs: seq<T>, b: seq<T>)
    ensures a + [x] + cs + b == a + ([x] + cs) + b
  {
  }

  /** The spliced row gains a block of `span` contentless 1 x 1 cells at `k`. */
  lemma SplicedRow(rows: Rows, next: nat, r: nat, k: nat, tag: string, span: nat)
    requires r < |rows| && k <= |rows[r]| && span >= 1
    ensures Spliced(rows, next, r, k, tag, span).0[r] == rows[r][..k] + Block(tag, next, span) + rows[r][k..]
  {
    var el := Cell(next, tag, 1, span, "");
    var rows1 := InsertAt(rows, r, k, [el]);
    var o := UnMergeRowSpec(rows1, next + 1, r, k);
    assert o.0[r] == rows[r][..k] + Block(tag, next, span) + rows[r][k..] by {
      assert rows1[r] == rows[r][..k] + [el] + rows[r][k..];
      UnMergeRowAt(rows1, next + 1, r, k);
      BlockRegroup(rows[r][..k], rows[r][k..], rows1[r], o.0[r], el, tag, next, span);
    }
    assert Spliced(rows, next, r, k, tag, span) == o;
  }

  /** `rowEl.insertBefore(el, nextSibling); unMergeRow(el)` for a fresh clone `el`. */
  method Splice(t: Table, r: nat, k: nat, tag: string, span: nat)
    requires t.Valid() && r < |t.rows| && k <= |t.rows[r]| && span >= 1
    modifies t
    ensures t.Valid()
    ensures (t.rows, t.nextId) == Spliced(old(t.rows), old(t.nextId), r, k, tag, span)
  {
    var el := Cell(t.nextId, tag, 1, span, "");
    InsertAtSound(t.rows, t.nextId, r, k, el);
    t.rows := InsertAt(t.rows, r, k, [el]);
    t.nextId := t.nextId + 1;
    LocateUnique(t.rows, r, k);
    SplicedSound(old(t.rows), old(t.nextId), r, k, tag, span);
    UnMergeRow(t, el.id);
  }

  /**
   * Iteration `i` of lines 62-68, `prev` being the row `rowEl` held before it:
   * move to the next row, clone the source (the clone takes the id `next`),
   * and splice the clone in before the element the grid records at
   * `(row + i, col + span)`, or at the row's end when that entry records none.
   * The rows and next id after it, or the error it throws; a throwing
   * iteration has used up one id and changed no row.
   */
  function BelowStep(g: Grid, rows: Rows, next: nat, row: nat, col: nat, tag: string, span: nat, prev: nat, i: nat): (r: Result<(Rows, nat), MergeError>)
    requires prev < |rows| && span >= 1
    ensures r.Ok? ==> prev + 1 < |rows| && |r.value.0| == |rows|
    ensures r.Ok? ==> forall j :: 0 <= j < |rows| && j != prev + 1 ==> r.value.0[j] == rows[j]
  {
    // grid[row + i] or grid[row + i][col + span] is undefined
    if row + i >= |g| || col + span >= |g[row + i]| then Err(TypeError)
    // rowEl.nextElementSibling was null
    else if prev + 1 >= |rows| then Err(TypeError)
    else
      var sibling := g[row + i][col + span].el;
      var at := if sibling.None? then Some(|rows[prev + 1]|) else IndexOf(rows[prev + 1], sibling.value.id);
      // nextSibling is not a child of rowEl
      if at.None? then Err(NotFoundError)
      else Ok(Spliced(rows, next, prev + 1, at.value, tag, span))
  }

  /** Lines 61-69 from iteration `i` on; `height` is the source's `rowSpan`. */
  function UnMergeBelow(g: Grid, rows: Rows, next: nat, row: nat, col: nat, tag: string, span: nat, height: nat, prev: nat, i: nat): (o: Outcome)
    requires prev < |rows| && span >= 1
    ensures |o.rows| == |rows|
    ensures forall j :: 0 <= j <= prev ==> o.rows[j] == rows[j]
    decreases height - i
  {
    if i >= height then Outcome(rows, next, None)
    else match BelowStep(g, rows, next, row, col, tag, span, prev, i)
      case Err(e) => Outcome(rows, next + 1, Some(e))
      case Ok(o) => UnMergeBelow(g, o.0, o.1, row, col, tag, span, height, prev + 1, i + 1)
  }

  /** One turn of the loop of lines 61-69: stop, throw, or go on from the next row. */
  lemma UnMergeBelowUnfold(g: Grid, rows: Rows, next: nat, row: nat, col: nat, tag: string, span: nat, height: nat, prev: nat, i: nat)
    requires prev < |rows| && span >= 1
    ensures var o := UnMergeBelow(g, rows, next, row, col, tag, span, height, prev, i);
      var r := BelowStep(g, rows, next, row, col, tag, span, prev, i);
      && (i >= height ==> o == Outcome(rows, next, None))
      && (i < height && r.Err? ==> o == Outcome(rows, next + 1, Some(r.error)))
      && (i < height && r.Ok? ==> o == UnMergeBelow(g, r.value.0, r.value.1, row, col, tag, span, height, prev + 1, i + 1))
  {
  }

  /** An iteration keeps the table sound. */
  lemma BelowStepSound(g: Grid, rows: Rows, next: nat, row: nat, col: nat, tag: string, span: nat, prev: nat, i: nat)
    requires Sound(rows, next) && prev < |rows| && span >= 1
    ensures var r := BelowStep(g, rows, next, row, col, tag, span, prev, i);
      r.Ok? ==> Sound(r.value.0, r.value.1)
  {
    var r := BelowStep(g, rows, next, row, col, tag, span, prev, i);
    if r.Ok? {
      var sibling := g[row + i][col + span].el;
      var at := if sibling.None? then Some(|rows[prev + 1]|) else IndexOf(rows[prev + 1], sibling.value.id);
      SplicedSound(rows, next, prev + 1, at.value, tag, span);
    }
  }

  /** An iteration that does not throw adds `span` cells to the table and uses `span` ids. */
  lemma BelowStepCount(g: Grid, rows: Rows, next: nat, row: nat, col: nat, tag: string, span: nat, prev: nat, i: nat)
    requires prev < |rows| && span >= 1
    ensures var r := BelowStep(g, rows, next, row, col, tag, span, prev, i);
      r.Ok? ==> r.value.1 == next + span && Count(r.value.0) == Count(rows) + span
  {
    var r := BelowStep(g, rows, next, row, col, tag, span, prev, i);
    if r.Ok? {
      var sibling := g[row + i][col + span].el;
      var at := if sibling.None? then Some(|rows[prev + 1]|) else IndexOf(rows[prev + 1], sibling.value.id);
      SplicedCount(rows, next, prev + 1, at.value, tag, span);
    }
  }

  /**
   * `after` is `before` with a block of `span` new cells, ids from `base`,
   * inserted before the element the grid entry `e` records, or at the end
   * when it records none.
   */
  predicate SplicedAt(before: seq<Cell>, after: seq<Cell>, e: Entry, tag: string, span: nat, base: nat)
  {
    var at := if e.el.None? then Some(|before|) else IndexOf(before, e.el.value.id);
    at.Some? && span >= 1 && after == before[..at.value] + Block(tag, base, span) + before[at.value..]
  }

  /** `n * span`, as repeated addition, so that the counting proofs stay linear. */
  function Times(n: nat, span: nat): nat
  {
    if n == 0 then 0 else Times(n - 1, span) + span
  }

  lemma {:induction false} TimesIsProduct(n: nat, span: nat)
    ensures Times(n, span) == n * span
  {
    if n > 0 {
      TimesIsProduct(n - 1, span);
    }
  }

  /** ... and splices one block into the next row, before the element the grid records just right of the source's columns. */
  lemma BelowStepRow(g: Grid, rows: Rows, next: nat, row: nat, col: nat, tag: string, span: nat, prev: nat, i: nat)
    requires prev < |rows| && span >= 1
    ensures var r := BelowStep(g, rows, next, row, col, tag, span, prev, i);
      r.Ok? ==> (row + i < |g| && col + span < |g[row + i]| &&
        SplicedAt(rows[prev + 1], r.value.0[prev + 1], g[row + i][col + span], tag, span, next))
  {
    var r := BelowStep(g, rows, next, row, col, tag, span, prev, i);
    if r.Ok? {
      var sibling := g[row + i][col + span].el;
      var at := if sibling.None? then Some(|rows[prev + 1]|) else IndexOf(rows[prev + 1], sibling.value.id);
      SplicedRow(rows, next, prev + 1, at.value, tag, span);
    }
  }

  /** The loop of lines 61-69 keeps the table sound, whether or not it throws. */
  lemma {:induction false} UnMergeBelowSound(g: Grid, rows: Rows, next: nat, row: nat, col: nat, tag: string, span: nat, height: nat, prev: nat, i: nat)
    requires Sound(rows, next) && prev < |rows| && span >= 1
    ensures var o := UnMergeBelow(g, rows, next, row, col, tag, span, height, prev, i);
      Sound(o.rows, o.next)
    decreases height - i
  {
    UnMergeBelowUnfold(g, rows, next, row, col, tag, span, height, prev, i);
    if i < height {
      var r := BelowStep(g, rows, next, row, col, tag, span, prev, i);
      if r.Ok? {
        BelowStepSound(g, rows, next, row, col, tag, span, prev, i);
        UnMergeBelowSound(g, r.value.0, r.value.1, row, col, tag, span, height, prev + 1, i + 1);
      } else {
        SoundLater(rows, next, next + 1);
      }
    }
  }

  /** A run of the loop of lines 61-69 that does not throw adds `span` cells, and uses `span` ids, per further row. */
  lemma {:induction false} UnMergeBelowCount(g: Grid, rows: Rows, next: nat, row: nat, col: nat, tag: string, span: nat, height: nat, prev: nat, i: nat)
    requires prev < |rows| && span >= 1 && i <= height
    ensures var o := UnMergeBelow(g, rows, next, row, col, tag, span, height, prev, i);
      o.error.None? ==>
        && prev + (height - i) < |rows|
        && o.next == next + Times(height - i, span)
        && Count(o.rows) == Count(rows) + Times(height - i, span)
    decreases height - i
  {
    var o := UnMergeBelow(g, rows, next, row, col, tag, span, height, prev, i);
    if i < height {
      var r := BelowStep(g, rows, next, row, col, tag, span, prev, i);
      if r.Ok? {
        BelowStepCount(g, rows, next, row, col, tag, span, prev, i);
        UnMergeBelowCount(g, r.value.0, r.value.1, row, col, tag, span, height, prev + 1, i + 1);
        assert o == UnMergeBelow(g, r.value.0, r.value.1, row, col, tag, span, height, prev + 1, i + 1);
        assert Times(height - i, span) == Times(height - (i + 1), span) + span;
      } else {
        assert o.error.Some?;
      }
    }
  }

  /** ... and leaves every row outside the next `height - i` as it was. */
  lemma {:induction false} UnMergeBelowKeeps(g: Grid, rows: Rows, next: nat, row: nat, col: nat, tag: string, span: nat, height: nat, prev: nat, i: nat)
    requires prev < |rows| && span >= 1 && i <= height
    ensures var o := UnMergeBelow(g, rows, next, row, col, tag, span, height, prev, i);
      o.error.None? ==>
        forall j :: prev + (height - i) < j < |rows| ==> o.rows[j] == rows[j]
    decreases height - i
  {
    if i < height {
      var r := BelowStep(g, rows, next, row, col, tag, span, prev, i);
      if r.Ok? {
        UnMergeBelowKeeps(g, r.value.0, r.value.1, row, col, tag, span, height, prev + 1, i + 1);
      }
    }
  }

  /**
   * The `d`-th row below row `prev` got its block: it sits before the element
   * the grid records at `(row + i + d, col + span)` and its ids start at
   * `next + d * span`.
   */
  predicate BlockBelow(g: Grid, rows: Rows, after: Rows, row: nat, col: nat, tag: string, span: nat, next: nat, prev: nat, i: nat, d: nat)
  {
    && prev + 1 + d < |rows| && prev + 1 + d < |after|
    && row + i + d < |g| && col + span < |g[row + i + d]|
    && SplicedAt(rows[prev + 1 + d], after[prev + 1 + d], g[row + i + d][col + span], tag, span, next + Times(d, span))
  }

  /** Block `d + 1` below row `prev` is block `d` below row `prev + 1`, seen from one iteration on. */
  lemma BlockBelowShift(g: Grid, rows: Rows, rows1: Rows, after: Rows, row: nat, col: nat, tag: string, span: nat, next: nat, prev: nat, i: nat, d: nat, next1: nat)
    requires next1 == next + span
    requires prev + 2 + d < |rows| <= |rows1| && rows1[prev + 2 + d] == rows[prev + 2 + d]
    requires BlockBelow(g, rows1, after, row, col, tag, span, next1, prev + 1, i + 1, d)
    ensures BlockBelow(g, rows, after, row, col, tag, span, next, prev, i, d + 1)
  {
    assert prev + 1 + 1 + d == prev + 1 + (d + 1) && row + (i + 1) + d == row + i + (d + 1);
    assert Times(d + 1, span) == Times(d, span) + span;
  }

  /** A block found from one iteration on is found from the iteration before, one block further down. */
  lemma BlockBelowStep(g: Grid, rows: Rows, mid: Rows, after: Rows, row: nat, col: nat, tag: string, span: nat, next: nat, prev: nat, i: nat, d: nat, next1: nat)
    requires next1 == next + span && d >= 1
    requires |mid| == |rows| && forall j :: 0 <= j < |rows| && j != prev + 1 ==> mid[j] == rows[j]
    requires BlockBelow(g, mid, after, row, col, tag, span, next1, prev + 1, i + 1, d - 1)
    ensures BlockBelow(g, rows, after, row, col, tag, span, next, prev, i, d)
  {
    assert mid[prev + 1 + d] == rows[prev + 1 + d];
    BlockBelowShift(g, rows, mid, after, row, col, tag, span, next, prev, i, d - 1, next1);
  }

  /** Blocks found from one iteration on are found from the iteration before, one block further down. */
  lemma BlocksShift(g: Grid, rows: Rows, mid: Rows, after: Rows, row: nat, col: nat, tag: string, span: nat, next: nat, prev: nat, i: nat, n: nat, next1: nat, prev1: nat, i1: nat)
    requires next1 == next + span && prev1 == prev + 1 && i1 == i + 1
    requires |mid| == |rows| && forall j :: 0 <= j < |rows| && j != prev + 1 ==> mid[j] == rows[j]
    requires BlockBelow(g, rows, after, row, col, tag, span, next, prev, i, 0)
    requires forall d :: 0 <= d < n - 1 ==> BlockBelow(g, mid, after, row, col, tag, span, next1, prev1, i1, d)
    ensures forall d :: 0 <= d < n ==> BlockBelow(g, rows, after, row, col, tag, span, next, prev, i, d)
  {
    forall d | 1 <= d < n
      ensures BlockBelow(g, rows, after, row, col, tag, span, next, prev, i, d)
    {
      BlockBelowStep(g, rows, mid, after, row, col, tag, span, next, prev, i, d, next1);
    }
  }

  /**
   * ... and splices one block into each of those rows, before the element the
   * grid records just right of the source's columns; the blocks take
   * consecutive ids.
   */
  lemma {:induction false} UnMergeBelowSplices(g: Grid, rows: Rows, next: nat, row: nat, col: nat, tag: string, span: nat, height: nat, prev: nat, i: nat)
    requires prev < |rows| && span >= 1 && i <= height
    ensures var o := UnMergeBelow(g, rows, next, row, col, tag, span, height, prev, i);
      o.error.None? ==>
        forall d :: 0 <= d < height - i ==> BlockBelow(g, rows, o.rows, row, col, tag, span, next, prev, i, d)
    decreases height - i
  {
    if i < height {
      var r := BelowStep(g, rows, next, row, col, tag, span, prev, i);
      if r.Ok? {
        var o1 := r.value;
        var o := UnMergeBelow(g, o1.0, o1.1, row, col, tag, span, height, prev + 1, i + 1);
        assert UnMergeBelow(g, rows, next, row, col, tag, span, height, prev, i) == o;
        if o.error.None? {
          assert forall d :: 0 <= d < height - i ==> BlockBelow(g, rows, o.rows, row, col, tag, span, next, prev, i, d) by {
            BelowStepCount(g, rows, next, row, col, tag, span, prev, i);
            UnMergeBelowSplices(g, o1.0, o1.1, row, col, tag, span, height, prev + 1, i + 1);
            UnMergeBelowFirstBlock(g, rows, next, row, col, tag, span, height, prev, i);
            BlocksShift(g, rows, o1.0, o.rows, row, col, tag, span, next, prev, i, height - i, o1.1, prev + 1, i + 1);
          }
        }
      }
    }
  }

  /** The first block goes into the row right below the source's. */
  lemma UnMergeBelowFirstBlock(g: Grid, rows: Rows, next: nat, row: nat, col: nat, tag: string, span: nat, height: nat, prev: nat, i: nat)
    requires prev < |rows| && span >= 1 && i < height
    ensures var o := UnMergeBelow(g, rows, next, row, col, tag, span, height, prev, i);
      o.error.None? ==> BlockBelow(g, rows, o.rows, row, col, tag, span, next, prev, i, 0)
  {
    var r := BelowStep(g, rows, next, row, col, tag, span, prev, i);
    if r.Ok? {
      var o1 := r.value;
      var o := UnMergeBelow(g, o1.0, o1.1, row, col, tag, span, height, prev + 1, i + 1);
      assert UnMergeBelow(g, rows, next, row, col, tag, span, height, prev, i) == o;
      BelowStepRow(g, rows, next, row, col, tag, span, prev, i);
      BlockBelowFirst(g, rows, o1.0, o.rows, row, col, tag, span, next, prev, i);
    }
  }

  lemma BlockBelowFirst(g: Grid, rows: Rows, mid: Rows, after: Rows, row: nat, col: nat, tag: string, span: nat, next: nat, prev: nat, i: nat)
    requires prev + 1 < |rows| && |after| == |rows| && prev + 1 < |mid| && after[prev + 1] == mid[prev + 1]
    requires row + i < |g| && col + span < |g[row + i]|
    requires SplicedAt(rows[prev + 1], mid[prev + 1], g[row + i][col + span], tag, span, next)
    ensures BlockBelow(g, rows, after, row, col, tag, span, next, prev, i, 0)
  {
    assert Times(0, span) == 0;
  }

  /**
   * `unMerge(grid, sourceEl)`: split the source across its columns, then add
   * one split clone in each further row it spans, then set its `rowSpan` to 1.
   */
  function UnMergeSpec(rows: Rows, next: nat, g: Grid, src: nat): Outcome
    requires Sound(rows, next) && Indexes(rows, g)
  {
    match FindCell(g, src)
    case None => Outcome(rows, next, Some(NotInGrid))
    case Some(p) =>
      FindCellUnique(rows, g, src, p.0, p.1);
      var q := Locate(rows, src).value;
      UnMergeAt(g, rows, next, p.0, p.1, q.0, q.1)
  }

  /**
   * Lines 57-71 once the source is known to be the element at `(r, k)` of the
   * rows and at `(row, col)` of the grid.
   */
  function UnMergeAt(g: Grid, rows: Rows, next: nat, row: nat, col: nat, r: nat, k: nat): Outcome
    requires r < |rows| && k < |rows[r]| && rows[r][k].colSpan >= 1 && rows[r][k].rowSpan >= 1
  {
    var s := rows[r][k];
    var split := UnMergeRowSpec(rows, next, r, k);
    UnMergeRowShape(rows, next, r, k);
    var o := UnMergeBelow(g, split.0, split.1, row, col, s.tag, s.colSpan, s.rowSpan, r, 1);
    if o.error.Some? then o
    else Outcome(SetAt(o.rows, r, k, s.(colSpan := 1, rowSpan := 1)), o.next, None)
  }

  /** `UnMergeSpec` once the source is found at `(row, col)`. */
  lemma UnMergeSpecFound(rows: Rows, next: nat, g: Grid, src: nat, row: nat, col: nat)
    requires Sound(rows, next) && Indexes(rows, g) && Has(rows, src)
    requires FindCell(g, src) == Some((row, col))
    ensures var q := Locate(rows, src).value;
      var split := UnMergeRowSpec(rows, next, q.0, q.1);
      Sound(split.0, split.1) && q.0 < |split.0| && q.1 < |split.0[q.0]| && split.0[q.0][q.1] == rows[q.0][q.1].(colSpan := 1)
    ensures var q := Locate(rows, src).value;
      var s := rows[q.0][q.1];
      var split := UnMergeRowSpec(rows, next, q.0, q.1);
      var o := UnMergeBelow(g, split.0, split.1, row, col, s.tag, s.colSpan, s.rowSpan, q.0, 1);
      q.1 < |o.rows[q.0]| && s.rowSpan >= 1 &&
      UnMergeSpec(rows, next, g, src) == UnMergeAt(g, rows, next, row, col, q.0, q.1)
  {
    var q := Locate(rows, src).value;
    UnMergeRowSound(rows, next, q.0, q.1);
    UnMergeRowShape(rows, next, q.0, q.1);
  }

  /** Iteration `i` of the loop of lines 61-69, `rowEl` being the row of the previous iteration. */
  method FillRow(t: Table, grid: array2<Entry>, ghost g: Grid, row: nat, col: nat, tag: string, span: nat, height: nat, rowEl: nat, i: nat)
    returns (err: Option<MergeError>)
    requires t.Valid() && rowEl < |t.rows| && span >= 1 && i < height && g == Snap(grid)
    modifies t
    ensures t.Valid()
    ensures var o := UnMergeBelow(g, old(t.rows), old(t.nextId), row, col, tag, span, height, rowEl, i);
      if err.Some? then Outcome(t.rows, t.nextId, err) == o
      else rowEl + 1 < |t.rows| && UnMergeBelow(g, t.rows, t.nextId, row, col, tag, span, height, rowEl + 1, i + 1) == o
  {
    UnMergeBelowUnfold(g, t.rows, t.nextId, row, col, tag, span, height, rowEl, i);
    if row + i >= grid.Length0 || col + span >= grid.Length1 {
      // the clone was made (line 63) before the grid lookup threw
      t.nextId := t.nextId + 1;
      return Some(TypeError);
    }
    var sibling := grid[row + i, col + span].el;
    if rowEl + 1 >= |t.rows| {
      t.nextId := t.nextId + 1;
      return Some(TypeError);
    }
    var at := if sibling.None? then Some(|t.rows[rowEl + 1]|) else IndexOf(t.rows[rowEl + 1], sibling.value.id);
    if at.None? {
      assert sibling == g[row + i][col + span].el;
      t.nextId := t.nextId + 1;
      return Some(NotFoundError);
    }
    assert sibling == g[row + i][col + span].el;
    Splice(t, rowEl + 1, at.value, tag, span);
    return None;
  }

  /**
   * The loop of lines 61-69. `height` is the source's `rowSpan`, which the
   * loop re-reads but which no iteration changes: the source sits in row
   * `prev`, above every row the loop edits.
   */
  method FillBelow(t: Table, grid: array2<Entry>, row: nat, col: nat, tag: string, span: nat, height: nat, prev: nat)
    returns (err: Option<MergeError>)
    requires t.Valid() && prev < |t.rows| && span >= 1
    modifies t
    ensures t.Valid()
    ensures Outcome(t.rows, t.nextId, err) == UnMergeBelow(Snap(grid), old(t.rows), old(t.nextId), row, col, tag, span, height, prev, 1)
  {
    ghost var g: Grid := Snap(grid);
    ghost var target := UnMergeBelow(g, t.rows, t.nextId, row, col, tag, span, height, prev, 1);
    assert target == UnMergeBelow(Snap(grid), old(t.rows), old(t.nextId), row, col, tag, span, height, prev, 1);
    var rowEl := prev;
    var i := 1;
    while i < height
      invariant 1 <= i && prev <= rowEl < |t.rows|
      invariant t.Valid()
      invariant UnMergeBelow(g, t.rows, t.nextId, row, col, tag, span, height, rowEl, i) == target
    {
      err := FillRow(t, grid, g, row, col, tag, span, height, rowEl, i);
      if err.Some? {
        return;
      }
      rowEl := rowEl + 1;
      i := i + 1;
    }
    UnMergeBelowUnfold(g, t.rows, t.nextId, row, col, tag, span, height, rowEl, i);
    assert Snap(grid) == g;
    return None;
  }

  method UnMerge(t: Table, grid: array2<Entry>, src: nat) returns (err: Option<MergeError>)
    requires t.Valid() && Indexes(t.rows, Snap(grid))
    modifies t
    ensures t.Valid()
    ensures Outcome(t.rows, t.nextId, err) == UnMergeSpec(old(t.rows), old(t.nextId), Snap(grid), src)
  {
    ghost var g := Snap(grid);
    var p := FindCell(Snap(grid), src);
    if p.None? {
      // the destructuring of findCell's result throws
      return Some(NotInGrid);
    }
    var row, col := p.value.0, p.value.1;
    FindCellUnique(t.rows, g, src, row, col);
    UnMergeSpecFound(t.rows, t.nextId, g, src, row, col);
    var q := Locate(t.rows, src).value;
    var s := t.rows[q.0][q.1];
    UnMergeRow(t, src);
    err := FillBelow(t, grid, row, col, s.tag, s.colSpan, s.rowSpan, q.0);
    if err.Some? {
      return err;
    }
    SetAtSound(t.rows, t.nextId, q.0, q.1, s.(colSpan := 1, rowSpan := 1), t.nextId);
    t.rows := SetAt(t.rows, q.0, q.1, s.(colSpan := 1, rowSpan := 1));
  }

  // ---------------------------------------------------------------------------
  // What unMerge does to the table

  /** A block recorded against one pair of tables holds for another pair that agrees on that row. */
  lemma BlockBelowFrame(g: Grid, rows: Rows, after: Rows, rows': Rows, after': Rows, row: nat, col: nat, tag: string, span: nat, next: nat, prev: nat, i: nat, d: nat)
    requires BlockBelow(g, rows, after, row, col, tag, span, next, prev, i, d)
    requires prev + 1 + d < |rows'| && prev + 1 + d < |after'|
    requires rows'[prev + 1 + d] == rows[prev + 1 + d] && after'[prev + 1 + d] == after[prev + 1 + d]
    ensures BlockBelow(g, rows', after', row, col, tag, span, next, prev, i, d)
  {
  }

  /** A source that is not in the grid is reported, and the table is left as it was. */
  lemma UnMergeNotInGrid(rows: Rows, next: nat, g: Grid, src: nat)
    requires Sound(rows, next) && Indexes(rows, g)
    requires !Has(rows, src)
    ensures UnMergeSpec(rows, next, g, src) == Outcome(rows, next, Some(NotInGrid))
  {
    if FindCell(g, src).Some? {
      var p := FindCell(g, src).value;
      FindCellUnique(rows, g, src, p.0, p.1);
    }
  }

  /** unMerge keeps the table sound, whether it completes or throws part-way. */
  lemma UnMergeSpecSound(rows: Rows, next: nat, g: Grid, src: nat)
    requires Sound(rows, next) && Indexes(rows, g)
    ensures var o := UnMergeSpec(rows, next, g, src);
      Sound(o.rows, o.next) && |o.rows| == |rows|
  {
    match FindCell(g, src)
    case None =>
    case Some(p) =>
      FindCellUnique(rows, g, src, p.0, p.1);
      UnMergeSpecFound(rows, next, g, src, p.0, p.1);
      var q := Locate(rows, src).value;
      var s := rows[q.0][q.1];
      var split := UnMergeRowSpec(rows, next, q.0, q.1);
      var o := UnMergeBelow(g, split.0, split.1, p.0, p.1, s.tag, s.colSpan, s.rowSpan, q.0, 1);
      UnMergeBelowSound(g, split.0, split.1, p.0, p.1, s.tag, s.colSpan, s.rowSpan, q.0, 1);
      if o.error.None? {
        assert o.rows[q.0] == split.0[q.0];
        SetAtSound(o.rows, o.next, q.0, q.1, s.(colSpan := 1, rowSpan := 1), o.next);
      }
  }

  /**
   * A completed unMerge turns an R x C source into R * C cells: the table
   * gains R * C - 1 elements, which take the next R * C - 1 ids, and the
   * source's rows all exist.
   */
  lemma UnMergeCount(g: Grid, rows: Rows, next: nat, row: nat, col: nat, r: nat, k: nat)
    requires r < |rows| && k < |rows[r]| && rows[r][k].colSpan >= 1 && rows[r][k].rowSpan >= 1
    ensures var s := rows[r][k];
      var o := UnMergeAt(g, rows, next, row, col, r, k);
      o.error.None? ==>
        && r + s.rowSpan - 1 < |rows|
        && o.next == next + s.rowSpan * s.colSpan - 1
        && Count(o.rows) == Count(rows) + s.rowSpan * s.colSpan - 1
  {
    var s := rows[r][k];
    var split := UnMergeRowSpec(rows, next, r, k);
    UnMergeRowShape(rows, next, r, k);
    var o := UnMergeBelow(g, split.0, split.1, row, col, s.tag, s.colSpan, s.rowSpan, r, 1);
    if o.error.None? {
      UnMergeBelowCount(g, split.0, split.1, row, col, s.tag, s.colSpan, s.rowSpan, r, 1);
      SetAtCount(o.rows, r, k, s.(colSpan := 1, rowSpan := 1));
      assert Times(s.rowSpan, s.colSpan) == Times(s.rowSpan - 1, s.colSpan) + s.colSpan;
      TimesIsProduct(s.rowSpan, s.colSpan);
    }
  }

  /**
   * A completed unMerge leaves the source, now 1 x 1, where it was, followed
   * by `colSpan - 1` fresh clones.
   */
  lemma UnMergeSourceRow(g: Grid, rows: Rows, next: nat, row: nat, col: nat, r: nat, k: nat)
    requires r < |rows| && k < |rows[r]| && rows[r][k].colSpan >= 1 && rows[r][k].rowSpan >= 1
    ensures var s := rows[r][k];
      var o := UnMergeAt(g, rows, next, row, col, r, k);
      o.error.None? ==>
        o.rows[r] == rows[r][..k] + [s.(colSpan := 1, rowSpan := 1)] + Clones(s.tag, next, s.colSpan - 1) + rows[r][k + 1..]
  {
    var s := rows[r][k];
    var split := UnMergeRowSpec(rows, next, r, k);
    UnMergeRowShape(rows, next, r, k);
    var o := UnMergeBelow(g, split.0, split.1, row, col, s.tag, s.colSpan, s.rowSpan, r, 1);
    if o.error.None? {
      assert o.rows[r] == split.0[r];
      var line := rows[r][..k] + [s.(colSpan := 1)] + Clones(s.tag, next, s.colSpan - 1) + rows[r][k + 1..];
      assert line[k := s.(colSpan := 1, rowSpan := 1)] ==
        rows[r][..k] + [s.(colSpan := 1, rowSpan := 1)] + Clones(s.tag, next, s.colSpan - 1) + rows[r][k + 1..];
    }
  }

  /**
   * A completed unMerge puts, into each of the `rowSpan - 1` rows below the
   * source, a block of `colSpan` fresh 1 x 1 clones before the element the
   * grid records just right of the source's columns; the blocks take
   * consecutive ids after the source row's clones.
   */
  lemma UnMergeBlocks(g: Grid, rows: Rows, next: nat, row: nat, col: nat, r: nat, k: nat)
    requires r < |rows| && k < |rows[r]| && rows[r][k].colSpan >= 1 && rows[r][k].rowSpan >= 1
    ensures UnMergeRowSpec(rows, next, r, k).1 == next + rows[r][k].colSpan - 1
    ensures var s := rows[r][k];
      var o := UnMergeAt(g, rows, next, row, col, r, k);
      var first := UnMergeRowSpec(rows, next, r, k).1;
      o.error.None? ==>
        forall d: nat :: d < s.rowSpan - 1 ==>
          BlockBelow(g, rows, o.rows, row, col, s.tag, s.colSpan, first, r, 1, d)
  {
    var s := rows[r][k];
    var split := UnMergeRowSpec(rows, next, r, k);
    UnMergeRowShape(rows, next, r, k);
    var o := UnMergeBelow(g, split.0, split.1, row, col, s.tag, s.colSpan, s.rowSpan, r, 1);
    if o.error.None? {
      var final := SetAt(o.rows, r, k, s.(colSpan := 1, rowSpan := 1));
      UnMergeBelowSplices(g, split.0, split.1, row, col, s.tag, s.colSpan, s.rowSpan, r, 1);
      forall d: nat | d < s.rowSpan - 1
        ensures BlockBelow(g, rows, final, row, col, s.tag, s.colSpan, split.1, r, 1, d)
      {
        BlockBelowFrame(g, split.0, o.rows, rows, final, row, col, s.tag, s.colSpan, split.1, r, 1, d);
      }
    }
  }

  /** A completed unMerge changes no row above the source or below its last row. */
  lemma UnMergeKeeps(g: Grid, rows: Rows, next: nat, row: nat, col: nat, r: nat, k: nat)
    requires r < |rows| && k < |rows[r]| && rows[r][k].colSpan >= 1 && rows[r][k].rowSpan >= 1
    ensures var s := rows[r][k];
      var o := UnMergeAt(g, rows, next, row, col, r, k);
      o.error.None? ==>
        |o.rows| == |rows| && forall j :: 0 <= j < |rows| && (j < r || r + s.rowSpan <= j) ==> o.rows[j] == rows[j]
  {
    var s := rows[r][k];
    var split := UnMergeRowSpec(rows, next, r, k);
    UnMergeRowShape(rows, next, r, k);
    var o := UnMergeBelow(g, split.0, split.1, row, col, s.tag, s.colSpan, s.rowSpan, r, 1);
    if o.error.None? {
      UnMergeBelowKeeps(g, split.0, split.1, row, col, s.tag, s.colSpan, s.rowSpan, r, 1);
    }
  }

  /**
   * A source spanning several rows whose columns reach the grid's right edge
   * makes line 66 read past the end of the grid row: unMerge throws a
   * TypeError after splitting the source's own row and making one more clone.
   */
  lemma UnMergeRightEdge(g: Grid, rows: Rows, next: nat, row: nat, col: nat, r: nat, k: nat)
    requires r < |rows| && k < |rows[r]| && rows[r][k].colSpan >= 1 && rows[r][k].rowSpan >= 1
    requires rows[r][k].rowSpan >= 2 && (row + 1 >= |g| || col + rows[r][k].colSpan >= |g[row + 1]|)
    ensures UnMergeAt(g, rows, next, row, col, r, k) ==
      Outcome(UnMergeRowSpec(rows, next, r, k).0, next + rows[r][k].colSpan, Some(TypeError))
  {
    var s := rows[r][k];
    var split := UnMergeRowSpec(rows, next, r, k);
    UnMergeRowShape(rows, next, r, k);
    UnMergeBelowUnfold(g, split.0, split.1, row, col, s.tag, s.colSpan, s.rowSpan, r, 1);
  }
}

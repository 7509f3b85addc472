/**
 * The occupancy-map builder of `TableUtils_Logan.js`: for a list of rows, the
 * list of every cell covering each position (`buildCellTable`), its copy
 * (`cloneWithoutHoles`, as written and as its comment intends, without
 * holes), the validation of uncovered and doubly covered positions
 * (`validateCellData`), and the per-column list of a table's
 * `col`/`colgroup` elements (`buildColumnData`).
 *
 * JavaScript arrays here are sparse: assigning past the end leaves holes, and
 * `map`, `reduce` and `forEach` skip holes. A position of such an array is a
 * `Slot`.
 */
module CellOccupancy {
  import opened Basics
  import opened Cells

  /** One position of a sparse array: a hole, or a value. */
  datatype Slot<T> = Hole | Filled(v: T)

  /** `{cell, x, y}`: a cell with its row `y` and its index `x` among the row's cells. */
  datatype Info = Info(cell: Cell, x: nat, y: nat)

  /** `{first, last}` of one axis of a placement. */
  datatype Axis = Axis(first: bool, last: bool)

  /** The record pushed for a position the cell covers: the cell, the position, and the axis flags. */
  datatype Placement = Placement(cell: Cell, x: nat, y: nat, axisX: Axis, axisY: Axis)

  /** One row of the occupancy map as a sparse array: per position, the list of cells covering it. */
  type Line = seq<Slot<seq<Placement>>>

  /**
   * The occupancy map `data`, a sparse array of sparse arrays: its `length`,
   * the rows that exist with their lengths, and the lists that exist, by
   * position. Every other index is a hole.
   */
  datatype Occupancy = Occupancy(length: nat, lens: map<nat, nat>, lists: map<(nat, nat), seq<Placement>>)

  /** A rectangle of positions, each the list of cells covering it or `null`. */
  type CellGrid = seq<seq<Option<seq<Placement>>>>

  /**
   * What `cloneWithoutHoles` returns as written: per row of the map (a missing
   * row stays a hole), one entry per position, holding that position's cells
   * padded with `null` to the longest list of the row.
   */
  type Cloned = seq<Slot<seq<seq<Option<Placement>>>>>

  datatype JsError = TypeError

  function Max(a: nat, b: nat): nat
  {
    if a >= b then a else b
  }

  // ---------------------------------------------------------------------------
  // The sparse map

  /** Lengths cover what exists: rows exist below `length`, lists below their row's length. */
  ghost predicate Valid(data: Occupancy)
  {
    && (forall y :: y in data.lens ==> y < data.length)
    && (forall y, x :: (y, x) in data.lists ==> y in data.lens && x < data.lens[y])
  }

  /** Position `(y, x)` holds a list: `data[y] && data[y][x]` is truthy. */
  predicate Occupied(data: Occupancy, y: nat, x: nat)
  {
    (y, x) in data.lists
  }

  /** The cells recorded at `(y, x)`: none at a hole or past an end. */
  function At(data: Occupancy, y: nat, x: nat): seq<Placement>
  {
    if (y, x) in data.lists then data.lists[(y, x)] else []
  }

  /** `data[y].length`, 0 for a missing row. */
  function Len(data: Occupancy, y: nat): nat
  {
    if y in data.lens then data.lens[y] else 0
  }

  /**
   * Lines 131-135: `data[y] = data[y] || []`, `data[y][x] = data[y][x] || []`,
   * `data[y][x].push(p)`; an assignment past the end of an array lengthens it.
   */
  function Put(data: Occupancy, y: nat, x: nat, p: Placement): (r: Occupancy)
  {
    Occupancy(Max(data.length, y + 1), data.lens[y := Max(Len(data, y), x + 1)], data.lists[(y, x) := At(data, y, x) + [p]])
  }

  /** A push adds `p` to the end of the one list at `(y, x)` and leaves every other list alone. */
  lemma PutAt(data: Occupancy, y: nat, x: nat, p: Placement, y': nat, x': nat)
    ensures Occupied(Put(data, y, x, p), y', x') == (Occupied(data, y', x') || (y' == y && x' == x))
    ensures At(Put(data, y, x, p), y', x') == if y' == y && x' == x then At(data, y, x) + [p] else At(data, y', x')
  {
  }

  // ---------------------------------------------------------------------------
  // buildCellTable

  /** The cells of row `y` with their coordinates (line 114). */
  function RowInfos(row: seq<Cell>, y: nat): (r: seq<Info>)
    ensures |r| == |row|
    ensures forall x :: 0 <= x < |row| ==> r[x] == Info(row[x], x, y)
  {
    seq(|row|, x requires 0 <= x < |row| => Info(row[x], x, y))
  }

  /** Lines 111-118: every cell of every row, in document order, with its coordinates. */
  function Infos(rows: Rows): seq<Info>
  {
    if rows == [] then [] else Infos(rows[..|rows| - 1]) + RowInfos(rows[|rows| - 1], |rows| - 1)
  }

  lemma {:induction false} InfosLength(rows: Rows)
    ensures |Infos(rows)| == Count(rows)
  {
    if rows != [] {
      InfosLength(rows[..|rows| - 1]);
    }
  }

  /** The cell at index `x` of row `y` comes `Count(rows[..y]) + x`-th, tagged with `x` and `y`. */
  lemma {:induction false} InfosAt(rows: Rows, y: nat, x: nat)
    requires y < |rows| && x < |rows[y]|
    ensures |Infos(rows)| == Count(rows)
    ensures Count(rows[..y]) + x < |Infos(rows)|
    ensures Infos(rows)[Count(rows[..y]) + x] == Info(rows[y][x], x, y)
  {
    var n := |rows| - 1;
    InfosLength(rows);
    if y < n {
      assert rows[..n][..y] == rows[..y];
      InfosAt(rows[..n], y, x);
    } else {
      InfosLength(rows[..n]);
      assert rows[..n] == rows[..y];
    }
  }

  /** Line 123: the first position of row `y` from `x` on that holds no list. */
  function BaseX(data: Occupancy, y: nat, x: nat): (b: nat)
    requires Valid(data)
    ensures x <= b && !Occupied(data, y, b)
    ensures forall k :: x <= k < b ==> Occupied(data, y, k)
    decreases Len(data, y) - x
  {
    if Occupied(data, y, x) then BaseX(data, y, x + 1) else x
  }

  /**
   * The record pushed in iteration `(i, j)` (line 135) at `(y, x)`. The info
   * record has no `colSpan` or `rowSpan`, so `info.colSpan - 1` and
   * `info.rowSpan - 1` are NaN and `last` is always false; `first` compares
   * `i` on both axes.
   */
  function Mark(c: Cell, i: nat, y: nat, x: nat): Placement
  {
    Placement(c, x, y, Axis(i == 0, false), Axis(i == 0, false))
  }

  /** The first `n` iterations of the inner loop (line 127) in iteration `i` of the outer one. */
  function StampRow(data: Occupancy, c: Cell, y0: nat, base: nat, i: nat, n: nat): (r: Occupancy)
  {
    if n == 0 then data
    else Put(StampRow(data, c, y0, base, i, n - 1), y0 + i, base + n - 1, Mark(c, i, y0 + i, base + n - 1))
  }

  /** The first `m` iterations of the outer loop (line 126). */
  function StampRect(data: Occupancy, c: Cell, y0: nat, base: nat, m: nat): (r: Occupancy)
  {
    if m == 0 then data
    else StampRow(StampRect(data, c, y0, base, m - 1), c, y0, base, m - 1, c.rowSpan)
  }

  /** One step of the reducer (lines 120-154). */
  function Place(data: Occupancy, info: Info): (r: Occupancy)
    requires Valid(data)
  {
    StampRect(data, info.cell, info.y, BaseX(data, info.y, info.x), info.cell.colSpan)
  }

  /** The occupancy map the reducer builds from `infos`, starting from `[]`. */
  function Occupy(infos: seq<Info>): (r: Occupancy)
    ensures Valid(r)
  {
    if infos == [] then Occupancy(0, map[], map[])
    else
      var data := Occupy(infos[..|infos| - 1]);
      var info := infos[|infos| - 1];
      StampRectValid(data, info.cell, info.y, BaseX(data, info.y, info.x), info.cell.colSpan);
      Place(data, info)
  }

  /** Assignments lengthen the arrays they write past the end of. */
  lemma PutValid(data: Occupancy, y: nat, x: nat, p: Placement)
    requires Valid(data)
    ensures Valid(Put(data, y, x, p))
  {
  }

  lemma {:induction false} StampRowValid(data: Occupancy, c: Cell, y0: nat, base: nat, i: nat, n: nat)
    requires Valid(data)
    ensures Valid(StampRow(data, c, y0, base, i, n))
  {
    if n > 0 {
      var prev := StampRow(data, c, y0, base, i, n - 1);
      var p := Mark(c, i, y0 + i, base + n - 1);
      StampRowValid(data, c, y0, base, i, n - 1);
      PutValid(prev, y0 + i, base + n - 1, p);
      assert StampRow(data, c, y0, base, i, n) == Put(prev, y0 + i, base + n - 1, p);
    }
  }

  lemma {:induction false} StampRectValid(data: Occupancy, c: Cell, y0: nat, base: nat, m: nat)
    requires Valid(data)
    ensures Valid(StampRect(data, c, y0, base, m))
  {
    if m > 0 {
      var prev := StampRect(data, c, y0, base, m - 1);
      StampRectValid(data, c, y0, base, m - 1);
      StampRowValid(prev, c, y0, base, m - 1, c.rowSpan);
      assert StampRect(data, c, y0, base, m) == StampRow(prev, c, y0, base, m - 1, c.rowSpan);
    }
  }

  lemma {:induction false} StampRowAt(data: Occupancy, c: Cell, y0: nat, base: nat, i: nat, n: nat, y: nat, x: nat)
    ensures Occupied(StampRow(data, c, y0, base, i, n), y, x) == (Occupied(data, y, x) || (y == y0 + i && base <= x < base + n))
    ensures At(StampRow(data, c, y0, base, i, n), y, x) ==
      At(data, y, x) + if y == y0 + i && base <= x < base + n then [Mark(c, i, y, x)] else []
  {
    if n > 0 {
      StampRowAt(data, c, y0, base, i, n - 1, y, x);
      PutAt(StampRow(data, c, y0, base, i, n - 1), y0 + i, base + n - 1, Mark(c, i, y0 + i, base + n - 1), y, x);
    }
  }

  /**
   * Lines 126-136: stamping pushes the cell into exactly the lists of rows
   * `y0 .. y0 + m - 1` and columns `base .. base + rowSpan - 1`, after what they
   * already held; every other list is untouched.
   */
  lemma {:induction false} StampRectAt(data: Occupancy, c: Cell, y0: nat, base: nat, m: nat, y: nat, x: nat)
    ensures Occupied(StampRect(data, c, y0, base, m), y, x) ==
      (Occupied(data, y, x) || (y0 <= y < y0 + m && base <= x < base + c.rowSpan))
    ensures At(StampRect(data, c, y0, base, m), y, x) ==
      At(data, y, x) + if y0 <= y < y0 + m && base <= x < base + c.rowSpan then [Mark(c, y - y0, y, x)] else []
  {
    if m > 0 {
      StampRectAt(data, c, y0, base, m - 1, y, x);
      StampRowAt(StampRect(data, c, y0, base, m - 1), c, y0, base, m - 1, c.rowSpan, y, x);
    }
  }

  /**
   * One cell of `buildCellTable`: it goes to the first free position of its
   * row from its own index on, and from there is pushed into `colSpan` rows
   * down and `rowSpan` columns across (the spans swapped, as lines 126-129
   * write them); lists already there keep their cells.
   */
  lemma PlaceAt(data: Occupancy, info: Info, y: nat, x: nat)
    requires Valid(data)
    ensures var base := BaseX(data, info.y, info.x);
      && info.x <= base && !Occupied(data, info.y, base)
      && (forall k :: info.x <= k < base ==> Occupied(data, info.y, k))
      && At(Place(data, info), y, x) ==
        At(data, y, x) + if info.y <= y < info.y + info.cell.colSpan && base <= x < base + info.cell.rowSpan then [Mark(info.cell, y - info.y, y, x)] else []
  {
    StampRectAt(data, info.cell, info.y, BaseX(data, info.y, info.x), info.cell.colSpan, y, x);
  }

  /** Every list of the map is non-empty and records its own position. */
  ghost predicate WellTagged(data: Occupancy)
  {
    forall y: nat, x: nat :: Occupied(data, y, x) ==>
      |At(data, y, x)| >= 1 && forall p :: p in At(data, y, x) ==> p.y == y && p.x == x
  }

  lemma StampRectTagged(data: Occupancy, c: Cell, y0: nat, base: nat, m: nat)
    requires WellTagged(data)
    ensures WellTagged(StampRect(data, c, y0, base, m))
  {
    var r := StampRect(data, c, y0, base, m);
    forall y: nat, x: nat | Occupied(r, y, x)
      ensures |At(r, y, x)| >= 1 && forall p :: p in At(r, y, x) ==> p.y == y && p.x == x
    {
      StampRectAt(data, c, y0, base, m, y, x);
    }
  }

  /** The map `buildCellTable` builds records each cell under the positions it covers, and only there. */
  lemma {:induction false} OccupyTagged(infos: seq<Info>)
    ensures WellTagged(Occupy(infos))
  {
    if infos != [] {
      var n := |infos| - 1;
      OccupyTagged(infos[..n]);
      var data := Occupy(infos[..n]);
      StampRectTagged(data, infos[n].cell, infos[n].y, BaseX(data, infos[n].y, infos[n].x), infos[n].cell.colSpan);
    }
  }

  /** Lines 126-136: the nested loops pushing one cell into the rectangle it covers from `(y0, base)`. */
  method StampCell(data: Occupancy, c: Cell, y0: nat, base: nat) returns (r: Occupancy)
    ensures r == StampRect(data, c, y0, base, c.colSpan)
  {
    r := data;
    for i := 0 to c.colSpan
      invariant r == StampRect(data, c, y0, base, i)
    {
      r := StampLine(r, c, y0, base, i);
    }
  }

  /** Lines 127-150: the inner loop, iteration `i` of the outer one. */
  method StampLine(data: Occupancy, c: Cell, y0: nat, base: nat, i: nat) returns (r: Occupancy)
    ensures r == StampRow(data, c, y0, base, i, c.rowSpan)
  {
    r := data;
    for j := 0 to c.rowSpan
      invariant r == StampRow(data, c, y0, base, i, j)
    {
      var y := y0 + i;
      var x := base + j;
      r := Put(r, y, x, Mark(c, i, y, x));
    }
  }

  /** Lines 111-154: the reducer run over every cell of the rows, starting from `[]`. */
  method OccupyRows(rows: Rows) returns (data: Occupancy)
    ensures data == Occupy(Infos(rows))
  {
    var infos := Infos(rows);
    data := Occupancy(0, map[], map[]);
    var n := 0;
    while n < |infos|
      invariant 0 <= n <= |infos|
      invariant data == Occupy(infos[..n])
    {
      var info := infos[n];
      var baseX := info.x;
      while Occupied(data, info.y, baseX)
        invariant info.x <= baseX && BaseX(data, info.y, info.x) == BaseX(data, info.y, baseX)
        decreases Len(data, info.y) - baseX
      {
        baseX := baseX + 1;
      }
      data := StampCell(data, info.cell, info.y, baseX);
      assert infos[..n + 1][..n] == infos[..n];
      n := n + 1;
    }
    assert infos[..n] == infos;
  }

  /**
   * `buildCellTable(rows)` as written: the occupancy map of the rows' cells,
   * handed to `cloneWithoutHoles` as written (line 156).
   */
  method BuildCellTable(rows: Rows) returns (r: Result<Cloned, JsError>)
    ensures var data := Occupy(Infos(rows));
      r == ClonePerRow(data, data.length)
  {
    var data := OccupyRows(rows);
    r := CloneWithoutHolesAsWritten(data);
  }

  /** `buildCellTable(rows)` with the corrected copy: the occupancy map as a rectangle without holes. */
  method BuildCellTableWithoutHoles(rows: Rows) returns (table: CellGrid)
    ensures table == WithoutHoles(Occupy(Infos(rows)))
  {
    var data := OccupyRows(rows);
    table := CloneWithoutHoles(data);
  }

  // ---------------------------------------------------------------------------
  // cloneWithoutHoles

  /** The widest of the first `n` rows. */
  function WidthOf(data: Occupancy, n: nat): (w: nat)
    ensures forall y :: 0 <= y < n ==> Len(data, y) <= w
    ensures w == 0 || exists y :: 0 <= y < n && Len(data, y) == w
  {
    if n == 0 then 0 else Max(WidthOf(data, n - 1), Len(data, n - 1))
  }

  /** Number of positions of the widest row. */
  function Width(data: Occupancy): nat
  {
    WidthOf(data, data.length)
  }

  /**
   * What `cloneWithoutHoles` is for: the map as a rectangle, one row per row
   * of the map and as wide as its widest row, each position holding its list
   * or `null` where the map has a hole or a short row.
   */
  function WithoutHoles(data: Occupancy): (g: CellGrid)
    ensures |g| == data.length
    ensures forall y :: 0 <= y < |g| ==> |g[y]| == Width(data)
  {
    seq(data.length, y requires 0 <= y < data.length =>
      seq(Width(data), x requires 0 <= x < Width(data) =>
        if Occupied(data, y, x) then Some(At(data, y, x)) else None))
  }

  /** Every list of the map keeps its place in the rectangle, and every other position is `null`. */
  lemma WithoutHolesAt(data: Occupancy, y: nat, x: nat)
    requires Valid(data)
    ensures Occupied(data, y, x) ==> y < |WithoutHoles(data)| && x < |WithoutHoles(data)[y]| && WithoutHoles(data)[y][x] == Some(At(data, y, x))
    ensures y < data.length && x < Width(data) && !Occupied(data, y, x) ==> WithoutHoles(data)[y][x] == None
  {
    if Occupied(data, y, x) {
      assert Len(data, y) <= Width(data);
    }
  }

  /** The corrected copy: the holes-free rectangle, built with loops like those of lines 187-200. */
  method CloneWithoutHoles(data: Occupancy) returns (grid: CellGrid)
    ensures grid == WithoutHoles(data)
  {
    var width := 0;
    for y := 0 to data.length
      invariant width == WidthOf(data, y)
    {
      width := Max(width, Len(data, y));
    }
    grid := [];
    for i := 0 to data.length
      invariant |grid| == i
      invariant forall k :: 0 <= k < i ==> grid[k] == WithoutHoles(data)[k]
    {
      var line: seq<Option<seq<Placement>>> := [];
      for j := 0 to width
        invariant |line| == j
        invariant forall k :: 0 <= k < j ==> line[k] == WithoutHoles(data)[i][k]
      {
        var entry := if Occupied(data, i, j) then Some(At(data, i, j)) else None;
        line := line + [entry];
      }
      grid := grid + [line];
    }
  }

  /** `data[y]` as the sparse array it is. */
  function LineOf(data: Occupancy, y: nat): (line: Line)
    ensures |line| == Len(data, y)
  {
    seq(Len(data, y), x requires 0 <= x < Len(data, y) => if Occupied(data, y, x) then Filled(At(data, y, x)) else Hole)
  }

  /** `row.reduce((acc, row) => Math.max(acc, row.length), 0)`: the longest list of a line (holes are skipped). */
  function Longest(line: Line): (w: nat)
    ensures forall i :: 0 <= i < |line| && line[i].Filled? ==> |line[i].v| <= w
    ensures w == 0 || exists i :: 0 <= i < |line| && line[i].Filled? && |line[i].v| == w
  {
    if line == [] then 0
    else Max(Longest(line[..|line| - 1]), if line[|line| - 1].Filled? then |line[|line| - 1].v| else 0)
  }

  /**
   * Lines 188-199 as written, for one row of the map: as many rows as the row
   * has positions, each as wide as its longest list, holding the `j`-th cell
   * of position `i`; reading `row[i][j]` at a hole throws.
   */
  function CloneRow(line: Line): (r: Result<seq<seq<Option<Placement>>>, JsError>)
    ensures r.Err? <==> Longest(line) > 0 && exists i :: 0 <= i < |line| && line[i].Hole?
  {
    var width := Longest(line);
    if width > 0 && exists i :: 0 <= i < |line| && line[i].Hole? then Err(TypeError)
    else Ok(seq(|line|, i requires 0 <= i < |line| =>
      seq(width, j requires 0 <= j < width =>
        if line[i].Filled? && j < |line[i].v| then Some(line[i].v[j]) else None)))
  }

  /** `cloneWithoutHoles` as written, over the first `n` rows: `cellTable.map` keeps missing rows missing. */
  function ClonePerRow(data: Occupancy, n: nat): (r: Result<Cloned, JsError>)
    ensures r.Ok? ==> |r.value| == n
  {
    if n == 0 then Ok([])
    else match ClonePerRow(data, n - 1)
      case Err(e) => Err(e)
      case Ok(done) =>
        if n - 1 !in data.lens then Ok(done + [Hole])
        else match CloneRow(LineOf(data, n - 1))
          case Err(e) => Err(e)
          case Ok(rect) => Ok(done + [Filled(rect)])
  }

  /** Once a row throws, the whole map does. */
  lemma {:induction false} ClonePerRowThrows(data: Occupancy, n: nat, m: nat)
    requires n <= m && ClonePerRow(data, n).Err?
    ensures ClonePerRow(data, m) == Err(TypeError)
    decreases m - n
  {
    if n < m {
      ClonePerRowThrows(data, n, m - 1);
    } else {
      match ClonePerRow(data, m).error
      case TypeError =>
    }
  }

  /** The callback of lines 188-199 as written, for one row `row` of the map. */
  method CloneRowAsWritten(row: Line) returns (r: Result<seq<seq<Option<Placement>>>, JsError>)
    ensures r == CloneRow(row)
  {
    var width := 0;
    for k := 0 to |row|
      invariant width == Longest(row[..k])
    {
      assert row[..k + 1][..k] == row[..k];
      width := Max(width, if row[k].Filled? then |row[k].v| else 0);
    }
    assert row[..|row|] == row;
    var rect: seq<seq<Option<Placement>>> := [];
    for i := 0 to |row|
      invariant |rect| == i
      invariant forall k :: 0 <= k < i ==> row[k].Filled? || width == 0
      invariant forall k :: 0 <= k < i ==> |rect[k]| == width
      invariant forall k, j :: 0 <= k < i && 0 <= j < width ==>
        rect[k][j] == if row[k].Filled? && j < |row[k].v| then Some(row[k].v[j]) else None
    {
      var line: seq<Option<Placement>> := [];
      for j := 0 to width
        invariant |line| == j
        invariant j > 0 ==> row[i].Filled?
        invariant forall m :: 0 <= m < j ==> line[m] == if row[i].Filled? && m < |row[i].v| then Some(row[i].v[m]) else None
      {
        if row[i].Hole? {
          // `row[i]` is undefined, and `row[i][j]` throws
          assert width > 0 && 0 <= i < |row| && row[i].Hole?;
          return Err(TypeError);
        }
        line := line + [if j < |row[i].v| then Some(row[i].v[j]) else None];
      }
      rect := rect + [line];
    }
    assert CloneRow(row).Ok?;
    assert forall k :: 0 <= k < |row| ==> rect[k] == CloneRow(row).value[k];
    assert rect == CloneRow(row).value;
    return Ok(rect);
  }

  /** Lines 185-201 as written: `cellTable.map` keeps missing rows missing. */
  method CloneWithoutHolesAsWritten(cellTable: Occupancy) returns (r: Result<Cloned, JsError>)
    ensures r == ClonePerRow(cellTable, cellTable.length)
  {
    var out: Cloned := [];
    for y := 0 to cellTable.length
      invariant ClonePerRow(cellTable, y) == Ok(out)
    {
      if y !in cellTable.lens {
        out := out + [Hole];
      } else {
        var rect := CloneRowAsWritten(LineOf(cellTable, y));
        if rect.Err? {
          ClonePerRowThrows(cellTable, y + 1, cellTable.length);
          return Err(TypeError);
        }
        out := out + [Filled(rect.value)];
      }
    }
    return Ok(out);
  }

  // ---------------------------------------------------------------------------
  // validateCellData

  datatype CellDataError = Missing(y: nat, x: nat) | Overlapping(y: nat, x: nat)

  /** An item `validateCellData` rejects: `null`, or a list of more than one cell. Holes are never visited. */
  predicate Bad<T>(item: Slot<Option<seq<T>>>)
  {
    item.Filled? && (item.v.None? || |item.v.value| > 1)
  }

  /** The error thrown for a rejected item at `(y, x)`. */
  function Complaint<T>(item: Slot<Option<seq<T>>>, y: nat, x: nat): CellDataError
  {
    if item.Filled? && item.v.None? then Missing(y, x) else Overlapping(y, x)
  }

  /** The first rejected item of a row from index `x` on. */
  function FirstBad<T>(row: seq<Slot<Option<seq<T>>>>, x: nat): (k: Option<nat>)
    ensures k.Some? ==> x <= k.value < |row| && Bad(row[k.value]) && forall i :: x <= i < k.value ==> !Bad(row[i])
    ensures k.None? ==> forall i :: x <= i < |row| ==> !Bad(row[i])
    decreases |row| - x
  {
    if x >= |row| then None
    else if Bad(row[x]) then Some(x)
    else FirstBad(row, x + 1)
  }

  /** Rows `y` on of `validateCellData`: the first complaint, rows first and then columns. */
  function ValidateFrom<T>(rows: seq<Slot<seq<Slot<Option<seq<T>>>>>>, y: nat): (e: Option<CellDataError>)
    ensures e.None? <==>
      forall i, k :: y <= i < |rows| && rows[i].Filled? && 0 <= k < |rows[i].v| ==> !Bad(rows[i].v[k])
    ensures e.Some? ==>
      && y <= e.value.y < |rows| && rows[e.value.y].Filled?
      && e.value.x < |rows[e.value.y].v| && Bad(rows[e.value.y].v[e.value.x])
      && e.value == Complaint(rows[e.value.y].v[e.value.x], e.value.y, e.value.x)
      && (forall i, k :: y <= i < e.value.y && rows[i].Filled? && 0 <= k < |rows[i].v| ==> !Bad(rows[i].v[k]))
      && (forall k :: 0 <= k < e.value.x ==> !Bad(rows[e.value.y].v[k]))
    decreases |rows| - y
  {
    if y >= |rows| then None
    else if rows[y].Filled? && FirstBad(rows[y].v, 0).Some? then
      var x := FirstBad(rows[y].v, 0).value;
      Some(Complaint(rows[y].v[x], y, x))
    else ValidateFrom(rows, y + 1)
  }

  /** `validateCellData(rows)`: the error it throws, or `None` when it returns. */
  function ValidateCellData<T>(rows: seq<Slot<seq<Slot<Option<seq<T>>>>>>): Option<CellDataError>
  {
    ValidateFrom(rows, 0)
  }

  /** A rectangle without holes, as `validateCellData` sees it. */
  function Solid<T>(g: seq<seq<Option<seq<T>>>>): (rows: seq<Slot<seq<Slot<Option<seq<T>>>>>>)
    ensures |rows| == |g|
    ensures forall y :: 0 <= y < |g| ==> rows[y].Filled? && |rows[y].v| == |g[y]|
    ensures forall y, x :: 0 <= y < |g| && 0 <= x < |g[y]| ==> rows[y].v[x] == Filled(g[y][x])
  {
    seq(|g|, y requires 0 <= y < |g| => Filled(seq(|g[y]|, x requires 0 <= x < |g[y]| => Filled(g[y][x]))))
  }

  /**
   * Validating the holes-free map accepts exactly when every position of the
   * rectangle is covered by at most one cell and by at least one.
   */
  lemma ValidateWithoutHoles(data: Occupancy)
    ensures ValidateCellData(Solid(WithoutHoles(data))) == None <==>
      forall y: nat, x: nat :: y < data.length && x < Width(data) ==> Occupied(data, y, x) && |At(data, y, x)| <= 1
  {
    var rows := Solid(WithoutHoles(data));
    if ValidateCellData(rows) == None {
      forall y: nat, x: nat | y < data.length && x < Width(data)
        ensures Occupied(data, y, x) && |At(data, y, x)| <= 1
      {
        assert !Bad(rows[y].v[x]);
      }
    } else {
      var e := ValidateCellData(rows).value;
      assert Bad(rows[e.y].v[e.x]);
    }
  }

  /**
   * `buildCellTable` with the corrected copy, followed by `validateCellData`,
   * accepts exactly when every position of the rectangle is covered by exactly
   * one cell.
   */
  lemma ValidateCellTable(rows: Rows)
    ensures var data := Occupy(Infos(rows));
      ValidateCellData(Solid(WithoutHoles(data))) == None <==>
        forall y: nat, x: nat :: y < data.length && x < Width(data) ==> |At(data, y, x)| == 1
  {
    var data := Occupy(Infos(rows));
    OccupyTagged(Infos(rows));
    ValidateWithoutHoles(data);
  }

  /** Row `y` of the copy as written: a hole for a missing row, otherwise the rectangle `CloneRow` makes of it. */
  lemma {:induction false} ClonePerRowAt(data: Occupancy, n: nat, y: nat)
    requires ClonePerRow(data, n).Ok? && y < n
    ensures y !in data.lens ==> ClonePerRow(data, n).value[y] == Hole
    ensures y in data.lens ==> CloneRow(LineOf(data, y)).Ok? && ClonePerRow(data, n).value[y] == Filled(CloneRow(LineOf(data, y)).value)
  {
    var done := ClonePerRow(data, n - 1);
    if y < n - 1 {
      ClonePerRowAt(data, n - 1, y);
      assert ClonePerRow(data, n).value[y] == done.value[y];
    }
  }

  /**
   * The copy as written, as `validateCellData` walks it: each item is a list
   * padded to the longest of its row, an array and so never `null`.
   */
  function Items(out: Cloned): (rows: seq<Slot<seq<Slot<Option<seq<Option<Placement>>>>>>>)
    ensures |rows| == |out|
  {
    seq(|out|, y requires 0 <= y < |out| =>
      if out[y].Hole? then Hole else Filled(seq(|out[y].v|, i requires 0 <= i < |out[y].v| => Filled(Some(out[y].v[i])))))
  }

  /** In the copy of an existing row, every item is as long as the row's longest list. */
  lemma ItemAt(data: Occupancy, y: nat, i: nat)
    requires Valid(data) && ClonePerRow(data, data.length).Ok? && y in data.lens && i < Len(data, y)
    ensures var rows := Items(ClonePerRow(data, data.length).value);
      && y < |rows| && rows[y].Filled? && i < |rows[y].v|
      && rows[y].v[i].Filled? && rows[y].v[i].v.Some?
      && |rows[y].v[i].v.value| == Longest(LineOf(data, y))
  {
    ClonePerRowAt(data, data.length, y);
  }

  /**
   * `buildCellTable` followed by `validateCellData`, both as written (lines
   * 156, 185-201 and 236-243): since every item is a padded list, the validation
   * never reports a missing cell; it fails exactly when some position is
   * covered by two cells or more, and then reports column 0 of the first
   * such row.
   */
  lemma ClonedValidation(data: Occupancy)
    requires Valid(data) && ClonePerRow(data, data.length).Ok?
    ensures var e := ValidateCellData(Items(ClonePerRow(data, data.length).value));
      && (e.None? <==> forall y: nat, x: nat :: Occupied(data, y, x) ==> |At(data, y, x)| <= 1)
      && (e.Some? ==> e.value == Overlapping(e.value.y, 0))
  {
    var rows := Items(ClonePerRow(data, data.length).value);
    var e := ValidateCellData(rows);
    if e.None? {
      forall y: nat, x: nat | Occupied(data, y, x)
        ensures |At(data, y, x)| <= 1
      {
        ItemAt(data, y, x);
        assert LineOf(data, y)[x] == Filled(At(data, y, x));
        assert !Bad(rows[y].v[x]);
      }
    } else {
      var y, x := e.value.y, e.value.x;
      ClonePerRowAt(data, data.length, y);
      assert y in data.lens && x < Len(data, y);
      ItemAt(data, y, x);
      var line := LineOf(data, y);
      var i :| 0 <= i < |line| && line[i].Filled? && |line[i].v| == Longest(line);
      assert Occupied(data, y, i) && |At(data, y, i)| > 1;
      if x > 0 {
        // the item at column 0 is as long, so it was rejected first
        ItemAt(data, y, 0);
      }
    }
  }

  // ---------------------------------------------------------------------------
  // buildColumnData

  /** A `col` or `colgroup` element: identity, tag name, whether it has a `span` attribute, its `span`, its element children. */
  datatype ColElement = ColElement(id: nat, tag: string, hasSpan: bool, span: nat, children: seq<ColElement>)

  /** `{col, x}`: one column and the element that spans it. */
  datatype ColumnEntry = ColumnEntry(col: ColElement, x: nat)

  /** `String.prototype.toLowerCase` on the ASCII letters tag names are made of. */
  function LowerAscii(s: string): (t: string)
    ensures |t| == |s|
  {
    if s == [] then []
    else [if 'A' <= s[0] <= 'Z' then (s[0] as int + 32) as char else s[0]] + LowerAscii(s[1..])
  }

  /** Line 166: a `colgroup` without a `span` attribute stands for its children. */
  predicate Unspanned(c: ColElement)
  {
    LowerAscii(c.tag) == "colgroup" && !c.hasSpan
  }

  /** What one element contributes to the flattened list (lines 166-170). */
  function Piece(c: ColElement): seq<ColElement>
  {
    if Unspanned(c) then c.children else [c]
  }

  /** Each element of `s` replaced by the list `f` makes of it, in order. */
  function FlatMap<T, U>(s: seq<T>, f: T -> seq<U>): seq<U>
  {
    if s == [] then [] else FlatMap(s[..|s| - 1], f) + f(s[|s| - 1])
  }

  /** A flat map goes element by element: that of a list is that of its two parts, joined. */
  lemma {:induction false} FlatMapSplit<T, U>(s: seq<T>, f: T -> seq<U>, k: nat)
    requires k <= |s|
    ensures FlatMap(s, f) == FlatMap(s[..k], f) + FlatMap(s[k..], f)
  {
    if k == |s| {
      assert s[..k] == s;
      assert s[k..] == [];
    } else {
      var n := |s| - 1;
      var front, back := s[..n], s[k..];
      FlatMapSplit(front, f, k);
      assert front[..k] == s[..k];
      assert back[..|back| - 1] == front[k..];
      assert back[|back| - 1] == s[n];
    }
  }

  /** Lines 163-171: the elements with span values. */
  function Flatten(cols: seq<ColElement>): seq<ColElement>
  {
    FlatMap(cols, Piece)
  }

  /** A bare `colgroup` is replaced by its children and any other element is kept as itself. */
  lemma FlattenAt(cols: seq<ColElement>, m: nat)
    requires m < |cols|
    ensures Flatten(cols) == Flatten(cols[..m]) + (if Unspanned(cols[m]) then cols[m].children else [cols[m]]) + Flatten(cols[m + 1..])
  {
    FlatMapSplit(cols, Piece, m + 1);
    assert cols[..m + 1][..m] == cols[..m];
  }

  /** Sum of the spans of a list of elements. */
  function SpanSum(cols: seq<ColElement>): nat
  {
    if cols == [] then 0 else SpanSum(cols[..|cols| - 1]) + cols[|cols| - 1].span
  }

  /** Lines 173-182: `span` entries per element, each numbered with its index. */
  function Expand(cols: seq<ColElement>): (r: seq<ColumnEntry>)
  {
    if cols == [] then []
    else
      var done := Expand(cols[..|cols| - 1]);
      var c := cols[|cols| - 1];
      done + seq(c.span, i requires 0 <= i < c.span => ColumnEntry(c, |done| + i))
  }

  /** The list has one entry per spanned column, and the `k`-th entry has `x == k`. */
  lemma {:induction false} ExpandIndexed(cols: seq<ColElement>)
    ensures |Expand(cols)| == SpanSum(cols)
    ensures forall k :: 0 <= k < |Expand(cols)| ==> Expand(cols)[k].x == k
  {
    if cols != [] {
      ExpandIndexed(cols[..|cols| - 1]);
    }
  }

  /** Element `m` owns the `span` consecutive entries starting at the sum of the spans before it. */
  lemma {:induction false} ExpandBlock(cols: seq<ColElement>, m: nat, i: nat)
    requires m < |cols| && i < cols[m].span
    ensures SpanSum(cols[..m]) + i < |Expand(cols)|
    ensures Expand(cols)[SpanSum(cols[..m]) + i] == ColumnEntry(cols[m], SpanSum(cols[..m]) + i)
  {
    var n := |cols| - 1;
    ExpandIndexed(cols[..n]);
    ExpandIndexed(cols);
    if m < n {
      assert cols[..n][..m] == cols[..m];
      ExpandBlock(cols[..n], m, i);
    } else {
      assert cols[..n] == cols[..m];
    }
  }

  /** `buildColumnData(columns)`. */
  method BuildColumnData(columns: seq<ColElement>) returns (acc: seq<ColumnEntry>)
    ensures acc == Expand(Flatten(columns))
  {
    var flat := Flatten(columns);
    acc := [];
    for n := 0 to |flat|
      invariant acc == Expand(flat[..n])
    {
      var col := flat[n];
      ghost var done := acc;
      for i := 0 to col.span
        invariant |acc| == |done| + i
        invariant acc == done + seq(i, k requires 0 <= k < i => ColumnEntry(col, |done| + k))
      {
        acc := acc + [ColumnEntry(col, |acc|)];
      }
      assert flat[..n + 1][..n] == flat[..n];
    }
    assert flat[..|flat|] == flat;
  }

  // ---------------------------------------------------------------------------
  // A table that cloneWithoutHoles as written cannot copy

  /** Two rows: the first has a cell and a cell with `colSpan` 2, the second is empty. */
  function GapRows(): Rows
  {
    [[Cell(0, "TD", 1, 1, ""), Cell(1, "TD", 1, 2, "")], []]
  }

  /** The map `buildCellTable` builds for `GapRows()`: nothing covers position 0 of row 1. */
  function GapData(): Occupancy
  {
    var a, b := GapRows()[0][0], GapRows()[0][1];
    Occupancy(2, map[0 := 2, 1 := 2], map[(0, 0) := [Mark(a, 0, 0, 0)], (0, 1) := [Mark(b, 0, 0, 1)], (1, 1) := [Mark(b, 1, 1, 1)]])
  }

  lemma GapInfos()
    ensures Infos(GapRows()) == [Info(GapRows()[0][0], 0, 0), Info(GapRows()[0][1], 1, 0)]
  {
    var rows := GapRows();
    assert rows[..1] == [rows[0]];
    assert [rows[0]][..0] == [];
    assert RowInfos(rows[0], 0) == [Info(rows[0][0], 0, 0), Info(rows[0][1], 1, 0)];
  }

  lemma GapFirst()
    ensures Occupy([Info(GapRows()[0][0], 0, 0)]) == Occupancy(1, map[0 := 1], map[(0, 0) := [Mark(GapRows()[0][0], 0, 0, 0)]])
  {
    var a := GapRows()[0][0];
    var empty := Occupancy(0, map[], map[]);
    assert [Info(a, 0, 0)][..0] == [];
    assert Occupy([]) == empty;
    assert BaseX(empty, 0, 0) == 0;
    assert StampRow(empty, a, 0, 0, 0, 1) == Put(empty, 0, 0, Mark(a, 0, 0, 0));
    assert Place(empty, Info(a, 0, 0)) == Put(empty, 0, 0, Mark(a, 0, 0, 0));
    assert Put(empty, 0, 0, Mark(a, 0, 0, 0)).lens == map[0 := 1];
    assert At(empty, 0, 0) + [Mark(a, 0, 0, 0)] == [Mark(a, 0, 0, 0)];
    assert Put(empty, 0, 0, Mark(a, 0, 0, 0)).lists == map[(0, 0) := [Mark(a, 0, 0, 0)]];
  }

  lemma GapOccupancy()
    ensures Occupy(Infos(GapRows())) == GapData()
  {
    var a, b := GapRows()[0][0], GapRows()[0][1];
    GapInfos();
    GapFirst();
    var infos := [Info(a, 0, 0), Info(b, 1, 0)];
    assert infos[..1] == [Info(a, 0, 0)];
    var d1 := Occupancy(1, map[0 := 1], map[(0, 0) := [Mark(a, 0, 0, 0)]]);
    assert BaseX(d1, 0, 1) == 1;
    var d2 := Put(d1, 0, 1, Mark(b, 0, 0, 1));
    assert StampRect(d1, b, 0, 1, 1) == d2 by {
      assert StampRow(d1, b, 0, 1, 0, 1) == d2;
    }
    var d3 := Put(d2, 1, 1, Mark(b, 1, 1, 1));
    assert StampRect(d1, b, 0, 1, 2) == d3 by {
      assert StampRow(d2, b, 0, 1, 1, 1) == d3;
    }
    assert Occupy(infos) == Place(d1, Info(b, 1, 0));
    assert Place(d1, Info(b, 1, 0)) == d3;
    assert At(d1, 0, 1) + [Mark(b, 0, 0, 1)] == [Mark(b, 0, 0, 1)];
    assert d2.lists == map[(0, 0) := [Mark(a, 0, 0, 0)], (0, 1) := [Mark(b, 0, 0, 1)]];
    assert At(d2, 1, 1) + [Mark(b, 1, 1, 1)] == [Mark(b, 1, 1, 1)];
    assert d3.lens == GapData().lens;
    assert d3.lists == GapData().lists;
  }

  /** `cloneWithoutHoles` as written throws on the map of `GapRows()`. */
  lemma GapClone()
    ensures ClonePerRow(GapData(), 2) == Err(TypeError)
  {
    var data := GapData();
    var line := LineOf(data, 1);
    assert line == [Hole, Filled(data.lists[(1, 1)])];
    assert Longest(line) == 1 by {
      assert line[..1] == [Hole] && line[..1][..0] == [];
    }
    assert CloneRow(line).Err?;
    ClonePerRowThrows(data, 2, 2);
  }

  /** The holes-free copy of the map of `GapRows()` is rejected for the missing cell at row 1, position 0. */
  lemma GapValidate()
    ensures ValidateCellData(Solid(WithoutHoles(GapData()))) == Some(Missing(1, 0))
  {
    var data := GapData();
    assert Width(data) == 2;
    var rows := Solid(WithoutHoles(data));
    assert !Bad(rows[0].v[0]) && !Bad(rows[0].v[1]);
    assert Bad(rows[1].v[0]);
  }

  /**
   * The second cell reaches into row 1 at position 1 and nothing covers
   * position 0 there: `cloneWithoutHoles` as written reads that hole and
   * throws, where the holes-free copy lets `validateCellData` report the
   * missing cell.
   */
  lemma GapRowsThrow()
    ensures var data := Occupy(Infos(GapRows()));
      ClonePerRow(data, data.length) == Err(TypeError) && ValidateCellData(Solid(WithoutHoles(data))) == Some(Missing(1, 0))
  {
    GapOccupancy();
    GapClone();
    GapValidate();
  }

  // ---------------------------------------------------------------------------
  // A table the two copies judge differently

  /** Two rows: a cell with `colSpan` 2, then a plain cell. */
  function ShortRows(): Rows
  {
    [[Cell(0, "TD", 1, 2, "")], [Cell(1, "TD", 1, 1, "")]]
  }

  /**
   * The map `buildCellTable` builds for `ShortRows()`: the first cell covers
   * position 0 of rows 0 and 1 (the spans swapped), the second moves on to
   * position 1 of row 1, and row 0 has one position only.
   */
  function ShortData(): Occupancy
  {
    var a, b := ShortRows()[0][0], ShortRows()[1][0];
    Occupancy(2, map[0 := 1, 1 := 2], map[(0, 0) := [Mark(a, 0, 0, 0)], (1, 0) := [Mark(a, 1, 1, 0)], (1, 1) := [Mark(b, 0, 1, 1)]])
  }

  lemma ShortInfos()
    ensures Infos(ShortRows()) == [Info(ShortRows()[0][0], 0, 0), Info(ShortRows()[1][0], 0, 1)]
  {
    var rows := ShortRows();
    assert rows[..1] == [rows[0]];
    assert [rows[0]][..0] == [];
    assert RowInfos(rows[0], 0) == [Info(rows[0][0], 0, 0)];
    assert RowInfos(rows[1], 1) == [Info(rows[1][0], 0, 1)];
  }

  lemma ShortFirst()
    ensures var a := ShortRows()[0][0];
      Occupy([Info(a, 0, 0)]) == Occupancy(2, map[0 := 1, 1 := 1], map[(0, 0) := [Mark(a, 0, 0, 0)], (1, 0) := [Mark(a, 1, 1, 0)]])
  {
    var a := ShortRows()[0][0];
    var empty := Occupancy(0, map[], map[]);
    assert [Info(a, 0, 0)][..0] == [];
    assert Occupy([]) == empty;
    assert BaseX(empty, 0, 0) == 0;
    var d1 := Put(empty, 0, 0, Mark(a, 0, 0, 0));
    assert StampRect(empty, a, 0, 0, 1) == d1 by {
      assert StampRow(empty, a, 0, 0, 0, 1) == d1;
    }
    var d2 := Put(d1, 1, 0, Mark(a, 1, 1, 0));
    assert StampRect(empty, a, 0, 0, 2) == d2 by {
      assert StampRow(d1, a, 0, 0, 1, 1) == d2;
    }
    assert At(empty, 0, 0) + [Mark(a, 0, 0, 0)] == [Mark(a, 0, 0, 0)];
    assert d1.lists == map[(0, 0) := [Mark(a, 0, 0, 0)]];
    assert At(d1, 1, 0) + [Mark(a, 1, 1, 0)] == [Mark(a, 1, 1, 0)];
    assert d2.lens == map[0 := 1, 1 := 1];
    assert d2.lists == map[(0, 0) := [Mark(a, 0, 0, 0)], (1, 0) := [Mark(a, 1, 1, 0)]];
  }

  lemma ShortOccupancy()
    ensures Occupy(Infos(ShortRows())) == ShortData()
  {
    var a, b := ShortRows()[0][0], ShortRows()[1][0];
    ShortInfos();
    ShortFirst();
    var infos := [Info(a, 0, 0), Info(b, 0, 1)];
    assert infos[..1] == [Info(a, 0, 0)];
    var d2 := Occupancy(2, map[0 := 1, 1 := 1], map[(0, 0) := [Mark(a, 0, 0, 0)], (1, 0) := [Mark(a, 1, 1, 0)]]);
    assert BaseX(d2, 1, 0) == 1;
    var d3 := Put(d2, 1, 1, Mark(b, 0, 1, 1));
    assert StampRect(d2, b, 1, 1, 1) == d3 by {
      assert StampRow(d2, b, 1, 1, 0, 1) == d3;
    }
    assert Occupy(infos) == Place(d2, Info(b, 0, 1));
    assert Place(d2, Info(b, 0, 1)) == d3;
    assert At(d2, 1, 1) + [Mark(b, 0, 1, 1)] == [Mark(b, 0, 1, 1)];
    assert d3.lens == ShortData().lens;
    assert d3.lists == ShortData().lists;
  }

  /** `cloneWithoutHoles` as written copies the map of `ShortRows()`, and `validateCellData` accepts the copy. */
  lemma ShortClone()
    ensures ClonePerRow(ShortData(), 2).Ok?
    ensures ValidateCellData(Items(ClonePerRow(ShortData(), 2).value)) == None
  {
    var data := ShortData();
    ShortRowsCopied();
    ShortSingle();
    ClonedValidation(data);
  }

  lemma ShortRowsCopied()
    ensures ClonePerRow(ShortData(), 2).Ok?
  {
    var data := ShortData();
    assert LineOf(data, 0) == [Filled(At(data, 0, 0))];
    assert LineOf(data, 1) == [Filled(At(data, 1, 0)), Filled(At(data, 1, 1))];
    assert ClonePerRow(data, 1).Ok?;
  }

  lemma ShortSingle()
    ensures forall y: nat, x: nat :: Occupied(ShortData(), y, x) ==> |At(ShortData(), y, x)| <= 1
  {
  }

  /** The holes-free copy of the map of `ShortRows()` is rejected for the missing cell at row 0, position 1. */
  lemma ShortValidate()
    ensures ValidateCellData(Solid(WithoutHoles(ShortData()))) == Some(Missing(0, 1))
  {
    var data := ShortData();
    assert Width(data) == 2;
    var rows := Solid(WithoutHoles(data));
    assert !Bad(rows[0].v[0]);
    assert Bad(rows[0].v[1]);
  }

  /**
   * No position of `ShortRows()` is covered twice, but row 0 is one position
   * short. As written, `cloneWithoutHoles` keeps each row as long as it is and
   * `validateCellData` accepts; the holes-free rectangle is two positions wide,
   * and `validateCellData` rejects it for the missing cell at row 0, position 1.
   */
  lemma ShortRowsAccepted()
    ensures var data := Occupy(Infos(ShortRows()));
      && ClonePerRow(data, data.length).Ok?
      && ValidateCellData(Items(ClonePerRow(data, data.length).value)) == None
      && ValidateCellData(Solid(WithoutHoles(data))) == Some(Missing(0, 1))
  {
    ShortOccupancy();
    ShortClone();
    ShortValidate();
  }
}

/**
 * The table as the document holds it: `tableEl.rows` in document order (header,
 * body and footer rows in one sequence), each row the list of its cell
 * elements. A cell element is identified by `id` (its object identity); the
 * other fields are the properties the table code reads and writes.
 */
module Cells {
  import opened Basics

  /** A `td`/`th` element: identity, tag name, `rowSpan`, `colSpan` and its content. */
  datatype Cell = Cell(id: nat, tag: string, rowSpan: nat, colSpan: nat, content: string)

  type Rows = seq<seq<Cell>>

  /** Every cell spans at least one row and one column. */
  predicate Spanned(rows: Rows)
  {
    forall r, k :: 0 <= r < |rows| && 0 <= k < |rows[r]| ==> rows[r][k].rowSpan >= 1 && rows[r][k].colSpan >= 1
  }

  /** Two positions hold the same element only if they are the same position. */
  predicate UniqueIds(rows: Rows)
  {
    forall r1, k1, r2, k2 |
      0 <= r1 < |rows| && 0 <= k1 < |rows[r1]| && 0 <= r2 < |rows| && 0 <= k2 < |rows[r2]| ::
      rows[r1][k1].id == rows[r2][k2].id ==> r1 == r2 && k1 == k2
  }

  /** The element `id` is in the table. */
  predicate Has(rows: Rows, id: nat)
  {
    exists r, k :: 0 <= r < |rows| && 0 <= k < |rows[r]| && rows[r][k].id == id
  }

  /** Number of cell elements in the table. */
  function Count(rows: Rows): nat
  {
    if rows == [] then 0 else Count(rows[..|rows| - 1]) + |rows[|rows| - 1]|
  }

  /** Index of the element `id` in one row. */
  function IndexOf(row: seq<Cell>, id: nat): (k: Option<nat>)
    ensures k.Some? ==> k.value < |row| && row[k.value].id == id
    ensures k.None? ==> forall j :: 0 <= j < |row| ==> row[j].id != id
  {
    if row == [] then None
    else if row[0].id == id then Some(0)
    else match IndexOf(row[1..], id)
      case None => None
      case Some(j) => Some(j + 1)
  }

  /** Row and index of the element `id`: its `parentElement` and its place among the siblings. */
  function Locate(rows: Rows, id: nat): (p: Option<(nat, nat)>)
    ensures p.Some? ==> p.value.0 < |rows| && p.value.1 < |rows[p.value.0]| && rows[p.value.0][p.value.1].id == id
    ensures p.None? <==> !Has(rows, id)
  {
    if rows == [] then None
    else match IndexOf(rows[0], id)
      case Some(k) => Some((0, k))
      case None =>
        match Locate(rows[1..], id)
        case None => None
        case Some(p) =>
          assert rows[1..][p.0] == rows[p.0 + 1];
          Some((p.0 + 1, p.1))
  }

  /** The cell at position `(r, k)` replaced by `c`. */
  function SetAt(rows: Rows, r: nat, k: nat, c: Cell): Rows
    requires r < |rows| && k < |rows[r]|
  {
    rows[r := rows[r][k := c]]
  }

  /** `removeChild`: the cell at `(r, k)` leaves its row. */
  function RemoveAt(rows: Rows, r: nat, k: nat): Rows
    requires r < |rows| && k < |rows[r]|
  {
    rows[r := rows[r][..k] + rows[r][k + 1..]]
  }

  /** `insertBefore`: the cells `cs` enter row `r` before index `k` (at the end when `k` is the length). */
  function InsertAt(rows: Rows, r: nat, k: nat, cs: seq<Cell>): Rows
    requires r < |rows| && k <= |rows[r]|
  {
    rows[r := rows[r][..k] + cs + rows[r][k..]]
  }

  /** Replacing one row changes the count by the difference of the row lengths. */
  lemma {:induction false} CountReplaceRow(rows: Rows, r: nat, row: seq<Cell>)
    requires r < |rows|
    ensures Count(rows[r := row]) == Count(rows) - |rows[r]| + |row|
  {
    var n := |rows| - 1;
    var rows' := rows[r := row];
    assert rows'[..n] == if r == n then rows[..n] else rows[..n][r := row];
    if r < n {
      CountReplaceRow(rows[..n], r, row);
    }
  }

  lemma SetAtCount(rows: Rows, r: nat, k: nat, c: Cell)
    requires r < |rows| && k < |rows[r]|
    ensures Count(SetAt(rows, r, k, c)) == Count(rows) && |SetAt(rows, r, k, c)| == |rows|
  {
    CountReplaceRow(rows, r, rows[r][k := c]);
  }

  /** `removeChild` takes exactly one cell out of the table and keeps every row. */
  lemma RemoveAtCount(rows: Rows, r: nat, k: nat)
    requires r < |rows| && k < |rows[r]|
    ensures Count(RemoveAt(rows, r, k)) == Count(rows) - 1 && |RemoveAt(rows, r, k)| == |rows|
  {
    CountReplaceRow(rows, r, rows[r][..k] + rows[r][k + 1..]);
  }

  lemma InsertAtCount(rows: Rows, r: nat, k: nat, cs: seq<Cell>)
    requires r < |rows| && k <= |rows[r]|
    ensures Count(InsertAt(rows, r, k, cs)) == Count(rows) + |cs| && |InsertAt(rows, r, k, cs)| == |rows|
  {
    CountReplaceRow(rows, r, rows[r][..k] + cs + rows[r][k..]);
  }

  /** With unique ids, `Locate` finds the one position that holds the element. */
  lemma LocateUnique(rows: Rows, r: nat, k: nat)
    requires UniqueIds(rows) && r < |rows| && k < |rows[r]|
    ensures Locate(rows, rows[r][k].id) == Some((r, k))
  {
  }

  /** Where the cell at `p` sits once the cell at `q` has left its row: one place further left when it followed `q`. */
  function AfterRemoval(p: (nat, nat), q: (nat, nat)): (nat, nat)
  {
    if p.0 == q.0 && q.1 < p.1 then (p.0, p.1 - 1) else p
  }

  /** `a` and `b` have the same number of rows and agree on every row except `r1` and `r2`. */
  predicate SameRowsExcept(a: Rows, b: Rows, r1: nat, r2: nat)
  {
    |a| == |b| && forall j :: 0 <= j < |a| && j != r1 && j != r2 ==> a[j] == b[j]
  }

  /** Writing back a cell under its own id moves no element. */
  lemma LocateSetAt(rows: Rows, r: nat, k: nat, c: Cell, id: nat)
    requires r < |rows| && k < |rows[r]| && c.id == rows[r][k].id
    requires UniqueIds(SetAt(rows, r, k, c)) && Has(rows, id)
    ensures Locate(SetAt(rows, r, k, c), id) == Locate(rows, id)
  {
    var q := Locate(rows, id).value;
    LocateUnique(SetAt(rows, r, k, c), q.0, q.1);
  }

  /** After `removeChild`, every other element keeps its row and shifts left when it followed the removed one. */
  lemma LocateRemoveAt(rows: Rows, r: nat, k: nat, id: nat)
    requires r < |rows| && k < |rows[r]| && UniqueIds(RemoveAt(rows, r, k))
    requires Has(rows, id) && Locate(rows, id) != Some((r, k))
    ensures Locate(RemoveAt(rows, r, k), id) == Some(AfterRemoval(Locate(rows, id).value, (r, k)))
  {
    var p := Locate(rows, id).value;
    var p' := AfterRemoval(p, (r, k));
    assert RemoveAt(rows, r, k)[p'.0][p'.1] == rows[p.0][p.1];
    LocateUnique(RemoveAt(rows, r, k), p'.0, p'.1);
  }

  /** Writes to two different positions commute. */
  lemma SetAtSwap(rows: Rows, r1: nat, k1: nat, c1: Cell, r2: nat, k2: nat, c2: Cell)
    requires r1 < |rows| && k1 < |rows[r1]| && r2 < |rows| && k2 < |rows[r2]| && (r1, k1) != (r2, k2)
    ensures SetAt(SetAt(rows, r1, k1, c1), r2, k2, c2) == SetAt(SetAt(rows, r2, k2, c2), r1, k1, c1)
  {
    if r1 == r2 {
      assert rows[r1][k1 := c1][k2 := c2] == rows[r1][k2 := c2][k1 := c1];
    }
  }

  /** Removing a position makes whatever was written there irrelevant. */
  lemma RemoveSetAt(rows: Rows, r: nat, k: nat, c: Cell)
    requires r < |rows| && k < |rows[r]|
    ensures RemoveAt(SetAt(rows, r, k, c), r, k) == RemoveAt(rows, r, k)
  {
    var s := rows[r][k := c];
    assert s[..k] == rows[r][..k] && s[k + 1..] == rows[r][k + 1..];
  }

  // ---------------------------------------------------------------------------
  // Fresh elements

  /** Every element id is below `next`: ids from `next` on are unused. */
  predicate Below(rows: Rows, next: nat)
  {
    forall r, k :: 0 <= r < |rows| && 0 <= k < |rows[r]| ==> rows[r][k].id < next
  }

  /**
   * What the document guarantees of a table: the `rowSpan`/`colSpan`
   * properties read at least 1 (the DOM clamps 0 to 1), every element is in
   * one place, and `next` is an id no element has yet.
   */
  predicate Sound(rows: Rows, next: nat)
  {
    Spanned(rows) && UniqueIds(rows) && Below(rows, next)
  }

  /** Ids from `next` on being unused, so are those from any later id. */
  lemma SoundLater(rows: Rows, next: nat, next': nat)
    requires Sound(rows, next) && next <= next'
    ensures Sound(rows, next')
  {
  }

  /** Writing back a cell under its own id, or a new element under the next id, keeps the table sound. */
  lemma SetAtSound(rows: Rows, next: nat, r: nat, k: nat, c: Cell, next': nat)
    requires Sound(rows, next) && r < |rows| && k < |rows[r]|
    requires c.rowSpan >= 1 && c.colSpan >= 1
    requires (c.id == rows[r][k].id && next' == next) || (c.id == next && next' == next + 1)
    ensures Sound(SetAt(rows, r, k, c), next')
  {
    var rows': Rows := SetAt(rows, r, k, c);
    forall r1, k1, r2, k2 |
      0 <= r1 < |rows'| && 0 <= k1 < |rows'[r1]| && 0 <= r2 < |rows'| && 0 <= k2 < |rows'[r2]| &&
      rows'[r1][k1].id == rows'[r2][k2].id
      ensures r1 == r2 && k1 == k2
    {
    }
  }

  /** Removing a cell keeps the table sound. */
  lemma RemoveAtSound(rows: Rows, next: nat, r: nat, k: nat)
    requires Sound(rows, next) && r < |rows| && k < |rows[r]|
    ensures Sound(RemoveAt(rows, r, k), next)
  {
    var rows': Rows := RemoveAt(rows, r, k);
    assert forall j :: 0 <= j < |rows'[r]| ==> rows'[r][j] == rows[r][if j < k then j else j + 1];
    forall r1, k1, r2, k2 |
      0 <= r1 < |rows'| && 0 <= k1 < |rows'[r1]| && 0 <= r2 < |rows'| && 0 <= k2 < |rows'[r2]| &&
      rows'[r1][k1].id == rows'[r2][k2].id
      ensures r1 == r2 && k1 == k2
    {
      var j1 := if r1 == r && k1 >= k then k1 + 1 else k1;
      var j2 := if r2 == r && k2 >= k then k2 + 1 else k2;
      assert rows'[r1][k1] == rows[r1][j1] && rows'[r2][k2] == rows[r2][j2];
    }
  }

  /** Inserting one new element under the next id keeps the table sound. */
  lemma InsertAtSound(rows: Rows, next: nat, r: nat, k: nat, c: Cell)
    requires Sound(rows, next) && r < |rows| && k <= |rows[r]|
    requires c.rowSpan >= 1 && c.colSpan >= 1 && c.id == next
    ensures Sound(InsertAt(rows, r, k, [c]), next + 1)
  {
    var rows': Rows := InsertAt(rows, r, k, [c]);
    assert forall j :: 0 <= j < |rows'[r]| && j != k ==> rows'[r][j] == rows[r][if j < k then j else j - 1];
    assert rows'[r][k] == c;
    forall r1, k1, r2, k2 |
      0 <= r1 < |rows'| && 0 <= k1 < |rows'[r1]| && 0 <= r2 < |rows'| && 0 <= k2 < |rows'[r2]| &&
      rows'[r1][k1].id == rows'[r2][k2].id
      ensures r1 == r2 && k1 == k2
    {
      if !(r1 == r && k1 == k) && !(r2 == r && k2 == k) {
        var j1 := if r1 == r && k1 > k then k1 - 1 else k1;
        var j2 := if r2 == r && k2 > k then k2 - 1 else k2;
        assert rows'[r1][k1] == rows[r1][j1] && rows'[r2][k2] == rows[r2][j2];
      }
    }
    forall r1, k1 | 0 <= r1 < |rows'| && 0 <= k1 < |rows'[r1]|
      ensures rows'[r1][k1].id < next + 1 && rows'[r1][k1].rowSpan >= 1 && rows'[r1][k1].colSpan >= 1
    {
      if !(r1 == r && k1 == k) {
        var j1 := if r1 == r && k1 > k then k1 - 1 else k1;
        assert rows'[r1][k1] == rows[r1][j1];
      }
    }
  }

  // ---------------------------------------------------------------------------
  // The table as a set of elements

  /** The ids of the elements in the table. */
  function Ids(rows: Rows): (ids: set<nat>)
    ensures forall id :: id in ids <==> Has(rows, id)
  {
    set r, k | 0 <= r < |rows| && 0 <= k < |rows[r]| :: rows[r][k].id
  }

  /** The element `id`, wherever it is. */
  function CellOf(rows: Rows, id: nat): (c: Cell)
    requires Has(rows, id)
    ensures c.id == id
  {
    var p := Locate(rows, id).value;
    rows[p.0][p.1]
  }

  /** The elements of the table by id, regardless of where they sit. */
  function Elements(rows: Rows): (m: map<nat, Cell>)
    ensures m.Keys == Ids(rows)
  {
    map id | id in Ids(rows) :: CellOf(rows, id)
  }

  lemma ElementAt(rows: Rows, r: nat, k: nat)
    requires UniqueIds(rows) && r < |rows| && k < |rows[r]|
    ensures rows[r][k].id in Elements(rows) && Elements(rows)[rows[r][k].id] == rows[r][k]
  {
    LocateUnique(rows, r, k);
  }

  /** Where the element `id` sits after a change that keeps every other position's element. */
  lemma CellOfMoved(rows: Rows, rows': Rows, id: nat, r: nat, k: nat, r': nat, k': nat)
    requires UniqueIds(rows) && UniqueIds(rows')
    requires r < |rows| && k < |rows[r]| && r' < |rows'| && k' < |rows'[r']|
    requires rows[r][k].id == id && rows'[r'][k'] == rows[r][k]
    ensures Has(rows, id) && Has(rows', id) && CellOf(rows', id) == CellOf(rows, id)
  {
    ElementAt(rows, r, k);
    ElementAt(rows', r', k');
  }

  // Each change below is described element by element: which ids remain,
  // and that every untouched element is still the same cell.

  lemma HasSetAt(rows: Rows, r: nat, k: nat, c: Cell, id: nat)
    requires r < |rows| && k < |rows[r]| && UniqueIds(rows)
    ensures Has(SetAt(rows, r, k, c), id) <==> (Has(rows, id) && id != rows[r][k].id) || id == c.id
  {
    var rows' := SetAt(rows, r, k, c);
    assert rows'[r][k] == c;
    if Has(rows', id) && id != c.id {
      var p := Locate(rows', id).value;
      assert rows[p.0][p.1].id == id;
    }
    if Has(rows, id) && id != rows[r][k].id {
      var p := Locate(rows, id).value;
      assert rows'[p.0][p.1].id == id;
    }
  }

  lemma CellOfSetAt(rows: Rows, r: nat, k: nat, c: Cell, id: nat)
    requires r < |rows| && k < |rows[r]| && UniqueIds(rows) && UniqueIds(SetAt(rows, r, k, c))
    requires Has(SetAt(rows, r, k, c), id) && id != c.id
    ensures Has(rows, id) && CellOf(SetAt(rows, r, k, c), id) == CellOf(rows, id)
  {
    var rows' := SetAt(rows, r, k, c);
    var p := Locate(rows', id).value;
    CellOfMoved(rows, rows', id, p.0, p.1, p.0, p.1);
  }

  /** Writing a cell back under its own id updates that one element. */
  lemma ElementsSetAt(rows: Rows, r: nat, k: nat, c: Cell)
    requires r < |rows| && k < |rows[r]| && c.id == rows[r][k].id && UniqueIds(rows) && UniqueIds(SetAt(rows, r, k, c))
    ensures Elements(SetAt(rows, r, k, c)) == Elements(rows)[c.id := c]
  {
    var rows' := SetAt(rows, r, k, c);
    var e, e' := Elements(rows), Elements(rows');
    var want := e[c.id := c];
    assert e'.Keys == want.Keys by {
      forall id ensures id in e' <==> id in want {
        HasSetAt(rows, r, k, c, id);
      }
    }
    assert forall id :: id in e' ==> e'[id] == want[id] by {
      forall id | id in e' ensures e'[id] == want[id] {
        if id == c.id {
          assert rows'[r][k] == c;
          ElementAt(rows', r, k);
        } else {
          CellOfSetAt(rows, r, k, c, id);
        }
      }
    }
    MapExt(e', want);
  }

  /** Putting a new element in a cell's place: the old element leaves, the new one enters. */
  lemma ElementsReplaceAt(rows: Rows, r: nat, k: nat, c: Cell)
    requires r < |rows| && k < |rows[r]| && !Has(rows, c.id) && UniqueIds(rows) && UniqueIds(SetAt(rows, r, k, c))
    ensures Elements(SetAt(rows, r, k, c)) == (Elements(rows) - {rows[r][k].id})[c.id := c]
  {
    var rows' := SetAt(rows, r, k, c);
    var e, e' := Elements(rows), Elements(rows');
    var want := (e - {rows[r][k].id})[c.id := c];
    assert e'.Keys == want.Keys by {
      forall id ensures id in e' <==> id in want {
        HasSetAt(rows, r, k, c, id);
      }
    }
    assert forall id :: id in e' ==> e'[id] == want[id] by {
      forall id | id in e' ensures e'[id] == want[id] {
        if id == c.id {
          assert rows'[r][k] == c;
          ElementAt(rows', r, k);
        } else {
          CellOfSetAt(rows, r, k, c, id);
        }
      }
    }
    MapExt(e', want);
  }

  lemma MapExt<K, V>(a: map<K, V>, b: map<K, V>)
    requires a.Keys == b.Keys && forall x :: x in a ==> a[x] == b[x]
    ensures a == b
  {
  }

  lemma HasRemoveAt(rows: Rows, r: nat, k: nat, id: nat)
    requires r < |rows| && k < |rows[r]| && UniqueIds(rows)
    ensures Has(RemoveAt(rows, r, k), id) <==> Has(rows, id) && id != rows[r][k].id
  {
    var rows' := RemoveAt(rows, r, k);
    if Has(rows', id) {
      var p := Locate(rows', id).value;
      var j := if p.0 == r && p.1 >= k then p.1 + 1 else p.1;
      assert rows'[p.0][p.1] == rows[p.0][j];
    }
    if Has(rows, id) && id != rows[r][k].id {
      var p := Locate(rows, id).value;
      var j := if p.0 == r && p.1 > k then p.1 - 1 else p.1;
      assert rows'[p.0][j] == rows[p.0][p.1];
    }
  }

  lemma CellOfRemoveAt(rows: Rows, r: nat, k: nat, id: nat)
    requires r < |rows| && k < |rows[r]| && UniqueIds(rows) && UniqueIds(RemoveAt(rows, r, k))
    requires Has(RemoveAt(rows, r, k), id)
    ensures Has(rows, id) && CellOf(RemoveAt(rows, r, k), id) == CellOf(rows, id)
  {
    var rows' := RemoveAt(rows, r, k);
    var p := Locate(rows', id).value;
    var j := if p.0 == r && p.1 >= k then p.1 + 1 else p.1;
    assert rows'[p.0][p.1] == rows[p.0][j];
    CellOfMoved(rows, rows', id, p.0, j, p.0, p.1);
  }


  /** Removing a cell removes exactly that element. */
  lemma ElementsRemoveAt(rows: Rows, r: nat, k: nat)
    requires r < |rows| && k < |rows[r]| && UniqueIds(rows) && UniqueIds(RemoveAt(rows, r, k))
    ensures Elements(RemoveAt(rows, r, k)) == Elements(rows) - {rows[r][k].id}
  {
    var rows' := RemoveAt(rows, r, k);
    var e, e' := Elements(rows), Elements(rows');
    var want := e - {rows[r][k].id};
    assert e'.Keys == want.Keys by {
      forall id ensures id in e' <==> id in want {
        HasRemoveAt(rows, r, k, id);
      }
    }
    assert forall id :: id in e' ==> e'[id] == want[id] by {
      forall id | id in e' ensures e'[id] == want[id] {
        CellOfRemoveAt(rows, r, k, id);
      }
    }
    MapExt(e', want);
  }

  lemma HasInsertAt(rows: Rows, r: nat, k: nat, c: Cell, id: nat)
    requires r < |rows| && k <= |rows[r]|
    ensures Has(InsertAt(rows, r, k, [c]), id) <==> Has(rows, id) || id == c.id
  {
    var rows' := InsertAt(rows, r, k, [c]);
    assert rows'[r][k] == c;
    if Has(rows', id) && id != c.id {
      var p := Locate(rows', id).value;
      var j := if p.0 == r && p.1 > k then p.1 - 1 else p.1;
      assert rows'[p.0][p.1] == rows[p.0][j];
    }
    if Has(rows, id) {
      var p := Locate(rows, id).value;
      var j := if p.0 == r && p.1 >= k then p.1 + 1 else p.1;
      assert rows'[p.0][j] == rows[p.0][p.1];
    }
  }

  lemma CellOfInsertAt(rows: Rows, r: nat, k: nat, c: Cell, id: nat)
    requires r < |rows| && k <= |rows[r]| && UniqueIds(rows) && UniqueIds(InsertAt(rows, r, k, [c]))
    requires Has(InsertAt(rows, r, k, [c]), id) && id != c.id
    ensures Has(rows, id) && CellOf(InsertAt(rows, r, k, [c]), id) == CellOf(rows, id)
  {
    var rows' := InsertAt(rows, r, k, [c]);
    var p := Locate(rows', id).value;
    assert rows'[r][k] == c;
    var j := if p.0 == r && p.1 > k then p.1 - 1 else p.1;
    assert rows'[p.0][p.1] == rows[p.0][j];
    CellOfMoved(rows, rows', id, p.0, j, p.0, p.1);
  }

  /** Inserting a new element adds exactly that element. */
  lemma ElementsInsertAt(rows: Rows, r: nat, k: nat, c: Cell)
    requires r < |rows| && k <= |rows[r]| && UniqueIds(rows) && UniqueIds(InsertAt(rows, r, k, [c]))
    ensures Elements(InsertAt(rows, r, k, [c])) == Elements(rows)[c.id := c]
  {
    var rows' := InsertAt(rows, r, k, [c]);
    var e, e' := Elements(rows), Elements(rows');
    var want := e[c.id := c];
    assert e'.Keys == want.Keys by {
      forall id ensures id in e' <==> id in want {
        HasInsertAt(rows, r, k, c, id);
      }
    }
    assert forall id :: id in e' ==> e'[id] == want[id] by {
      forall id | id in e' ensures e'[id] == want[id] {
        if id == c.id {
          assert rows'[r][k] == c;
          ElementAt(rows', r, k);
        } else {
          CellOfInsertAt(rows, r, k, c, id);
        }
      }
    }
    MapExt(e', want);
  }
}

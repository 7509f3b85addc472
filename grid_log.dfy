/**
 * `logGrid`: one line of text per grid row, each entry printed as
 * `rowSpan,colSpan,TAG` and the entries of a row separated by single spaces.
 * The lines read back: splitting them recovers every entry's spans and tag.
 */
module GridLog {
  import opened Basics
  import opened Text
  import opened JsParseInt
  import opened TableGrid

  /** The tag printed for an entry: the element's tag name, or `--` when there is no element or no tag name. */
  function TagText(e: Entry): (t: string)
    ensures t == "--" || (e.el.Some? && t == e.el.value.tag)
    ensures e.el.None? ==> t == "--"
    ensures e.el.Some? && e.el.value.tag != "" ==> t == e.el.value.tag
    ensures e.el.Some? && e.el.value.tag == "" ==> t == "--"
    ensures t != []
  {
    if e.el.Some? && e.el.value.tag != "" then e.el.value.tag else "--"
  }

  /** `${cell.rowSpan},${cell.colSpan},${tagName}`. */
  function EntryText(e: Entry): string
  {
    Join([DecimalString(e.rowSpan), DecimalString(e.colSpan), TagText(e)], ',')
  }

  /** The printed entries of one grid row, in order. */
  function Words(line: seq<Entry>): (w: seq<string>)
    ensures |w| == |line|
    ensures forall k :: 0 <= k < |line| ==> w[k] == EntryText(line[k])
  {
    if line == [] then [] else Words(line[..|line| - 1]) + [EntryText(line[|line| - 1])]
  }

  method LogGrid(grid: array2<Entry>) returns (result: seq<string>)
    ensures |result| == grid.Length0
    ensures forall r :: 0 <= r < grid.Length0 ==> result[r] == Join(Words(Snap(grid)[r]), ' ')
  {
    ghost var g := Snap(grid);
    result := [];
    var r := 0;
    while r < grid.Length0
      invariant 0 <= r <= grid.Length0 && |result| == r
      invariant forall i :: 0 <= i < r ==> result[i] == Join(Words(g[i]), ' ')
    {
      var line: seq<string> := [];
      var k := 0;
      while k < grid.Length1
        invariant 0 <= k <= grid.Length1
        invariant line == Words(g[r][..k])
      {
        assert g[r][..k + 1][..k] == g[r][..k];
        assert g[r][k] == grid[r, k];
        line := line + [EntryText(grid[r, k])];
        k := k + 1;
      }
      assert g[r][..k] == g[r];
      result := result + [Join(line, ' ')];
      r := r + 1;
    }
  }

  /** A tag that prints without the separators the log uses. */
  predicate PlainTag(e: Entry)
  {
    Free(TagText(e), ',') && Free(TagText(e), ' ')
  }

  lemma DecimalFree(n: nat, sep: char)
    requires !IsDigit(sep)
    ensures Free(DecimalString(n), sep)
  {
  }

  /** Splitting a printed entry on commas gives back its two spans, as `parseInt` reads them, and its tag. */
  lemma EntryTextReadBack(e: Entry)
    requires Free(TagText(e), ',')
    ensures var f := Split(EntryText(e), ',');
      |f| == 3 && ParseInt(f[0]) == Int(e.rowSpan) && ParseInt(f[1]) == Int(e.colSpan) && f[2] == TagText(e)
  {
    var words := [DecimalString(e.rowSpan), DecimalString(e.colSpan), TagText(e)];
    DecimalFree(e.rowSpan, ',');
    DecimalFree(e.colSpan, ',');
    SplitJoin(words, ',');
    ParseDecimal(e.rowSpan, []);
    assert DecimalString(e.rowSpan) + [] == DecimalString(e.rowSpan);
    ParseDecimal(e.colSpan, []);
    assert DecimalString(e.colSpan) + [] == DecimalString(e.colSpan);
  }

  lemma EntryTextNoSpace(e: Entry)
    requires Free(TagText(e), ' ')
    ensures Free(EntryText(e), ' ')
  {
    var a, b, t := DecimalString(e.rowSpan), DecimalString(e.colSpan), TagText(e);
    DecimalFree(e.rowSpan, ' ');
    DecimalFree(e.colSpan, ' ');
    assert [a, b, t][1..] == [b, t] && [b, t][1..] == [t];
    assert Join([b, t], ',') == b + [','] + t;
    assert Join([a, b, t], ',') == a + [','] + Join([b, t], ',');
    FreeConcat(b, [','], ' ');
    FreeConcat(b + [','], t, ' ');
    FreeConcat(a, [','], ' ');
    FreeConcat(a + [','], b + [','] + t, ' ');
    assert EntryText(e) == a + [','] + (b + [','] + t);
  }

  /**
   * Reading a logged row back: its `k`-th space-separated field, split on
   * commas, gives the `k`-th entry's row span, column span and tag.
   */
  lemma LogLineReadBack(line: seq<Entry>, k: nat)
    requires |line| >= 1 && k < |line|
    requires forall i :: 0 <= i < |line| ==> PlainTag(line[i])
    ensures var fields := Split(Join(Words(line), ' '), ' ');
      |fields| == |line| &&
      var f := Split(fields[k], ',');
      |f| == 3 && ParseInt(f[0]) == Int(line[k].rowSpan) && ParseInt(f[1]) == Int(line[k].colSpan) &&
      f[2] == TagText(line[k])
  {
    var words := Words(line);
    forall i | 0 <= i < |words|
      ensures Free(words[i], ' ')
    {
      EntryTextNoSpace(line[i]);
    }
    SplitJoin(words, ' ');
    EntryTextReadBack(line[k]);
  }
}

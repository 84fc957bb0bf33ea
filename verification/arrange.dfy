/**
 * `arrangeTable`: the table cut down to, and reordered by, the requested
 * columns the table has. Each requested name reads the last column with
 * that name; a name asked for twice gives two columns.
 */
module Arrange {
  import opened Tables

  /** One row rebuilt from the cells at the given positions, a missing cell reading null. */
  function ArrangedRow(row: Row, indexes: seq<nat>): (r: Row)
    ensures |r| == |indexes|
  {
    seq(|indexes|, c requires 0 <= c < |indexes| => At(row, indexes[c]))
  }

  /** `arrangeTable`: absent stays absent; the kept names become the columns. */
  function Arranged(table: Option<Table>, names: seq<string>): Option<Table>
  {
    match table
    case None => None
    case Some(t) =>
      var kept := Intersect(names, t.columns);
      var indexes := Indexes(kept, t.columns);
      Some(Table(kept, seq(|t.data|, i requires 0 <= i < |t.data| => ArrangedRow(t.data[i], indexes))))
  }

  /**
   * The arranged table has the kept names as columns, as many rows as
   * before, every row exactly as wide as the columns, and each cell is the
   * original row's cell under the last column of that name.
   */
  lemma ArrangedCells(t: Table, names: seq<string>)
    ensures Arranged(Some(t), names).Some?
    ensures var r := Arranged(Some(t), names).value;
      r.columns == Intersect(names, t.columns) && |r.data| == |t.data| && WellFormed(r) &&
      forall i, c :: 0 <= i < |t.data| && 0 <= c < |r.columns| ==>
        LastIndex(t.columns, r.columns[c]).Some? &&
        r.data[i][c] == At(t.data[i], LastIndex(t.columns, r.columns[c]).value)
  {
  }

  /** Asking for every column of a table with distinct names, in order, changes nothing. */
  lemma ArrangeAllIsIdentity(t: Table)
    requires Distinct(t.columns) && WellFormed(t)
    ensures Arranged(Some(t), t.columns) == Some(t)
  {
    IntersectAll(t.columns, t.columns);
    IndexesInOrder(t.columns);
    RowsInOrder(t, Indexes(t.columns, t.columns));
  }

  /** Reading every row at positions that are all in order gives the rows back. */
  lemma RowsInOrder(t: Table, indexes: seq<nat>)
    requires WellFormed(t)
    requires |indexes| == |t.columns| && forall c :: 0 <= c < |indexes| ==> indexes[c] == c
    ensures seq(|t.data|, i requires 0 <= i < |t.data| => ArrangedRow(t.data[i], indexes)) == t.data
  {
    var rows := seq(|t.data|, i requires 0 <= i < |t.data| => ArrangedRow(t.data[i], indexes));
    forall i | 0 <= i < |t.data| ensures rows[i] == t.data[i] {
      ArrangedRowInOrder(t.data[i], indexes);
    }
  }

  /** With distinct names, each column is read from its own position. */
  lemma IndexesInOrder(columns: seq<string>)
    requires Distinct(columns)
    ensures forall c :: 0 <= c < |columns| ==> Indexes(columns, columns)[c] == c
  {
    forall c | 0 <= c < |columns| ensures Indexes(columns, columns)[c] == c {
      DistinctLastIndex(columns, c);
    }
  }

  /** Reading every position of a row in order gives the row back. */
  lemma ArrangedRowInOrder(row: Row, indexes: seq<nat>)
    requires |indexes| == |row| && forall c :: 0 <= c < |indexes| ==> indexes[c] == c
    ensures ArrangedRow(row, indexes) == row
  {
  }

  /** Names that are all columns are all kept, in order. */
  lemma {:induction false} IntersectAll(names: seq<string>, columns: seq<string>)
    requires forall k :: 0 <= k < |names| ==> names[k] in columns
    ensures Intersect(names, columns) == names
    decreases |names|
  {
    if |names| > 0 {
      IntersectAll(names[1..], columns);
    }
  }

  /** An absent table stays absent. */
  lemma ArrangeAbsent(names: seq<string>)
    ensures Arranged(None, names) == None
  {
  }

  /** Reading one more position appends that position's cell. */
  lemma ArrangedRowStep(row: Row, indexes: seq<nat>, c: nat)
    requires c < |indexes|
    ensures ArrangedRow(row, indexes[..c + 1]) == ArrangedRow(row, indexes[..c]) + [At(row, indexes[c])]
  {
  }

  /** `arrangeTable`: each row rewritten in place from the cells at the kept positions. */
  method ArrangeTable(table: Option<Table>, names: seq<string>) returns (r: Option<Table>)
    ensures r == Arranged(table, names)
  {
    if table.None? {
      return None;
    }
    var t := table.value;
    var kept := Intersect(names, t.columns);
    var indexes := Indexes(kept, t.columns);
    var data := t.data;
    var i := 0;
    while i < |data|
      invariant 0 <= i <= |data| == |t.data|
      invariant forall j :: 0 <= j < i ==> data[j] == ArrangedRow(t.data[j], indexes)
      invariant forall j :: i <= j < |data| ==> data[j] == t.data[j]
    {
      var row := data[i];
      var arrangedRow: Row := [];
      var c := 0;
      while c < |indexes|
        invariant 0 <= c <= |indexes|
        invariant arrangedRow == ArrangedRow(row, indexes[..c])
      {
        ArrangedRowStep(row, indexes, c);
        arrangedRow := arrangedRow + [At(row, indexes[c])];
        c := c + 1;
      }
      assert indexes[..c] == indexes;
      data := data[i := arrangedRow];
      i := i + 1;
    }
    assert data == seq(|t.data|, i requires 0 <= i < |t.data| => ArrangedRow(t.data[i], indexes));
    r := Some(Table(kept, data));
  }
}

/**
 * `mergeTables`: the rows of several tables stacked into one table whose
 * columns are the union of theirs, every row re-projected onto the union by
 * column name, with null in the columns its own table lacks.
 */
module Merge {
  import opened Tables

  /** `array_merge` of column lists: all of them in order. */
  function Concat(lists: seq<seq<string>>): (r: seq<string>)
    ensures forall i, x :: 0 <= i < |lists| && x in lists[i] ==> x in r
    ensures forall x :: x in r ==> exists i :: 0 <= i < |lists| && x in lists[i]
  {
    if |lists| == 0 then []
    else
      var init := lists[..|lists| - 1];
      var r := Concat(init) + lists[|lists| - 1];
      assert forall i :: 0 <= i < |init| ==> init[i] == lists[i];
      r
  }

  /**
   * `array_unique` followed by `array_values`: every value once, at the
   * position of its first occurrence, the values kept in order.
   */
  function Dedup(s: seq<string>): (r: seq<string>)
    ensures Distinct(r)
    ensures forall x :: x in r <==> x in s
  {
    if |s| == 0 then []
    else
      var r := Dedup(s[..|s| - 1]);
      assert forall x :: x in s <==> x in s[..|s| - 1] || x == s[|s| - 1] by {
        assert s == s[..|s| - 1] + [s[|s| - 1]];
      }
      if s[|s| - 1] in r then r else r + [s[|s| - 1]]
  }

  /** `array_union`: the columns of all the lists, each once, in order of first appearance. */
  function Union(lists: seq<seq<string>>): seq<string>
  {
    Dedup(Concat(lists))
  }

  /** A value in a prefix is first found there. */
  lemma FirstIndexPrefix(p: seq<string>, q: seq<string>, x: string)
    requires x in p
    ensures FirstIndex(p + q, x) == FirstIndex(p, x)
  {
    var i := FirstIndex(p, x).value;
    assert (p + q)[..i] == p[..i];
    FirstIndexIsFirst(p + q, x, i);
  }

  /** `Dedup` keeps values in the order of their first occurrence. */
  lemma {:induction false} DedupFirstSeen(s: seq<string>)
    ensures forall i, j :: 0 <= i < j < |Dedup(s)| ==>
      FirstIndex(s, Dedup(s)[i]).value < FirstIndex(s, Dedup(s)[j]).value
    decreases |s|
  {
    if |s| > 0 {
      var init := s[..|s| - 1];
      var last := s[|s| - 1];
      assert s == init + [last];
      DedupFirstSeen(init);
      var d := Dedup(init);
      forall y | y in d ensures FirstIndex(s, y) == FirstIndex(init, y) {
        FirstIndexPrefix(init, [last], y);
      }
      if last !in d {
        assert FirstIndex(s, last) == Some(|s| - 1);
        forall i, j | 0 <= i < j < |d| + 1
          ensures FirstIndex(s, (d + [last])[i]).value < FirstIndex(s, (d + [last])[j]).value
        {
          assert (d + [last])[i] == d[i];
          if j < |d| {
            assert (d + [last])[j] == d[j];
          }
        }
      }
    }
  }

  /** The columns of each table, in order. */
  function ColumnLists(ts: seq<Table>): (r: seq<seq<string>>)
    ensures |r| == |ts|
    ensures forall i :: 0 <= i < |ts| ==> r[i] == ts[i].columns
  {
    seq(|ts|, i requires 0 <= i < |ts| => ts[i].columns)
  }

  /** The cell a row holds under a name: the last column with it, or null without one. */
  function Placed(row: Row, cols: seq<string>, name: string): Cell
  {
    match LastIndex(cols, name)
    case None => Null
    case Some(k) => At(row, k)
  }

  /** Taking one more column into account changes only the cell under that column's name. */
  lemma PlacedStep(row: Row, cols: seq<string>, k: nat, name: string)
    requires k < |cols|
    ensures Placed(row, cols[..k + 1], name) == if name == cols[k] then At(row, k) else Placed(row, cols[..k], name)
  {
    assert cols[..k + 1][..k] == cols[..k];
  }

  /** A row of a table with columns `cols` laid out over the union of columns. */
  function Reproject(row: Row, cols: seq<string>, union: seq<string>): (r: Row)
    ensures |r| == |union|
  {
    seq(|union|, j requires 0 <= j < |union| => Placed(row, cols, union[j]))
  }

  /** The rows a table contributes: as they are when its columns are the union, re-projected otherwise. */
  function Rows(t: Table, union: seq<string>): (r: seq<Row>)
    ensures |r| == |t.data|
  {
    if t.columns == union then t.data
    else seq(|t.data|, i requires 0 <= i < |t.data| => Reproject(t.data[i], t.columns, union))
  }

  /** The rows of all the tables, table after table. */
  function AllRows(ts: seq<Table>, union: seq<string>): seq<Row>
  {
    if |ts| == 0 then []
    else AllRows(ts[..|ts| - 1], union) + Rows(ts[|ts| - 1], union)
  }

  /** Stacking one more table adds its rows; all tables make up the whole. */
  lemma AllRowsStep(ts: seq<Table>, union: seq<string>, n: nat)
    requires n <= |ts|
    ensures n < |ts| ==> AllRows(ts[..n + 1], union) == AllRows(ts[..n], union) + Rows(ts[n], union)
    ensures n == |ts| ==> AllRows(ts[..n], union) == AllRows(ts, union)
  {
    if n < |ts| {
      assert ts[..n + 1][..n] == ts[..n];
    } else {
      assert ts[..n] == ts;
    }
  }

  /** The union has no duplicates and holds every column of every table. */
  lemma UnionCovers(ts: seq<Table>, n: nat)
    requires n < |ts|
    ensures Distinct(Union(ColumnLists(ts)))
    ensures forall k :: 0 <= k < |ts[n].columns| ==> ts[n].columns[k] in Union(ColumnLists(ts))
  {
    assert ColumnLists(ts)[n] == ts[n].columns;
  }

  /** How many rows the tables hold together. */
  function TotalRows(ts: seq<Table>): nat
  {
    if |ts| == 0 then 0 else TotalRows(ts[..|ts| - 1]) + |ts[|ts| - 1].data|
  }

  /** The tables an operator reads from the loaded sources. */
  function Loaded(present: seq<Source>): (r: seq<Table>)
    ensures |r| == |present|
    ensures forall i :: 0 <= i < |present| ==> r[i] == AsTable(present[i])
  {
    seq(|present|, i requires 0 <= i < |present| => AsTable(present[i]))
  }

  /** Two or more tables stacked over the union of their columns. */
  function Stacked(ts: seq<Table>): Table
  {
    var union := Union(ColumnLists(ts));
    Table(union, AllRows(ts, union))
  }

  /** `mergeTables`, with a sole present table returned whatever its input position. */
  function Merged(tables: seq<Option<Source>>): Option<Source>
  {
    var present := Present(tables);
    if |present| == 0 then None
    else if |present| == 1 then Some(present[0])
    else Some(Real(Stacked(Loaded(present))))
  }

  /** `mergeTables` as written: a sole present table is read from input position 0. */
  function MergedAsWritten(tables: seq<Option<Source>>): Option<Source>
  {
    var present := Present(tables);
    if |present| == 0 then None
    else if |present| == 1 then SoleAsWritten(tables)
    else Some(Real(Stacked(Loaded(present))))
  }

  /** As written, a table merged after an absent one is lost. */
  lemma MergeLosesSoleTable(s: Source)
    ensures MergedAsWritten([None, Some(s)]) == None
    ensures Merged([None, Some(s)]) == Some(s)
  {
    SoleAsWrittenLosesTable(s);
  }

  /**
   * The merge as written and the corrected merge differ exactly when a
   * sole present table does not stand first, and then the merge as
   * written gives no table.
   */
  lemma MergeAsWrittenAgrees(tables: seq<Option<Source>>)
    ensures MergedAsWritten(tables) == Merged(tables) <==> (|Present(tables)| != 1 || tables[0].Some?)
    ensures MergedAsWritten(tables) != Merged(tables) ==> MergedAsWritten(tables) == None
  {
    if |tables| > 0 && tables[0].Some? {
      assert Present(tables) == [tables[0].value] + Present(tables[1..]);
    }
  }

  /**
   * Absent inputs are dropped: nothing is present exactly when nothing
   * results, and a sole present table comes back unchanged.
   */
  lemma MergeGuards(tables: seq<Option<Source>>)
    ensures Merged(tables).None? <==> forall i :: 0 <= i < |tables| ==> tables[i].None?
    ensures |Present(tables)| == 1 ==>
      (Merged(tables) == Some(Present(tables)[0]) && Some(Present(tables)[0]) in tables)
  {
    var present := Present(tables);
    if |present| > 0 {
      assert present[0] in present;
    } else {
      forall i | 0 <= i < |tables| ensures tables[i].None? {
        assert tables[i] in tables;
      }
    }
  }

  /**
   * The merged columns hold every column of every table exactly once, in
   * the order in which they first appear.
   */
  lemma StackedColumns(ts: seq<Table>)
    ensures Distinct(Stacked(ts).columns)
    ensures forall x :: x in Stacked(ts).columns <==> exists i :: 0 <= i < |ts| && x in ts[i].columns
    ensures forall i, j :: 0 <= i < j < |Stacked(ts).columns| ==>
      FirstIndex(Concat(ColumnLists(ts)), Stacked(ts).columns[i]).value <
      FirstIndex(Concat(ColumnLists(ts)), Stacked(ts).columns[j]).value
  {
    DedupFirstSeen(Concat(ColumnLists(ts)));
  }

  /** The merged table holds as many rows as the tables together. */
  lemma {:induction false} AllRowsCount(ts: seq<Table>, union: seq<string>)
    ensures |AllRows(ts, union)| == TotalRows(ts)
    decreases |ts|
  {
    if |ts| > 0 {
      AllRowsCount(ts[..|ts| - 1], union);
    }
  }

  /** Row `i` of table `t` is found after the rows of the tables before it. */
  lemma {:induction false} AllRowsAt(ts: seq<Table>, union: seq<string>, t: nat, i: nat)
    requires t < |ts| && i < |ts[t].data|
    ensures TotalRows(ts[..t]) + i < |AllRows(ts, union)|
    ensures AllRows(ts, union)[TotalRows(ts[..t]) + i] == Rows(ts[t], union)[i]
    decreases |ts|
  {
    var n := |ts| - 1;
    var init := ts[..n];
    var before, last := AllRows(init, union), Rows(ts[n], union);
    assert AllRows(ts, union) == before + last;
    var pos := TotalRows(ts[..t]) + i;
    if t < n {
      assert init[..t] == ts[..t] && init[t] == ts[t];
      AllRowsAt(init, union, t, i);
      assert pos < |before| && before[pos] == Rows(ts[t], union)[i];
    } else {
      assert ts[..t] == init;
      AllRowsCount(init, union);
      assert pos == |before| + i;
    }
    ConcatAt(before, last, pos);
  }

  /** An index into two sequences put together reads from the first or, past it, from the second. */
  lemma ConcatAt<T>(a: seq<T>, b: seq<T>, p: nat)
    requires p < |a| + |b|
    ensures p < |a| ==> (a + b)[p] == a[p]
    ensures p >= |a| ==> (a + b)[p] == b[p - |a|]
  {
  }

  /**
   * Re-projection moves every cell to the union column of its own name,
   * the last column wins when a name repeats, and columns the row's table
   * lacks are null.
   */
  lemma ReprojectCells(row: Row, cols: seq<string>, union: seq<string>)
    requires |row| == |cols| && Distinct(union)
    requires forall k :: 0 <= k < |cols| ==> cols[k] in union
    ensures forall k :: 0 <= k < |cols| && cols[k] !in cols[k + 1..] ==>
      Reproject(row, cols, union)[LastIndex(union, cols[k]).value] == row[k]
    ensures forall j :: 0 <= j < |union| && union[j] !in cols ==> Reproject(row, cols, union)[j] == Null
  {
    forall k | 0 <= k < |cols| && cols[k] !in cols[k + 1..]
      ensures Reproject(row, cols, union)[LastIndex(union, cols[k]).value] == row[k]
    {
      LastIndexIsLast(cols, cols[k], k);
    }
  }

  /** The shortcut for a table whose columns are the union yields what re-projection yields. */
  lemma ShortcutAgrees(row: Row, union: seq<string>)
    requires |row| == |union| && Distinct(union)
    ensures Reproject(row, union, union) == row
  {
    forall j | 0 <= j < |union| ensures Reproject(row, union, union)[j] == row[j] {
      DistinctLastIndex(union, j);
    }
  }

  /** Merging well-formed tables gives a well-formed table. */
  lemma {:induction false} AllRowsWellFormed(ts: seq<Table>, union: seq<string>)
    requires forall t :: 0 <= t < |ts| ==> WellFormed(ts[t])
    ensures WellFormed(Table(union, AllRows(ts, union)))
    decreases |ts|
  {
    if |ts| > 0 {
      AllRowsWellFormed(ts[..|ts| - 1], union);
      assert WellFormed(ts[|ts| - 1]);
    }
  }

  /**
   * Every row of every merged table appears, in table order, laid out
   * over the union columns by name, and the result is well-formed.
   */
  lemma StackedRows(ts: seq<Table>, t: nat, i: nat)
    requires forall u :: 0 <= u < |ts| ==> WellFormed(ts[u])
    requires t < |ts| && i < |ts[t].data|
    ensures WellFormed(Stacked(ts))
    ensures |Stacked(ts).data| == TotalRows(ts)
    ensures TotalRows(ts[..t]) + i < TotalRows(ts)
    ensures Stacked(ts).data[TotalRows(ts[..t]) + i] ==
      Reproject(ts[t].data[i], ts[t].columns, Stacked(ts).columns)
  {
    var union := Stacked(ts).columns;
    AllRowsWellFormed(ts, union);
    AllRowsCount(ts, union);
    AllRowsAt(ts, union, t, i);
    assert WellFormed(ts[t]);
    if ts[t].columns == union {
      StackedColumns(ts);
      ShortcutAgrees(ts[t].data[i], union);
    }
  }

  /** One row spread over the union: each cell written at the position of its column name. */
  method Spread(row: Row, cols: seq<string>, union: seq<string>) returns (newRow: Row)
    requires |row| == |cols| && Distinct(union)
    requires forall k :: 0 <= k < |cols| ==> cols[k] in union
    ensures newRow == Reproject(row, cols, union)
  {
    newRow := Nulls(|union|);
    var k := 0;
    while k < |row|
      invariant 0 <= k <= |row|
      invariant |newRow| == |union|
      invariant forall j :: 0 <= j < |union| ==> newRow[j] == Placed(row, cols[..k], union[j])
    {
      var pos := LastIndex(union, cols[k]).value;
      forall j | 0 <= j < |union|
        ensures Placed(row, cols[..k + 1], union[j]) == if j == pos then row[k] else Placed(row, cols[..k], union[j])
      {
        PlacedStep(row, cols, k, union[j]);
        if j != pos {
          assert union[j] != union[pos];
        }
      }
      newRow := newRow[pos := row[k]];
      k := k + 1;
    }
    assert cols[..k] == cols;
  }

  /** Every row of a table whose columns differ from the union, spread over the union in turn. */
  method Respread(table: Table, union: seq<string>) returns (moved: seq<Row>)
    requires WellFormed(table) && Distinct(union) && table.columns != union
    requires forall k :: 0 <= k < |table.columns| ==> table.columns[k] in union
    ensures moved == Rows(table, union)
  {
    moved := [];
    var i := 0;
    while i < |table.data|
      invariant 0 <= i <= |table.data|
      invariant moved == Rows(table, union)[..i]
    {
      assert Rows(table, union)[..i + 1] == Rows(table, union)[..i] + [Rows(table, union)[i]];
      var newRow := Spread(table.data[i], table.columns, union);
      moved := moved + [newRow];
      i := i + 1;
    }
    assert Rows(table, union)[..i] == Rows(table, union);
  }

  /**
   * `mergeTables`: the absent tables dropped, a sole one returned, and the
   * rest stacked over the union of their columns. Every table the readers
   * and operators produce is well-formed, and so are the inputs here.
   */
  method MergeTables(tables: seq<Option<Source>>) returns (r: Option<Source>)
    requires forall i :: 0 <= i < |tables| && tables[i].Some? ==> WellFormed(AsTable(tables[i].value))
    ensures r == Merged(tables)
  {
    var present := FilterPresent(tables);
    if |present| == 0 {
      return None;
    }
    if |present| == 1 {
      return Some(present[0]);
    }
    var ts := Loaded(present);
    var union := Union(ColumnLists(ts));
    assert forall u :: 0 <= u < |ts| ==> WellFormed(ts[u]) by {
      forall u | 0 <= u < |ts| ensures WellFormed(ts[u]) {
        assert Some(present[u]) in tables;
      }
    }
    var totalRows: seq<Row> := [];
    var n := 0;
    while n < |ts|
      invariant 0 <= n <= |ts|
      invariant totalRows == AllRows(ts[..n], union)
    {
      AllRowsStep(ts, union, n);
      var table := ts[n];
      if table.columns == union {
        totalRows := totalRows + table.data;
      } else {
        UnionCovers(ts, n);
        var moved := Respread(table, union);
        totalRows := totalRows + moved;
      }
      n := n + 1;
    }
    AllRowsStep(ts, union, n);
    r := Some(Real(Table(union, totalRows)));
  }
}

/**
 * The data model shared by every table operator: cells, rows, tables, the
 * virtual-table definition read from a `.func` file, and the PHP array
 * behaviours the operators rely on (reading a missing offset, `array_flip`
 * lookups, `array_search`, `array_equalise`, `array_filter`).
 */
module Tables {

  datatype Option<+T> = None | Some(value: T)

  /** A cell is a string, or null for padding and missing values. */
  datatype Cell = Null | Str(s: string)

  type Row = seq<Cell>

  /** A table: column names and rows, both in presentation order. */
  datatype Table = Table(columns: seq<string>, data: seq<Row>)

  /**
   * A virtual table as read from a `.func` file: the function to call, the
   * fixed arguments passed first, the master columns passed after them, and
   * the names of the values the function returns.
   */
  datatype Definition = Definition(
    functionName: Option<string>,
    inputValues: seq<string>,
    inputColumns: seq<string>,
    columns: seq<string>)

  /** What loading a file yields: a real table, or a virtual one. */
  datatype Source = Real(table: Table) | Virtual(def: Definition)

  /** What a registry function returns: one scalar, or a list of values. */
  datatype Value = Scalar(cell: Cell) | List(cells: seq<Cell>)

  /** The PHP array key a cell value becomes: null is the empty string. */
  function Key(c: Cell): string
  {
    match c
    case Null => ""
    case Str(s) => s
  }

  /** Reading an offset a PHP row does not have yields null. */
  function At(row: Row, i: nat): Cell
  {
    if i < |row| then row[i] else Null
  }

  function Nulls(n: nat): (r: Row)
    ensures |r| == n
    ensures forall i :: 0 <= i < n ==> r[i] == Null
  {
    seq(n, _ => Null)
  }

  /** Every row has exactly one cell per column. */
  ghost predicate WellFormed(t: Table)
  {
    forall i :: 0 <= i < |t.data| ==> |t.data[i]| == |t.columns|
  }

  /** `array_equalise`: truncate or pad with null to the given length. */
  function Equalise(row: Row, n: nat): (r: Row)
    ensures |r| == n
    ensures forall i :: 0 <= i < n ==> r[i] == At(row, i)
  {
    if |row| == n then row
    else if |row| < n then row + Nulls(n - |row|)
    else row[..n]
  }

  /** The `(array)` cast: a list stays, null becomes empty, a scalar a singleton. */
  function ToArray(v: Value): Row
  {
    match v
    case List(cells) => cells
    case Scalar(Null) => []
    case Scalar(c) => [c]
  }

  /**
   * Name-to-index lookup through `array_flip`: the later of two equal names
   * overwrites the earlier, so the last column with the name is found.
   */
  function LastIndex<T(==)>(names: seq<T>, name: T): (r: Option<nat>)
    ensures r.None? <==> name !in names
    ensures r.Some? ==> r.value < |names| && names[r.value] == name
    ensures r.Some? ==> name !in names[r.value + 1..]
  {
    if |names| == 0 then None
    else if names[|names| - 1] == name then Some(|names| - 1)
    else
      var r := LastIndex(names[..|names| - 1], name);
      assert names[..|names| - 1] + [names[|names| - 1]] == names;
      r
  }

  /** The position holding the name with no later one is what `LastIndex` finds. */
  lemma {:induction false} LastIndexIsLast<T>(names: seq<T>, name: T, k: nat)
    requires k < |names| && names[k] == name && name !in names[k + 1..]
    ensures LastIndex(names, name) == Some(k)
    decreases |names|
  {
    var last := |names| - 1;
    if k < last {
      assert names[last] == names[k + 1..][last - k - 1];
      var init := names[..last];
      assert init[k + 1..] == names[k + 1..last];
      assert name !in init[k + 1..] by {
        assert names[k + 1..] == init[k + 1..] + [names[last]];
      }
      LastIndexIsLast(init, name, k);
    }
  }

  /** No value occurs twice. */
  predicate Distinct<T(==)>(s: seq<T>)
  {
    forall i, j :: 0 <= i < j < |s| ==> s[i] != s[j]
  }

  /** In a sequence without repeats, the last occurrence of an element is its only one. */
  lemma DistinctLastIndex<T>(s: seq<T>, k: nat)
    requires Distinct(s) && k < |s|
    ensures LastIndex(s, s[k]) == Some(k)
  {
    var later := s[k + 1..];
    forall j | 0 <= j < |later| ensures later[j] != s[k] {
      assert later[j] == s[k + 1 + j];
    }
    LastIndexIsLast(s, s[k], k);
  }

  /** Name-to-index lookup through `array_search`: the first column with the name. */
  function FirstIndex<T(==)>(names: seq<T>, name: T): (r: Option<nat>)
    ensures r.None? <==> name !in names
    ensures r.Some? ==> r.value < |names| && names[r.value] == name
    ensures r.Some? ==> name !in names[..r.value]
  {
    if |names| == 0 then None
    else if names[0] == name then Some(0)
    else
      match FirstIndex(names[1..], name)
      case None => None
      case Some(i) => assert names[..i + 1] == [names[0]] + names[1..][..i]; Some(i + 1)
  }

  /** The position holding the name with none before it is what `FirstIndex` finds. */
  lemma {:induction false} FirstIndexIsFirst<T>(names: seq<T>, name: T, k: nat)
    requires k < |names| && names[k] == name && name !in names[..k]
    ensures FirstIndex(names, name) == Some(k)
    decreases |names|
  {
    if k > 0 {
      assert names[0] == names[..k][0];
      assert names[1..][..k - 1] == names[..k][1..];
      FirstIndexIsFirst(names[1..], name, k - 1);
    }
  }

  /** The row a placeholder virtual table carries: "? " and the function name. */
  function Placeholder(d: Definition): (r: Row)
    ensures |r| == |d.columns|
    ensures forall i :: 0 <= i < |r| ==>
      r[i] == Str("? " + if d.functionName.Some? then d.functionName.value else "")
  {
    var name := if d.functionName.Some? then d.functionName.value else "";
    var marker := "? " + name;
    seq(|d.columns|, _ => Str(marker))
  }

  /** The `columns` and `data` an operator reads from a loaded source. */
  function AsTable(s: Source): Table
  {
    match s
    case Real(t) => t
    case Virtual(d) => Table(d.columns, [Placeholder(d)])
  }

  /** `array_filter` followed by re-indexing: the tables that are present. */
  function Present(tables: seq<Option<Source>>): (r: seq<Source>)
    ensures |r| <= |tables|
    ensures forall s :: s in r <==> Some(s) in tables
  {
    if |tables| == 0 then []
    else
      var rest := Present(tables[1..]);
      assert tables == [tables[0]] + tables[1..];
      match tables[0]
      case None => rest
      case Some(s) => [s] + rest
  }

  /** `array_filter` on the loaded tables, walking from the last one back. */
  method FilterPresent(tables: seq<Option<Source>>) returns (present: seq<Source>)
    ensures present == Present(tables)
  {
    present := [];
    var k := |tables|;
    while k > 0
      invariant 0 <= k <= |tables|
      invariant present == Present(tables[k..])
    {
      k := k - 1;
      assert tables[k..][1..] == tables[k + 1..];
      if tables[k].Some? {
        present := [tables[k].value] + present;
      }
    }
    assert tables[0..] == tables;
  }

  /**
   * What `$tables[0]` reads when exactly one table survives `array_filter`:
   * the filter keeps the original keys, so slot 0 is the first INPUT slot.
   * When that slot was dropped the key is undefined: PHP 8 reads null with
   * a warning. `None` stands for that null here, although elsewhere it
   * stands for `false`.
   */
  function SoleAsWritten(tables: seq<Option<Source>>): Option<Source>
  {
    if |tables| == 0 then None else tables[0]
  }

  /**
   * With the first input absent and the second present, one table survives
   * the filter, yet `$tables[0]` does not find it.
   */
  lemma SoleAsWrittenLosesTable(s: Source)
    ensures |Present([None, Some(s)])| == 1
    ensures Present([None, Some(s)])[0] == s
    ensures SoleAsWritten([None, Some(s)]) == None
  {
    assert [None, Some(s)][1..] == [Some(s)];
    assert Present([Some(s)]) == [s] by {
      assert [Some(s)][1..] == [];
    }
  }

  /** `array_intersect`: the requested names the table has, in requested order, repeats kept. */
  function Intersect(names: seq<string>, columns: seq<string>): (r: seq<string>)
    ensures |r| <= |names|
    ensures forall x :: x in r <==> x in names && x in columns
    ensures |names| == 1 ==> r == if names[0] in columns then names else []
  {
    if |names| == 0 then []
    else
      var rest := Intersect(names[1..], columns);
      assert names == [names[0]] + names[1..];
      if names[0] in columns then [names[0]] + rest else rest
  }

  /** The positions the kept names are read from: the last column with each name. */
  function Indexes(kept: seq<string>, columns: seq<string>): (r: seq<nat>)
    requires forall k :: 0 <= k < |kept| ==> kept[k] in columns
    ensures |r| == |kept|
    ensures forall k :: 0 <= k < |kept| ==> Some(r[k]) == LastIndex(columns, kept[k])
    ensures forall k :: 0 <= k < |kept| ==>
      r[k] < |columns| && columns[r[k]] == kept[k] && kept[k] !in columns[r[k] + 1..]
  {
    seq(|kept|, k requires 0 <= k < |kept| => LastIndex(columns, kept[k]).value)
  }

  /**
   * `array_intersect` works name by name: the names kept from two lists
   * joined are those kept from each, in the same order, so requested order
   * and repeats survive.
   */
  lemma {:induction false} IntersectConcat(a: seq<string>, b: seq<string>, columns: seq<string>)
    ensures Intersect(a + b, columns) == Intersect(a, columns) + Intersect(b, columns)
    decreases |a|
  {
    if |a| > 0 {
      var ab := a + b;
      assert ab[0] == a[0] && ab[1..] == a[1..] + b;
      IntersectConcat(a[1..], b, columns);
      var rest := Intersect(a[1..], columns) + Intersect(b, columns);
      if a[0] in columns {
        assert Intersect(ab, columns) == [a[0]] + rest;
        assert Intersect(a, columns) == [a[0]] + Intersect(a[1..], columns);
      } else {
        assert Intersect(ab, columns) == rest;
      }
    } else {
      assert a + b == b;
    }
  }
}

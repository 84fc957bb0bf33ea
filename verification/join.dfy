/**
 * `joinTables`: the first present table is the master; every later table
 * either widens it through a registry function (a virtual table) or is
 * left-joined on its first column (a real table).
 */
module Join {
  import opened Tables

  /**
   * The registry of functions virtual tables call: whether a name is
   * callable, and what a call with the given arguments returns.
   */
  datatype Registry = Registry(defined: string -> bool, call: (string, seq<Cell>) -> Value)

  /** The master cell under a column name (the last column with it), or null when there is none. */
  function ColumnCell(columns: seq<string>, row: Row, name: string): Cell
  {
    match LastIndex(columns, name)
    case None => Null
    case Some(i) => At(row, i)
  }

  /** The arguments of one call: the fixed values, then the master cells the definition names. */
  function Arguments(d: Definition, columns: seq<string>, row: Row): (r: seq<Cell>)
    ensures |r| == |d.inputValues| + |d.inputColumns|
    ensures forall i :: 0 <= i < |d.inputValues| ==> r[i] == Str(d.inputValues[i])
    ensures forall j :: 0 <= j < |d.inputColumns| ==>
      r[|d.inputValues| + j] == ColumnCell(columns, row, d.inputColumns[j])
  {
    seq(|d.inputValues|, i requires 0 <= i < |d.inputValues| => Str(d.inputValues[i])) +
    seq(|d.inputColumns|, j requires 0 <= j < |d.inputColumns| => ColumnCell(columns, row, d.inputColumns[j]))
  }

  /**
   * The cells a virtual table adds to one master row: the function's
   * result cast to a list and equalised to the table's width when the
   * function is callable, the placeholder row otherwise.
   */
  function VirtualCells(reg: Registry, d: Definition, columns: seq<string>, row: Row): (r: Row)
    requires d.functionName.Some?
    ensures |r| == |d.columns|
  {
    var name := d.functionName.value;
    if reg.defined(name) then Equalise(ToArray(reg.call(name, Arguments(d, columns, row))), |d.columns|)
    else Placeholder(d)
  }

  /** Widening by a virtual table: every row gains its cells, the header its columns. */
  function VirtualStep(reg: Registry, master: Table, d: Definition): Table
    requires d.functionName.Some?
  {
    Table(master.columns + d.columns,
      seq(|master.data|, i requires 0 <= i < |master.data| =>
        master.data[i] + VirtualCells(reg, d, master.columns, master.data[i])))
  }

  /** `array_column(data, 0)`: the first cell of every row that has one. */
  function FirstCells(data: seq<Row>): (r: seq<Cell>)
    ensures |r| <= |data|
  {
    if |data| == 0 then []
    else (if |data[0]| > 0 then [data[0][0]] else []) + FirstCells(data[1..])
  }

  /** When every row has a first cell, the column is exactly those cells. */
  lemma {:induction false} FirstCellsFull(data: seq<Row>)
    requires forall i :: 0 <= i < |data| ==> |data[i]| > 0
    ensures |FirstCells(data)| == |data|
    ensures forall i :: 0 <= i < |data| ==> FirstCells(data)[i] == data[i][0]
    decreases |data|
  {
    if |data| > 0 {
      FirstCellsFull(data[1..]);
    }
  }

  /**
   * The cells a real table adds for the key: those after the first cell of
   * the row `array_flip` finds for it (the last row whose first cell is the
   * key; null first cells are never found), or nulls when none has it.
   */
  function LinkedCells(other: Table, key: string): Row
    requires |other.columns| >= 1
  {
    match LastIndex(FirstCells(other.data), Str(key))
    case None => Nulls(|other.columns| - 1)
    case Some(p) =>
      var found := other.data[p];
      if |found| > 0 then found[1..] else []
  }

  /**
   * The master column a real table links on: the last one named as its
   * first column. A table without columns has no link here; PHP instead
   * looks up the master column "" and, when there is one, fails.
   */
  function LinkColumn(master: Table, other: Table): Option<nat>
  {
    if |other.columns| == 0 then None else LastIndex(master.columns, other.columns[0])
  }

  /** A left join on the other table's first column; nothing changes when master lacks it. */
  function RealStep(master: Table, other: Table): Table
  {
    match LinkColumn(master, other)
    case None => master
    case Some(link) =>
      Table(master.columns + other.columns[1..],
        seq(|master.data|, i requires 0 <= i < |master.data| =>
          master.data[i] + LinkedCells(other, Key(At(master.data[i], link)))))
  }

  /** One step: a virtual table with a function widens, anything else is joined on its first column. */
  function Step(reg: Registry, master: Table, s: Source): Table
  {
    if s.Virtual? && s.def.functionName.Some? then VirtualStep(reg, master, s.def)
    else RealStep(master, AsTable(s))
  }

  /** The master after joining the given tables in order. */
  function JoinAll(reg: Registry, master: Table, others: seq<Source>): Table
  {
    if |others| == 0 then master
    else Step(reg, JoinAll(reg, master, others[..|others| - 1]), others[|others| - 1])
  }

  /** `joinTables`, with a sole present table returned whatever its input position. */
  function Joined(reg: Registry, tables: seq<Option<Source>>): Option<Source>
  {
    var present := Present(tables);
    if |present| == 0 then None
    else if |present| == 1 then Some(present[0])
    else Some(Real(JoinAll(reg, AsTable(present[0]), present[1..])))
  }

  /** `joinTables` as written: a sole present table is read from input position 0. */
  function JoinedAsWritten(reg: Registry, tables: seq<Option<Source>>): Option<Source>
  {
    var present := Present(tables);
    if |present| == 0 then None
    else if |present| == 1 then SoleAsWritten(tables)
    else Some(Real(JoinAll(reg, AsTable(present[0]), present[1..])))
  }

  /** As written, a table joined after an absent one is lost. */
  lemma JoinLosesSoleTable(reg: Registry, s: Source)
    ensures JoinedAsWritten(reg, [None, Some(s)]) == None
    ensures Joined(reg, [None, Some(s)]) == Some(s)
  {
    SoleAsWrittenLosesTable(s);
  }

  /**
   * The join as written and the corrected join differ exactly when a sole
   * present table does not stand first, and then the join as written
   * gives no table (null in PHP).
   */
  lemma JoinAsWrittenAgrees(reg: Registry, tables: seq<Option<Source>>)
    ensures JoinedAsWritten(reg, tables) == Joined(reg, tables) <==> (|Present(tables)| != 1 || tables[0].Some?)
    ensures JoinedAsWritten(reg, tables) != Joined(reg, tables) ==> JoinedAsWritten(reg, tables) == None
  {
    if |tables| > 0 && tables[0].Some? {
      assert Present(tables) == [tables[0].value] + Present(tables[1..]);
    }
  }

  /**
   * Absent inputs are dropped: nothing is present exactly when nothing
   * results, and a sole present table comes back unchanged.
   */
  lemma JoinGuards(reg: Registry, tables: seq<Option<Source>>)
    ensures Joined(reg, tables).None? <==> forall i :: 0 <= i < |tables| ==> tables[i].None?
    ensures |Present(tables)| == 1 ==>
      (Joined(reg, tables) == Some(Present(tables)[0]) && Some(Present(tables)[0]) in tables)
  {
    var present := Present(tables);
    if |present| > 0 {
      assert present[0] in present;
    } else {
      forall i | 0 <= i < |tables| ensures tables[i].None? {
        assert tables[i] in tables;
      }
    }
  }

  /** A real table whose first column master lacks leaves master unchanged. */
  lemma RealStepUnlinked(master: Table, other: Table)
    requires |other.columns| >= 1 && other.columns[0] !in master.columns
    ensures RealStep(master, other) == master
  {
  }

  /** The cells the join adds: after the first cell of the last row with the key, or nulls on a miss. */
  lemma LinkedCellsLastWins(other: Table, key: string)
    requires WellFormed(other) && |other.columns| >= 1
    ensures |LinkedCells(other, key)| == |other.columns| - 1
    ensures (forall q :: 0 <= q < |other.data| ==> other.data[q][0] != Str(key)) ==>
      LinkedCells(other, key) == Nulls(|other.columns| - 1)
    ensures (exists q :: 0 <= q < |other.data| && other.data[q][0] == Str(key)) ==>
      exists p :: 0 <= p < |other.data| && other.data[p][0] == Str(key) &&
        LinkedCells(other, key) == other.data[p][1..] &&
        forall q :: p < q < |other.data| ==> other.data[q][0] != Str(key)
  {
    FirstCellsFull(other.data);
    var column := FirstCells(other.data);
    match LastIndex(column, Str(key))
    case None =>
      forall q | 0 <= q < |other.data| ensures other.data[q][0] != Str(key) {
        assert column[q] == other.data[q][0];
      }
    case Some(p) =>
      forall q | p < q < |other.data| ensures other.data[q][0] != Str(key) {
        assert column[q] == column[p + 1..][q - p - 1];
      }
  }

  /**
   * A real join on a column master has: the header gains the other table's
   * columns after the first, and every row keeps its place and cells and
   * gains one cell per added column, taken from the last row of the other
   * table whose first cell is the row's key, or null when none is.
   */
  lemma RealStepLinked(master: Table, other: Table)
    requires WellFormed(other) && |other.columns| >= 1 && other.columns[0] in master.columns
    ensures var r := RealStep(master, other);
      var link := LastIndex(master.columns, other.columns[0]).value;
      r.columns == master.columns + other.columns[1..] &&
      |r.data| == |master.data| &&
      forall i :: 0 <= i < |master.data| ==>
        |r.data[i]| == |master.data[i]| + |other.columns| - 1 &&
        r.data[i][..|master.data[i]|] == master.data[i] &&
        r.data[i][|master.data[i]|..] == LinkedCells(other, Key(At(master.data[i], link)))
  {
    var r := RealStep(master, other);
    var link := LastIndex(master.columns, other.columns[0]).value;
    forall i | 0 <= i < |master.data|
      ensures |r.data[i]| == |master.data[i]| + |other.columns| - 1
      ensures r.data[i][..|master.data[i]|] == master.data[i]
      ensures r.data[i][|master.data[i]|..] == LinkedCells(other, Key(At(master.data[i], link)))
    {
      LinkedCellsLastWins(other, Key(At(master.data[i], link)));
    }
  }

  /**
   * Widening by a virtual table: the header gains the table's columns, and
   * every row keeps its place and cells and gains exactly one cell per
   * column: the function's equalised result when it is callable, the
   * placeholder otherwise.
   */
  lemma VirtualStepShape(reg: Registry, master: Table, d: Definition)
    requires d.functionName.Some?
    ensures var r := VirtualStep(reg, master, d);
      r.columns == master.columns + d.columns &&
      |r.data| == |master.data| &&
      forall i :: 0 <= i < |master.data| ==>
        |r.data[i]| == |master.data[i]| + |d.columns| &&
        r.data[i][..|master.data[i]|] == master.data[i] &&
        r.data[i][|master.data[i]|..] ==
          if reg.defined(d.functionName.value)
          then Equalise(ToArray(reg.call(d.functionName.value, Arguments(d, master.columns, master.data[i]))), |d.columns|)
          else Placeholder(d)
  {
    var r := VirtualStep(reg, master, d);
    forall i | 0 <= i < |master.data|
      ensures r.data[i][..|master.data[i]|] == master.data[i]
      ensures r.data[i][|master.data[i]|..] == VirtualCells(reg, d, master.columns, master.data[i])
    {
    }
  }

  /**
   * A value name master already has refers, after widening, to the
   * function's column: name lookups take the last column with the name.
   */
  lemma VirtualStepShadows(reg: Registry, master: Table, d: Definition, name: string)
    requires d.functionName.Some? && name in d.columns
    ensures LastIndex(VirtualStep(reg, master, d).columns, name) ==
      Some(|master.columns| + LastIndex(d.columns, name).value)
  {
    var columns := master.columns + d.columns;
    var j := LastIndex(d.columns, name).value;
    var k := |master.columns| + j;
    assert columns[k] == name;
    assert columns[k + 1..] == d.columns[j + 1..];
    LastIndexIsLast(columns, name, k);
  }

  /** Joining well-formed tables gives a well-formed table. */
  lemma StepWellFormed(reg: Registry, master: Table, s: Source)
    requires WellFormed(master) && WellFormed(AsTable(s))
    ensures WellFormed(Step(reg, master, s))
  {
    if s.Virtual? && s.def.functionName.Some? {
      VirtualStepShape(reg, master, s.def);
    } else {
      var other := AsTable(s);
      if LinkColumn(master, other).Some? {
        RealStepLinked(master, other);
      }
    }
  }

  /** A fold of joins over well-formed tables stays well-formed. */
  lemma {:induction false} JoinAllWellFormed(reg: Registry, master: Table, others: seq<Source>)
    requires WellFormed(master)
    requires forall i :: 0 <= i < |others| ==> WellFormed(AsTable(others[i]))
    ensures WellFormed(JoinAll(reg, master, others))
    decreases |others|
  {
    if |others| > 0 {
      JoinAllWellFormed(reg, master, others[..|others| - 1]);
      StepWellFormed(reg, JoinAll(reg, master, others[..|others| - 1]), others[|others| - 1]);
    }
  }

  /** A join of several tables keeps the master's row count. */
  lemma {:induction false} JoinAllRows(reg: Registry, master: Table, others: seq<Source>)
    ensures |JoinAll(reg, master, others).data| == |master.data|
    decreases |others|
  {
    if |others| > 0 {
      JoinAllRows(reg, master, others[..|others| - 1]);
    }
  }

  /** The virtual step of `joinTables`: every master row extended in place. */
  method Widen(reg: Registry, master: Table, d: Definition) returns (r: Table)
    requires d.functionName.Some?
    ensures r == VirtualStep(reg, master, d)
  {
    var data := master.data;
    var i := 0;
    while i < |data|
      invariant 0 <= i <= |data| == |master.data|
      invariant forall j :: 0 <= j < i ==> data[j] == master.data[j] + VirtualCells(reg, d, master.columns, master.data[j])
      invariant forall j :: i <= j < |data| ==> data[j] == master.data[j]
    {
      data := data[i := data[i] + VirtualCells(reg, d, master.columns, data[i])];
      i := i + 1;
    }
    r := Table(master.columns + d.columns, data);
  }

  /** The real step of `joinTables` on a found link column: every master row extended in place. */
  method LinkOn(master: Table, other: Table, link: nat) returns (r: Table)
    requires LinkColumn(master, other) == Some(link)
    ensures r == RealStep(master, other)
  {
    var data := master.data;
    var i := 0;
    while i < |data|
      invariant 0 <= i <= |data| == |master.data|
      invariant forall j :: 0 <= j < i ==>
        data[j] == master.data[j] + LinkedCells(other, Key(At(master.data[j], link)))
      invariant forall j :: i <= j < |data| ==> data[j] == master.data[j]
    {
      data := data[i := data[i] + LinkedCells(other, Key(At(data[i], link)))];
      i := i + 1;
    }
    r := Table(master.columns + other.columns[1..], data);
  }

  /**
   * `joinTables`: the absent tables are filtered out; with two or more left,
   * every later table is joined into the first in turn, each step rewriting
   * the master rows in place.
   */
  method JoinTables(reg: Registry, tables: seq<Option<Source>>) returns (r: Option<Source>)
    ensures r == Joined(reg, tables)
  {
    var present := FilterPresent(tables);
    if |present| == 0 {
      return None;
    }
    if |present| == 1 {
      return Some(present[0]);
    }
    var master := AsTable(present[0]);
    var others := present[1..];
    var n := 0;
    while n < |others|
      invariant 0 <= n <= |others|
      invariant master == JoinAll(reg, AsTable(present[0]), others[..n])
    {
      assert others[..n + 1][..n] == others[..n];
      var table := others[n];
      if table.Virtual? && table.def.functionName.Some? {
        master := Widen(reg, master, table.def);
      } else {
        var other := AsTable(table);
        var link := LinkColumn(master, other);
        if link.Some? {
          master := LinkOn(master, other, link.value);
        }
      }
      n := n + 1;
    }
    assert others[..n] == others;
    r := Some(Real(master));
  }
}

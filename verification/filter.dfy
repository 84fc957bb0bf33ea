/**
 * `filterTable`: the rows that satisfy every condition (or, in OR mode, at
 * least one), each condition comparing the upper-cased cell of a column
 * with an upper-cased value through a code such as `<<` or `!=`. The
 * upper-casing and the comparison operator are parameters.
 */
module Filter {
  import opened Tables

  /** A parsed condition: column name, comparator code and value. */
  datatype Condition = Condition(column: string, code: string, value: string)

  /** What a code asks of the comparison: the outcome it names, and whether it is negated. */
  datatype Code = Code(cmp: int, negated: bool)

  /** The six comparator codes. */
  const CondCodes: map<string, Code> := map[
    "<<" := Code(-1, false), "==" := Code(0, false), ">>" := Code(1, false),
    ">=" := Code(-1, true), "!=" := Code(0, true), "<=" := Code(1, true)]

  /** Everything a filter needs besides the table: the conditions, the mode and the string operations. */
  datatype Criteria = Criteria(
    conditions: seq<Option<Condition>>,
    or: bool,
    upper: string -> string,
    cmp: (string, string) -> int)

  /** `array_filter` on the conditions: the ones present, in order. */
  function PresentConditions(conditions: seq<Option<Condition>>): (r: seq<Condition>)
    ensures |r| <= |conditions|
    ensures forall c :: c in r <==> Some(c) in conditions
  {
    if |conditions| == 0 then []
    else
      var rest := PresentConditions(conditions[1..]);
      assert conditions == [conditions[0]] + conditions[1..];
      match conditions[0]
      case None => rest
      case Some(c) => [c] + rest
  }

  /** The cell a condition looks at: the last column with its name; a missing column or cell reads as null. */
  function CellOf(columns: seq<string>, row: Row, column: string): Cell
  {
    match LastIndex(columns, column)
    case None => Null
    case Some(i) => At(row, i)
  }

  /** The outcome of comparing the condition's cell with its value, both upper-cased. */
  function Compare(columns: seq<string>, row: Row, c: Condition, q: Criteria): int
  {
    q.cmp(q.upper(Key(CellOf(columns, row, c.column))), q.upper(c.value))
  }

  /** A condition holds when the comparison gives the code's outcome, or, for a negated code, does not. */
  predicate Holds(columns: seq<string>, row: Row, c: Condition, q: Criteria)
    requires c.code in CondCodes
  {
    var code := CondCodes[c.code];
    if code.negated then Compare(columns, row, c, q) != code.cmp
    else Compare(columns, row, c, q) == code.cmp
  }

  /**
   * Whether a row is kept: with AND, every condition with a known code
   * holds; with OR, at least one does. Unknown codes are ignored.
   */
  predicate Keeps(columns: seq<string>, row: Row, q: Criteria)
  {
    var conds := PresentConditions(q.conditions);
    if q.or then exists k :: 0 <= k < |conds| && conds[k].code in CondCodes && Holds(columns, row, conds[k], q)
    else forall k :: 0 <= k < |conds| && conds[k].code in CondCodes ==> Holds(columns, row, conds[k], q)
  }

  /** Whether each row is kept. */
  function Verdicts(columns: seq<string>, data: seq<Row>, q: Criteria): (v: seq<bool>)
    ensures |v| == |data|
    ensures forall i :: 0 <= i < |data| ==> v[i] == Keeps(columns, data[i], q)
  {
    seq(|data|, i requires 0 <= i < |data| => Keeps(columns, data[i], q))
  }

  /** The rows from position `i` on whose verdict is to keep them, in order. */
  function Select(data: seq<Row>, v: seq<bool>, i: nat): seq<Row>
    requires |v| == |data| && i <= |data|
    decreases |data| - i
  {
    if i == |data| then []
    else (if v[i] then [data[i]] else []) + Select(data, v, i + 1)
  }

  /** `filterTable`: absent stays absent, the columns stay, the kept rows remain. */
  function Filtered(table: Option<Table>, q: Criteria): Option<Table>
  {
    match table
    case None => None
    case Some(t) => Some(Table(t.columns, Select(t.data, Verdicts(t.columns, t.data, q), 0)))
  }

  /** The positions from `i` on whose verdict is to keep, in increasing order. */
  function Positions(v: seq<bool>, i: nat): (r: seq<nat>)
    requires i <= |v|
    ensures forall k :: 0 <= k < |r| ==> i <= r[k] < |v| && v[r[k]]
    ensures forall k, l :: 0 <= k < l < |r| ==> r[k] < r[l]
    ensures forall p :: i <= p < |v| && v[p] ==> p in r
    decreases |v| - i
  {
    if i == |v| then []
    else (if v[i] then [i] else []) + Positions(v, i + 1)
  }

  /** One step of the selection, seen from rows already selected. */
  lemma SelectStep(data: seq<Row>, v: seq<bool>, i: nat, before: seq<Row>)
    requires |v| == |data| && i < |data|
    ensures before + Select(data, v, i) ==
      (if v[i] then before + [data[i]] else before) + Select(data, v, i + 1)
  {
    if v[i] {
      assert before + ([data[i]] + Select(data, v, i + 1)) == (before + [data[i]]) + Select(data, v, i + 1);
    }
  }

  /** As many rows are selected as there are kept positions. */
  lemma {:induction false} SelectCount(data: seq<Row>, v: seq<bool>, i: nat)
    requires |v| == |data| && i <= |data|
    ensures |Select(data, v, i)| == |Positions(v, i)|
    decreases |data| - i
  {
    if i < |data| {
      SelectCount(data, v, i + 1);
    }
  }

  /** Selected row `k` is the row at kept position `k`. */
  lemma {:induction false} SelectAt(data: seq<Row>, v: seq<bool>, i: nat, k: nat)
    requires |v| == |data| && i <= |data| && k < |Select(data, v, i)|
    ensures k < |Positions(v, i)|
    ensures Select(data, v, i)[k] == data[Positions(v, i)[k]]
    decreases |data| - i
  {
    SelectCount(data, v, i);
    if v[i] && k > 0 {
      SelectAt(data, v, i + 1, k - 1);
    } else if !v[i] {
      SelectAt(data, v, i + 1, k);
    }
  }

  /**
   * The rows kept are exactly the rows at the passing positions: an
   * order-preserving selection of every row that satisfies the criteria.
   */
  lemma FilterPassing(columns: seq<string>, data: seq<Row>, q: Criteria)
    ensures |Select(data, Verdicts(columns, data, q), 0)| == |Positions(Verdicts(columns, data, q), 0)|
    ensures forall k :: 0 <= k < |Select(data, Verdicts(columns, data, q), 0)| ==>
      Select(data, Verdicts(columns, data, q), 0)[k] == data[Positions(Verdicts(columns, data, q), 0)[k]]
    ensures forall k :: 0 <= k < |Positions(Verdicts(columns, data, q), 0)| ==>
      Keeps(columns, data[Positions(Verdicts(columns, data, q), 0)[k]], q)
    ensures forall p :: 0 <= p < |data| && Keeps(columns, data[p], q) ==> p in Positions(Verdicts(columns, data, q), 0)
  {
    var v := Verdicts(columns, data, q);
    SelectCount(data, v, 0);
    forall k | 0 <= k < |Select(data, v, 0)| {
      SelectAt(data, v, 0, k);
    }
  }

  /** An absent table stays absent, and a present one keeps its columns and never gains rows. */
  lemma FilterGuards(table: Option<Table>, q: Criteria)
    ensures table.None? ==> Filtered(table, q).None?
    ensures table.Some? ==>
      (Filtered(table, q).Some? && Filtered(table, q).value.columns == table.value.columns &&
       |Filtered(table, q).value.data| <= |table.value.data|)
  {
    if table.Some? {
      FilterPassing(table.value.columns, table.value.data, q);
      var p := Positions(Verdicts(table.value.columns, table.value.data, q), 0);
      PassingBound(p, |table.value.data|);
    }
  }

  /** Strictly increasing positions below `n` are at most `n` many. */
  lemma {:induction false} PassingBound(p: seq<nat>, n: nat)
    requires forall k :: 0 <= k < |p| ==> p[k] < n
    requires forall k, l :: 0 <= k < l < |p| ==> p[k] < p[l]
    ensures |p| <= n
    decreases n
  {
    if |p| > 0 {
      var init := p[..|p| - 1];
      assert forall k :: 0 <= k < |init| ==> init[k] < p[|p| - 1];
      PassingBound(init, p[|p| - 1]);
    }
  }

  /** A condition whose code is unknown changes nothing in AND mode. */
  lemma UnknownCodeIgnored(columns: seq<string>, row: Row, q: Criteria, c: Condition)
    requires !q.or && c.code !in CondCodes
    ensures Keeps(columns, row, q.(conditions := q.conditions + [Some(c)])) == Keeps(columns, row, q)
  {
    var q' := q.(conditions := q.conditions + [Some(c)]);
    var conds := PresentConditions(q.conditions);
    var conds' := PresentConditions(q'.conditions);
    PresentConditionsSnoc(q.conditions, c);
    forall k | 0 <= k < |conds| && conds[k].code in CondCodes
      ensures conds'[k] == conds[k] && Holds(columns, row, conds'[k], q') == Holds(columns, row, conds[k], q)
    {
    }
  }

  /** With only unknown codes, OR mode keeps no row. */
  lemma UnknownCodesKeepNone(columns: seq<string>, row: Row, q: Criteria)
    requires q.or
    requires forall k :: 0 <= k < |q.conditions| && q.conditions[k].Some? ==> q.conditions[k].value.code !in CondCodes
    ensures !Keeps(columns, row, q)
  {
    var conds := PresentConditions(q.conditions);
    forall k | 0 <= k < |conds| ensures conds[k].code !in CondCodes {
      assert conds[k] in conds;
      var i :| 0 <= i < |q.conditions| && q.conditions[i] == Some(conds[k]);
    }
  }

  /** A condition appended at the end is the last one present. */
  lemma {:induction false} PresentConditionsSnoc(conditions: seq<Option<Condition>>, c: Condition)
    ensures PresentConditions(conditions + [Some(c)]) == PresentConditions(conditions) + [c]
    decreases |conditions|
  {
    if |conditions| == 0 {
      assert ([Some(c)])[1..] == [];
    } else {
      assert (conditions + [Some(c)])[1..] == conditions[1..] + [Some(c)];
      PresentConditionsSnoc(conditions[1..], c);
    }
  }

  /** A condition on a column the table lacks compares the empty string. */
  lemma MissingColumnIsEmpty(columns: seq<string>, row: Row, c: Condition, q: Criteria)
    requires c.column !in columns
    ensures Compare(columns, row, c, q) == q.cmp(q.upper(""), q.upper(c.value))
  {
  }

  /**
   * Whether a condition ends the scan of its row: in AND mode when it
   * fails, in OR mode when it holds, as the code's `xor` chain has it.
   */
  predicate Fires(columns: seq<string>, row: Row, c: Condition, q: Criteria)
  {
    c.code in CondCodes &&
    var code := CondCodes[c.code];
    (q.or != code.negated) != (Compare(columns, row, c, q) != code.cmp)
  }

  /** A condition fires exactly when its outcome settles the row: failing under AND, holding under OR. */
  lemma FiresSettles(columns: seq<string>, row: Row, c: Condition, q: Criteria)
    ensures Fires(columns, row, c, q) <==>
      c.code in CondCodes && (if q.or then Holds(columns, row, c, q) else !Holds(columns, row, c, q))
  {
  }

  /** Scanning one row's conditions until one fires, and keeping it according to the mode. */
  method ScanRow(columns: seq<string>, row: Row, conds: seq<Condition>, q: Criteria) returns (keep: bool)
    requires conds == PresentConditions(q.conditions)
    ensures keep == Keeps(columns, row, q)
  {
    var k := 0;
    while k < |conds|
      invariant 0 <= k <= |conds|
      invariant forall l :: 0 <= l < k ==> !Fires(columns, row, conds[l], q)
    {
      if Fires(columns, row, conds[k], q) {
        FiresSettles(columns, row, conds[k], q);
        return q.or;
      }
      k := k + 1;
    }
    forall l | 0 <= l < |conds| ensures !Fires(columns, row, conds[l], q) {
    }
    forall l | 0 <= l < |conds| && conds[l].code in CondCodes
      ensures q.or != Holds(columns, row, conds[l], q)
    {
      FiresSettles(columns, row, conds[l], q);
    }
    keep := !q.or;
  }

  /**
   * `filterTable`: the conditions that are present, then every row
   * scanned and appended when kept.
   */
  method FilterTable(table: Option<Table>, q: Criteria) returns (r: Option<Table>)
    ensures r == Filtered(table, q)
  {
    if table.None? {
      return None;
    }
    var t := table.value;
    var conds := PresentConditions(q.conditions);
    ghost var v := Verdicts(t.columns, t.data, q);
    var filteredRows: seq<Row> := [];
    var i := 0;
    while i < |t.data|
      invariant 0 <= i <= |t.data|
      invariant filteredRows + Select(t.data, v, i) == Select(t.data, v, 0)
    {
      var keep := ScanRow(t.columns, t.data[i], conds, q);
      assert keep == v[i];
      SelectStep(t.data, v, i, filteredRows);
      if keep {
        filteredRows := filteredRows + [t.data[i]];
      }
      i := i + 1;
    }
    assert filteredRows + [] == filteredRows;
    r := Some(Table(t.columns, filteredRows));
  }
}

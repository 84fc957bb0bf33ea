/**
 * `simplifyTable`: duplicates removed by the value of one column, keeping
 * for each value the last row that holds it, the rows in their original
 * order. The column is found with `array_search` (its first occurrence),
 * and values are compared as PHP array keys, so null and the empty string
 * are one key.
 */
module Simplify {
  import opened Tables

  /** The key a row files under: its cell in the column, null or missing being "". */
  function RowKey(row: Row, col: nat): string
  {
    Key(At(row, col))
  }

  /** The keys of all the rows, in order. */
  function RowKeys(data: seq<Row>, col: nat): (r: seq<string>)
    ensures |r| == |data|
    ensures forall i :: 0 <= i < |data| ==> r[i] == RowKey(data[i], col)
  {
    seq(|data|, i requires 0 <= i < |data| => RowKey(data[i], col))
  }

  /** `array_reverse`. */
  function Reverse(s: seq<Row>): (r: seq<Row>)
    ensures |r| == |s|
    ensures forall i :: 0 <= i < |s| ==> r[i] == s[|s| - 1 - i]
  {
    if |s| == 0 then [] else Reverse(s[1..]) + [s[0]]
  }

  /** The rows no later row shares a key with, in their original order. */
  function LastOfKey(data: seq<Row>, col: nat): seq<Row>
  {
    if |data| == 0 then []
    else
      var rest := LastOfKey(data[1..], col);
      if RowKey(data[0], col) in RowKeys(data[1..], col) then rest else [data[0]] + rest
  }

  /** `simplifyTable`: absent stays absent, a missing column changes nothing. */
  function Simplified(table: Option<Table>, column: string): Option<Table>
  {
    match table
    case None => None
    case Some(t) =>
      match FirstIndex(t.columns, column)
      case None => table
      case Some(col) => Some(Table(t.columns, LastOfKey(t.data, col)))
  }

  /** Keys of rows with one more row in front. */
  lemma RowKeysCons(data: seq<Row>, col: nat)
    requires |data| > 0
    ensures RowKeys(data, col) == [RowKey(data[0], col)] + RowKeys(data[1..], col)
  {
  }

  /** The rows kept have distinct keys, and every key of the table is among them. */
  lemma {:induction false} LastOfKeyKeys(data: seq<Row>, col: nat)
    ensures Distinct(RowKeys(LastOfKey(data, col), col))
    ensures forall k :: k in RowKeys(LastOfKey(data, col), col) <==> k in RowKeys(data, col)
    decreases |data|
  {
    if |data| > 0 {
      var r := LastOfKey(data, col);
      var r' := LastOfKey(data[1..], col);
      var k0 := RowKey(data[0], col);
      LastOfKeyKeys(data[1..], col);
      RowKeysCons(data, col);
      if k0 !in RowKeys(data[1..], col) {
        assert r == [data[0]] + r';
        RowKeysCons(r, col);
        assert r[1..] == r';
        DistinctCons(k0, RowKeys(r', col));
      }
    }
  }

  /** A key in front of distinct keys that do not hold it keeps them distinct. */
  lemma DistinctCons(k: string, ks: seq<string>)
    requires Distinct(ks) && k !in ks
    ensures Distinct([k] + ks)
  {
    var s := [k] + ks;
    forall i, j | 0 <= i < j < |s| ensures s[i] != s[j] {
      assert s[j] == ks[j - 1];
      if i > 0 {
        assert s[i] == ks[i - 1];
      }
    }
  }

  /** Where the last row with a key stands in the table. */
  function LastPos(data: seq<Row>, col: nat, key: string): Option<nat>
  {
    LastIndex(RowKeys(data, col), key)
  }

  /** From position `i` on, the positions whose key no later position holds, in increasing order. */
  function KeptFrom(ks: seq<string>, i: nat): (r: seq<nat>)
    requires i <= |ks|
    ensures forall k :: 0 <= k < |r| ==> i <= r[k] < |ks| && ks[r[k]] !in ks[r[k] + 1..]
    ensures forall k, l :: 0 <= k < l < |r| ==> r[k] < r[l]
    decreases |ks| - i
  {
    if i == |ks| then []
    else
      var rest := KeptFrom(ks, i + 1);
      if ks[i] in ks[i + 1..] then rest else [i] + rest
  }

  /** The rows kept from position `i` on are the rows at the kept positions. */
  lemma {:induction false} LastOfKeyIndices(data: seq<Row>, col: nat, i: nat)
    requires i <= |data|
    ensures |LastOfKey(data[i..], col)| == |KeptFrom(RowKeys(data, col), i)|
    ensures forall k :: 0 <= k < |LastOfKey(data[i..], col)| ==>
      LastOfKey(data[i..], col)[k] == data[KeptFrom(RowKeys(data, col), i)[k]]
    decreases |data| - i
  {
    if i < |data| {
      LastOfKeyIndices(data, col, i + 1);
      LastOfKeyFrom(data, col, i);
      var ks := RowKeys(data, col);
      var rest, idx := LastOfKey(data[i + 1..], col), KeptFrom(ks, i + 1);
      if ks[i] !in ks[i + 1..] {
        assert KeptFrom(ks, i) == [i] + idx;
        forall k | 0 <= k < |rest| + 1
          ensures ([data[i]] + rest)[k] == data[([i] + idx)[k]]
        {
          if k > 0 {
            assert ([data[i]] + rest)[k] == rest[k - 1] && ([i] + idx)[k] == idx[k - 1];
          }
        }
      }
    }
  }

  /** The rows kept from position `i` on: the row at `i` is kept unless a later row has its key. */
  lemma LastOfKeyFrom(data: seq<Row>, col: nat, i: nat)
    requires i < |data|
    ensures var ks := RowKeys(data, col);
      LastOfKey(data[i..], col) ==
        if ks[i] in ks[i + 1..] then LastOfKey(data[i + 1..], col)
        else [data[i]] + LastOfKey(data[i + 1..], col)
  {
    assert data[i..][1..] == data[i + 1..];
    assert RowKeys(data[i + 1..], col) == RowKeys(data, col)[i + 1..];
  }

  /**
   * The row kept for a key is the last row holding it, and the kept rows
   * keep the order of the table.
   */
  lemma LastOfKeyLast(data: seq<Row>, col: nat)
    ensures forall j :: 0 <= j < |LastOfKey(data, col)| ==>
      LastPos(data, col, RowKey(LastOfKey(data, col)[j], col)).Some? &&
      LastOfKey(data, col)[j] == data[LastPos(data, col, RowKey(LastOfKey(data, col)[j], col)).value]
    ensures forall i, j :: 0 <= i < j < |LastOfKey(data, col)| ==>
      LastPos(data, col, RowKey(LastOfKey(data, col)[i], col)).Some? &&
      LastPos(data, col, RowKey(LastOfKey(data, col)[j], col)).Some? &&
      LastPos(data, col, RowKey(LastOfKey(data, col)[i], col)).value <
      LastPos(data, col, RowKey(LastOfKey(data, col)[j], col)).value
  {
    var ks := RowKeys(data, col);
    var idx := KeptFrom(ks, 0);
    var r := LastOfKey(data, col);
    assert data[0..] == data;
    LastOfKeyIndices(data, col, 0);
    forall k | 0 <= k < |r| ensures LastPos(data, col, RowKey(r[k], col)) == Some(idx[k]) {
      LastIndexIsLast(ks, ks[idx[k]], idx[k]);
    }
  }

  /** An absent table stays absent; a column the table lacks leaves it unchanged; the columns never change. */
  lemma SimplifyGuards(table: Option<Table>, column: string)
    ensures table.None? ==> Simplified(table, column).None?
    ensures table.Some? && column !in table.value.columns ==> Simplified(table, column) == table
    ensures table.Some? ==>
      (Simplified(table, column).Some? && Simplified(table, column).value.columns == table.value.columns)
  {
  }

  /** Null and the empty string file under the same key: of two such rows only the last is kept. */
  lemma NullMeetsEmpty()
    ensures LastOfKey([[Null], [Str("")]], 0) == [[Str("")]]
  {
    var data: seq<Row> := [[Null], [Str("")]];
    assert RowKeys(data[1..], 0) == [""];
    assert data[1..][1..] == [];
  }

  /**
   * One step of the backward walk: with the rows kept and the keys seen
   * for the rows after the first, taking the first row in front keeps it
   * exactly when its key is new.
   */
  lemma ScanStep(data: seq<Row>, col: nat, kept: seq<Row>, seen: set<string>)
    requires |data| > 0
    requires Reverse(kept) == LastOfKey(data[1..], col)
    requires forall k :: k in seen <==> k in RowKeys(data[1..], col)
    ensures var key := RowKey(data[0], col);
      Reverse(if key in seen then kept else kept + [data[0]]) == LastOfKey(data, col) &&
      forall k :: k in seen + {key} <==> k in RowKeys(data, col)
  {
    RowKeysCons(data, col);
    assert Reverse(kept + [data[0]]) == [data[0]] + Reverse(kept);
  }

  /**
   * `simplifyTable`: the rows walked in reverse, each kept when its key
   * has not been seen yet, then the kept rows reversed back.
   */
  method SimplifyTable(table: Option<Table>, column: string) returns (r: Option<Table>)
    ensures r == Simplified(table, column)
  {
    if table.None? {
      return None;
    }
    var t := table.value;
    var found := FirstIndex(t.columns, column);
    if found.None? {
      return table;
    }
    var col := found.value;
    var n := |t.data|;
    var reversed := Reverse(t.data);
    var existingKeys: set<string> := {};
    var uniqueRows: seq<Row> := [];
    var j := 0;
    while j < n
      invariant 0 <= j <= n
      invariant Reverse(uniqueRows) == LastOfKey(t.data[n - j..], col)
      invariant forall k :: k in existingKeys <==> k in RowKeys(t.data[n - j..], col)
    {
      var row := reversed[j];
      var key := RowKey(row, col);
      ghost var rest := t.data[n - j - 1..];
      assert rest[0] == row && rest[1..] == t.data[n - j..];
      ScanStep(rest, col, uniqueRows, existingKeys);
      if key !in existingKeys {
        uniqueRows := uniqueRows + [row];
        existingKeys := existingKeys + {key};
      }
      j := j + 1;
    }
    assert t.data[n - j..] == t.data;
    r := Some(Table(t.columns, Reverse(uniqueRows)));
  }
}

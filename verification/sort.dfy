/**
 * `sortTable`: a stable sort of the rows on several columns, each cell
 * normalised (transliterated and lower-cased) before comparison, ties on
 * one column broken by the next. The normaliser and the string comparison
 * are parameters; `usort` is modelled by what PHP 8 promises of it, a
 * stable sort, written out as an insertion sort over row positions.
 */
module Sort {
  import opened Tables

  /** The normalised cells a row is sorted by, one per sorting column. */
  function KeyVector(row: Row, indexes: seq<nat>, norm: string -> string): (r: seq<string>)
    ensures |r| == |indexes|
  {
    seq(|indexes|, k requires 0 <= k < |indexes| => norm(Key(At(row, indexes[k]))))
  }

  /** The key vectors of all rows. */
  function KeyVectors(data: seq<Row>, indexes: seq<nat>, norm: string -> string): (r: seq<seq<string>>)
    ensures |r| == |data|
    ensures forall i :: 0 <= i < |data| ==> r[i] == KeyVector(data[i], indexes, norm)
  {
    seq(|data|, i requires 0 <= i < |data| => KeyVector(data[i], indexes, norm))
  }

  /** The comparator of the sort: the first column whose cells compare unequal decides. */
  function Lex(a: seq<string>, b: seq<string>, cmp: (string, string) -> int): int
    requires |a| == |b|
  {
    if |a| == 0 then 0
    else if cmp(a[0], b[0]) != 0 then cmp(a[0], b[0])
    else Lex(a[1..], b[1..], cmp)
  }

  /** A string comparison that orders strings totally: the sign flips with the operands, and `<=` is transitive. */
  ghost predicate TotalPreorder(cmp: (string, string) -> int)
  {
    (forall a, b :: cmp(a, b) < 0 <==> cmp(b, a) > 0) &&
    (forall a, b, c :: cmp(a, b) <= 0 && cmp(b, c) <= 0 ==> cmp(a, c) <= 0)
  }

  /** The comparator's sign flips when its operands are swapped. */
  lemma {:induction false} LexFlip(a: seq<string>, b: seq<string>, cmp: (string, string) -> int)
    requires TotalPreorder(cmp) && |a| == |b|
    ensures Lex(a, b, cmp) < 0 <==> Lex(b, a, cmp) > 0
    ensures Lex(a, b, cmp) == 0 <==> Lex(b, a, cmp) == 0
    decreases |a|
  {
    if |a| > 0 {
      LexFlip(a[1..], b[1..], cmp);
    }
  }

  /** The comparator is transitive on `<=`. */
  lemma {:induction false} LexTrans(a: seq<string>, b: seq<string>, c: seq<string>, cmp: (string, string) -> int)
    requires TotalPreorder(cmp) && |a| == |b| == |c|
    requires Lex(a, b, cmp) <= 0 && Lex(b, c, cmp) <= 0
    ensures Lex(a, c, cmp) <= 0
    decreases |a|
  {
    if |a| > 0 {
      var x, y, z := a[0], b[0], c[0];
      assert cmp(x, z) <= 0;
      assert cmp(x, z) == 0 ==> cmp(z, x) == 0 && cmp(y, x) <= 0 && cmp(z, y) <= 0;
      if cmp(x, y) == 0 && cmp(y, z) == 0 {
        LexTrans(a[1..], b[1..], c[1..], cmp);
      }
    }
  }

  /** Every key vector has the same width. */
  ghost predicate Uniform(keys: seq<seq<string>>, width: nat)
  {
    forall i :: 0 <= i < |keys| ==> |keys[i]| == width
  }

  /**
   * Position `i` sorts before position `j`: its key vector compares lower,
   * or the vectors tie and `i` comes first, which is what makes the sort
   * stable.
   */
  predicate Before(keys: seq<seq<string>>, cmp: (string, string) -> int, i: nat, j: nat)
  {
    i < |keys| && j < |keys| && |keys[i]| == |keys[j]| &&
    var c := Lex(keys[i], keys[j], cmp);
    c < 0 || (c == 0 && i < j)
  }

  /** Two distinct positions are ordered one way or the other. */
  lemma BeforeTotal(keys: seq<seq<string>>, cmp: (string, string) -> int, width: nat, i: nat, j: nat)
    requires TotalPreorder(cmp) && Uniform(keys, width)
    requires i < |keys| && j < |keys| && i != j
    ensures Before(keys, cmp, i, j) || Before(keys, cmp, j, i)
  {
    LexFlip(keys[i], keys[j], cmp);
  }

  /** The order on positions is transitive. */
  lemma BeforeTrans(keys: seq<seq<string>>, cmp: (string, string) -> int, i: nat, j: nat, k: nat)
    requires TotalPreorder(cmp)
    requires Before(keys, cmp, i, j) && Before(keys, cmp, j, k)
    ensures Before(keys, cmp, i, k)
  {
    LexTrans(keys[i], keys[j], keys[k], cmp);
    LexFlip(keys[i], keys[k], cmp);
    LexFlip(keys[i], keys[j], cmp);
    LexFlip(keys[j], keys[k], cmp);
    if Lex(keys[i], keys[k], cmp) == 0 {
      if Lex(keys[i], keys[j], cmp) < 0 {
        LexTrans(keys[j], keys[k], keys[i], cmp);
      } else if Lex(keys[j], keys[k], cmp) < 0 {
        LexTrans(keys[k], keys[i], keys[j], cmp);
      }
    }
  }

  /** Positions listed in sorting order. */
  ghost predicate Sorted(keys: seq<seq<string>>, cmp: (string, string) -> int, order: seq<nat>)
  {
    forall k, l :: 0 <= k < l < |order| ==> Before(keys, cmp, order[k], order[l])
  }

  /** One position inserted in front of the first listed position it sorts before. */
  function Insert(keys: seq<seq<string>>, cmp: (string, string) -> int, order: seq<nat>, x: nat): (r: seq<nat>)
    ensures |r| == |order| + 1
    ensures forall y :: y in r <==> y in order || y == x
  {
    if |order| == 0 then [x]
    else if Before(keys, cmp, x, order[0]) then [x] + order
    else
      var rest := Insert(keys, cmp, order[1..], x);
      assert order == [order[0]] + order[1..];
      [order[0]] + rest
  }

  /** The first `n` positions inserted in turn: the order `usort` leaves the rows in. */
  function SortOrder(keys: seq<seq<string>>, cmp: (string, string) -> int, n: nat): (r: seq<nat>)
    ensures |r| == n
    ensures forall y :: y in r <==> 0 <= y < n
    ensures forall k :: 0 <= k < |r| ==> r[k] < n
  {
    if n == 0 then []
    else
      var r := Insert(keys, cmp, SortOrder(keys, cmp, n - 1), n - 1);
      assert forall k :: 0 <= k < |r| ==> r[k] in r;
      r
  }

  /** Inserting a new position into a sorted list keeps it sorted. */
  lemma {:induction false} InsertSorted(keys: seq<seq<string>>, cmp: (string, string) -> int, width: nat,
                                         order: seq<nat>, x: nat)
    requires TotalPreorder(cmp) && Uniform(keys, width)
    requires forall k :: 0 <= k < |order| ==> order[k] < |keys|
    requires x < |keys| && x !in order && Sorted(keys, cmp, order)
    ensures Sorted(keys, cmp, Insert(keys, cmp, order, x))
    decreases |order|
  {
    if |order| > 0 {
      var y := order[0];
      if Before(keys, cmp, x, y) {
        forall l | 0 < l < |order| ensures Before(keys, cmp, x, order[l]) {
          BeforeTrans(keys, cmp, x, y, order[l]);
        }
      } else {
        BeforeTotal(keys, cmp, width, x, y);
        var rest := order[1..];
        assert Sorted(keys, cmp, rest) by {
          forall k, l | 0 <= k < l < |rest| ensures Before(keys, cmp, rest[k], rest[l]) {
            assert rest[k] == order[k + 1] && rest[l] == order[l + 1];
          }
        }
        InsertSorted(keys, cmp, width, rest, x);
        var r := Insert(keys, cmp, rest, x);
        forall l | 0 <= l < |r| ensures Before(keys, cmp, y, r[l]) {
          assert r[l] in r;
          if r[l] != x {
            var m :| 0 <= m < |rest| && rest[m] == r[l];
            assert order[m + 1] == r[l];
          }
        }
        assert Insert(keys, cmp, order, x) == [y] + r;
      }
    }
  }

  /** The sort order lists every position once, in sorting order. */
  lemma {:induction false} SortOrderSorted(keys: seq<seq<string>>, cmp: (string, string) -> int, width: nat, n: nat)
    requires TotalPreorder(cmp) && Uniform(keys, width) && n <= |keys|
    ensures Sorted(keys, cmp, SortOrder(keys, cmp, n))
    decreases n
  {
    if n > 0 {
      var o := SortOrder(keys, cmp, n - 1);
      SortOrderSorted(keys, cmp, width, n - 1);
      InsertSortedInto(keys, cmp, width, o, n - 1, SortOrder(keys, cmp, n));
    }
  }

  /** `InsertSorted` for an order already known to be the insertion. */
  lemma InsertSortedInto(keys: seq<seq<string>>, cmp: (string, string) -> int, width: nat,
                         order: seq<nat>, x: nat, r: seq<nat>)
    requires TotalPreorder(cmp) && Uniform(keys, width)
    requires forall k :: 0 <= k < |order| ==> order[k] < |keys|
    requires x < |keys| && x !in order && Sorted(keys, cmp, order)
    requires r == Insert(keys, cmp, order, x)
    ensures Sorted(keys, cmp, r)
  {
    InsertSorted(keys, cmp, width, order, x);
  }

  /** The rows in the given order. */
  function Reorder(data: seq<Row>, order: seq<nat>): (r: seq<Row>)
    requires forall k :: 0 <= k < |order| ==> order[k] < |data|
    ensures |r| == |order|
    ensures forall k :: 0 <= k < |order| ==> r[k] == data[order[k]]
  {
    seq(|order|, k requires 0 <= k < |order| => data[order[k]])
  }

  /** The place `Insert` puts the new position at: in front of the first listed position it sorts before. */
  function InsertPlace(keys: seq<seq<string>>, cmp: (string, string) -> int, order: seq<nat>, x: nat): (k: nat)
    ensures k <= |order|
  {
    if |order| == 0 || Before(keys, cmp, x, order[0]) then 0 else 1 + InsertPlace(keys, cmp, order[1..], x)
  }

  /** Insertion puts the new position at its place and moves nothing else. */
  lemma {:induction false} InsertSplits(keys: seq<seq<string>>, cmp: (string, string) -> int, order: seq<nat>, x: nat)
    ensures var k := InsertPlace(keys, cmp, order, x);
      Insert(keys, cmp, order, x) == order[..k] + [x] + order[k..]
    decreases |order|
  {
    if |order| > 0 && !Before(keys, cmp, x, order[0]) {
      InsertSplits(keys, cmp, order[1..], x);
      var k := InsertPlace(keys, cmp, order[1..], x);
      assert order[..k + 1] == [order[0]] + order[1..][..k];
      assert order[k + 1..] == order[1..][k..];
    }
  }

  /** Reordering by two lists one after the other is reordering by each. */
  lemma ReorderConcat(data: seq<Row>, a: seq<nat>, b: seq<nat>)
    requires forall k :: 0 <= k < |a| ==> a[k] < |data|
    requires forall k :: 0 <= k < |b| ==> b[k] < |data|
    ensures Reorder(data, a + b) == Reorder(data, a) + Reorder(data, b)
  {
  }

  /** Reordering by a list with one position inserted adds that position's row. */
  lemma ReorderInsert(data: seq<Row>, o: seq<nat>, k: nat, x: nat, r: seq<nat>)
    requires k <= |o| && x < |data| && r == o[..k] + [x] + o[k..]
    requires forall j :: 0 <= j < |o| ==> o[j] < |data|
    ensures forall j :: 0 <= j < |r| ==> r[j] < |data|
    ensures multiset(Reorder(data, r)) == multiset(Reorder(data, o)) + multiset{data[x]}
  {
    var a, b := o[..k], o[k..];
    assert o == a + b;
    var ra, rb := Reorder(data, a), Reorder(data, b);
    ReorderConcat(data, a, b);
    ReorderConcat(data, a, [x]);
    ReorderConcat(data, a + [x], b);
    assert Reorder(data, [x]) == [data[x]];
  }

  /** The rows in sort order are the first `n` rows, each exactly once: a permutation. */
  lemma {:induction false} SortOrderPermutes(data: seq<Row>, keys: seq<seq<string>>, cmp: (string, string) -> int, n: nat)
    requires n <= |data|
    ensures multiset(Reorder(data, SortOrder(keys, cmp, n))) == multiset(data[..n])
    decreases n
  {
    if n > 0 {
      SortOrderPermutes(data, keys, cmp, n - 1);
      SortOrderStep(data, keys, cmp, n);
      PrefixSnoc(data, n);
    }
  }

  /** Inserting position `n - 1` adds its row to the rows in sort order. */
  lemma SortOrderStep(data: seq<Row>, keys: seq<seq<string>>, cmp: (string, string) -> int, n: nat)
    requires 0 < n <= |data|
    ensures multiset(Reorder(data, SortOrder(keys, cmp, n))) ==
      multiset(Reorder(data, SortOrder(keys, cmp, n - 1))) + multiset{data[n - 1]}
  {
    var o := SortOrder(keys, cmp, n - 1);
    var k := InsertPlace(keys, cmp, o, n - 1);
    InsertSplits(keys, cmp, o, n - 1);
    assert forall j :: 0 <= j < |o| ==> o[j] < |data|;
    ReorderInsert(data, o, k, n - 1, SortOrder(keys, cmp, n));
  }

  /** One more row of the prefix adds that row to its multiset. */
  lemma PrefixSnoc(data: seq<Row>, n: nat)
    requires 0 < n <= |data|
    ensures multiset(data[..n]) == multiset(data[..n - 1]) + multiset{data[n - 1]}
  {
    assert data[..n] == data[..n - 1] + [data[n - 1]];
  }

  /** Sorting keeps the rows: the sorted data is a permutation of the original. */
  lemma SortedPermutes(table: Option<Table>, names: seq<string>, norm: string -> string, cmp: (string, string) -> int)
    requires table.Some?
    ensures SortedTable(table, names, norm, cmp).Some?
    ensures multiset(SortedTable(table, names, norm, cmp).value.data) == multiset(table.value.data)
  {
    var t := table.value;
    var kept := Intersect(names, t.columns);
    if |kept| > 0 {
      var keys := KeyVectors(t.data, Indexes(kept, t.columns), norm);
      SortOrderPermutes(t.data, keys, cmp, |t.data|);
      assert t.data[..|t.data|] == t.data;
    }
  }

  /**
   * `sortTable`: absent stays absent; with no requested column in the
   * table nothing changes; otherwise the rows are stably sorted on the key
   * vectors of the requested columns.
   */
  function SortedTable(table: Option<Table>, names: seq<string>, norm: string -> string,
                       cmp: (string, string) -> int): Option<Table>
  {
    match table
    case None => None
    case Some(t) =>
      var kept := Intersect(names, t.columns);
      if |kept| == 0 then table
      else
        var keys := KeyVectors(t.data, Indexes(kept, t.columns), norm);
        Some(Table(t.columns, Reorder(t.data, SortOrder(keys, cmp, |t.data|))))
  }

  /** An absent table stays absent; without a requested column present the table is unchanged; the columns never change. */
  lemma SortGuards(table: Option<Table>, names: seq<string>, norm: string -> string, cmp: (string, string) -> int)
    ensures table.None? ==> SortedTable(table, names, norm, cmp).None?
    ensures table.Some? && (forall k :: 0 <= k < |names| ==> names[k] !in table.value.columns) ==>
      SortedTable(table, names, norm, cmp) == table
    ensures table.Some? ==>
      (SortedTable(table, names, norm, cmp).Some? &&
       SortedTable(table, names, norm, cmp).value.columns == table.value.columns &&
       |SortedTable(table, names, norm, cmp).value.data| == |table.value.data|)
  {
    if table.Some? {
      var kept := Intersect(names, table.value.columns);
      if |kept| > 0 {
        assert kept[0] in kept;
      }
    }
  }

  /** The sort order lists every position exactly once, in sorting order, ties in original order. */
  lemma SortOrderFacts(keys: seq<seq<string>>, cmp: (string, string) -> int, width: nat, order: seq<nat>)
    requires TotalPreorder(cmp) && Uniform(keys, width) && order == SortOrder(keys, cmp, |keys|)
    ensures Distinct(order)
    ensures forall p :: p in order <==> 0 <= p < |keys|
    ensures forall k, l :: 0 <= k < l < |order| ==>
      Lex(keys[order[k]], keys[order[l]], cmp) < 0 ||
      (Lex(keys[order[k]], keys[order[l]], cmp) == 0 && order[k] < order[l])
  {
    SortOrderSorted(keys, cmp, width, |keys|);
    forall k, l | 0 <= k < l < |order|
      ensures order[k] != order[l]
      ensures Lex(keys[order[k]], keys[order[l]], cmp) < 0 ||
              (Lex(keys[order[k]], keys[order[l]], cmp) == 0 && order[k] < order[l])
    {
      assert Before(keys, cmp, order[k], order[l]);
      LexFlip(keys[order[k]], keys[order[k]], cmp);
    }
  }

  /**
   * The sorted rows are the table's rows, each exactly once, listed so
   * that every row's key vector compares at most equal to any later one's,
   * and rows with equal key vectors keep their original order.
   */
  lemma SortedRows(t: Table, names: seq<string>, norm: string -> string, cmp: (string, string) -> int)
    requires TotalPreorder(cmp) && |Intersect(names, t.columns)| > 0
    ensures var keys := KeyVectors(t.data, Indexes(Intersect(names, t.columns), t.columns), norm);
      var order := SortOrder(keys, cmp, |t.data|);
      SortedTable(Some(t), names, norm, cmp) == Some(Table(t.columns, Reorder(t.data, order))) &&
      Distinct(order) && (forall p :: p in order <==> 0 <= p < |t.data|) &&
      forall k, l :: 0 <= k < l < |t.data| ==>
        Lex(keys[order[k]], keys[order[l]], cmp) < 0 ||
        (Lex(keys[order[k]], keys[order[l]], cmp) == 0 && order[k] < order[l])
  {
    var indexes := Indexes(Intersect(names, t.columns), t.columns);
    var keys := KeyVectors(t.data, indexes, norm);
    SortOrderFacts(keys, cmp, |indexes|, SortOrder(keys, cmp, |keys|));
  }

  /**
   * The memo of normalised cells: every cell of a sorting column, under
   * its PHP key, mapped to its normalisation.
   */
  method Memoise(data: seq<Row>, indexes: seq<nat>, norm: string -> string) returns (memo: map<string, string>)
    ensures forall k :: k in memo ==> memo[k] == norm(k)
    ensures forall i, c :: 0 <= i < |data| && 0 <= c < |indexes| ==> Key(At(data[i], indexes[c])) in memo
  {
    memo := map[];
    var i := 0;
    while i < |data|
      invariant 0 <= i <= |data|
      invariant forall k :: k in memo ==> memo[k] == norm(k)
      invariant forall i', c :: 0 <= i' < i && 0 <= c < |indexes| ==> Key(At(data[i'], indexes[c])) in memo
    {
      var c := 0;
      while c < |indexes|
        invariant 0 <= c <= |indexes|
        invariant forall k :: k in memo ==> memo[k] == norm(k)
        invariant forall i', c' :: 0 <= i' < i && 0 <= c' < |indexes| ==> Key(At(data[i'], indexes[c'])) in memo
        invariant forall c' :: 0 <= c' < c ==> Key(At(data[i], indexes[c'])) in memo
      {
        var cell := Key(At(data[i], indexes[c]));
        memo := memo[cell := norm(cell)];
        c := c + 1;
      }
      i := i + 1;
    }
  }

  /**
   * `sortTable`: the kept names, their column positions, the memo, and
   * the rows reordered by a stable sort whose comparator reads the memo.
   */
  method SortTable(table: Option<Table>, names: seq<string>, norm: string -> string,
                   cmp: (string, string) -> int) returns (r: Option<Table>)
    ensures r == SortedTable(table, names, norm, cmp)
  {
    if table.None? {
      return None;
    }
    var t := table.value;
    var kept := Intersect(names, t.columns);
    if |kept| == 0 {
      return table;
    }
    var indexes := Indexes(kept, t.columns);
    var memo := Memoise(t.data, indexes, norm);
    var keys := seq(|t.data|, i requires 0 <= i < |t.data| =>
      seq(|indexes|, c requires 0 <= c < |indexes| => memo[Key(At(t.data[i], indexes[c]))]));
    forall i | 0 <= i < |t.data| ensures keys[i] == KeyVector(t.data[i], indexes, norm) {
      assert forall c :: 0 <= c < |indexes| ==> keys[i][c] == norm(Key(At(t.data[i], indexes[c])));
    }
    assert keys == KeyVectors(t.data, indexes, norm);
    var order := SortOrder(keys, cmp, |t.data|);
    r := Some(Table(t.columns, Reorder(t.data, order)));
  }
}

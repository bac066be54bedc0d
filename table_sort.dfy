/** The order a data table sorts by: the comparator of `sortedData` read as
    "row a may come before row b", and the sort it delivers. */
module TableSort {
  import opened TableValues

  datatype Dir = Asc | Desc

  /** `localeCompare` taken as plain code-unit lexicographic comparison:
      negative, zero or positive. */
  function StrCompare(a: string, b: string): int
    decreases |a|
  {
    if a == [] && b == [] then 0
    else if a == [] then -1
    else if b == [] then 1
    else if a[0] < b[0] then -1
    else if b[0] < a[0] then 1
    else StrCompare(a[1..], b[1..])
  }

  /** Swapping the operands negates the comparison. */
  lemma {:induction false} StrCompareAntisymmetric(a: string, b: string)
    ensures StrCompare(b, a) == -StrCompare(a, b)
    decreases |a|
  {
    if a != [] && b != [] && a[0] == b[0] {
      StrCompareAntisymmetric(a[1..], b[1..]);
    }
  }

  /** Strings compare equal exactly when they are equal. */
  lemma {:induction false} StrCompareZero(a: string, b: string)
    ensures StrCompare(a, b) == 0 <==> a == b
    decreases |a|
  {
    if a != [] && b != [] && a[0] == b[0] {
      StrCompareZero(a[1..], b[1..]);
      assert a == [a[0]] + a[1..] && b == [b[0]] + b[1..];
    }
  }

  /** "Not after" is transitive. */
  lemma {:induction false} StrCompareTransitive(a: string, b: string, c: string)
    requires StrCompare(a, b) <= 0 && StrCompare(b, c) <= 0
    ensures StrCompare(a, c) <= 0
    decreases |a|
  {
    if a != [] && b != [] && c != [] && a[0] == b[0] && b[0] == c[0] {
      StrCompareTransitive(a[1..], b[1..], c[1..]);
    }
  }

  /** The comparison of two present cells with the sort direction `Asc`:
      numbers by subtraction, strings by `StrCompare`; in a column that mixes
      the two, numbers come first. */
  function Compare(a: Value, b: Value): real
    requires a != Null && b != Null
  {
    match (a, b)
    case (Num(x, _), Num(y, _)) => x - y
    case (Str(s), Str(t)) => StrCompare(s, t) as real
    case (Num(_, _), _) => -1.0
    case (_, _) => 1.0
  }

  /** `sortDir === 'asc' ? cmp : -cmp`. */
  function Directed(cmp: real, dir: Dir): real
  {
    if dir == Asc then cmp else -cmp
  }

  /** A cell may precede another: a present cell before every null, nulls in
      any order among themselves, and present cells by the directed comparison. */
  predicate MayPrecede(a: Value, b: Value, dir: Dir)
  {
    if a == Null then b == Null
    else b == Null || Directed(Compare(a, b), dir) <= 0.0
  }

  lemma CompareAntisymmetric(a: Value, b: Value)
    requires a != Null && b != Null
    ensures Compare(b, a) == -Compare(a, b)
  {
    if a.Str? && b.Str? {
      StrCompareAntisymmetric(a.s, b.s);
    }
  }

  /** Of any two cells, one may precede the other. */
  lemma MayPrecedeTotal(a: Value, b: Value, dir: Dir)
    ensures MayPrecede(a, b, dir) || MayPrecede(b, a, dir)
  {
    if a != Null && b != Null {
      CompareAntisymmetric(a, b);
    }
  }

  lemma MayPrecedeTransitive(a: Value, b: Value, c: Value, dir: Dir)
    requires MayPrecede(a, b, dir) && MayPrecede(b, c, dir)
    ensures MayPrecede(a, c, dir)
  {
    if a != Null && b != Null && c != Null {
      CompareAntisymmetric(a, b);
      CompareAntisymmetric(b, c);
      CompareAntisymmetric(a, c);
      if a.Str? && b.Str? && c.Str? {
        if dir == Asc {
          StrCompareTransitive(a.s, b.s, c.s);
        } else {
          StrCompareAntisymmetric(a.s, b.s);
          StrCompareAntisymmetric(b.s, c.s);
          StrCompareAntisymmetric(a.s, c.s);
          StrCompareTransitive(c.s, b.s, a.s);
        }
      }
    }
  }

  /** For present cells the descending order is the ascending order reversed. */
  lemma DescIsReversedAsc(a: Value, b: Value)
    requires a != Null && b != Null
    ensures MayPrecede(a, b, Desc) <==> MayPrecede(b, a, Asc)
  {
    CompareAntisymmetric(a, b);
  }

  /** Nulls come last in both directions: a null may precede only a null, and
      every present cell may precede a null. */
  lemma NullsLast(a: Value, dir: Dir)
    ensures MayPrecede(Null, a, dir) <==> a == Null
    ensures MayPrecede(a, Null, dir)
  {
  }

  // ----- the sort -----

  /** Row a may precede row b when sorting by `key` in direction `dir`. */
  predicate RowBefore(key: string, dir: Dir, a: Row, b: Row)
  {
    MayPrecede(Get(a, key), Get(b, key), dir)
  }

  /** No row is placed after one it must follow. */
  predicate Sorted(rows: seq<Row>, key: string, dir: Dir)
  {
    forall i, j :: 0 <= i < j < |rows| ==> RowBefore(key, dir, rows[i], rows[j])
  }

  /** x placed before the first row of the sorted `rows` it may precede. */
  function Insert(x: Row, rows: seq<Row>, key: string, dir: Dir): (r: seq<Row>)
    ensures multiset(r) == multiset(rows) + multiset{x}
  {
    if rows == [] then [x]
    else if RowBefore(key, dir, x, rows[0]) then [x] + rows
    else
      assert rows == [rows[0]] + rows[1..];
      [rows[0]] + Insert(x, rows[1..], key, dir)
  }

  /** Inserting into a sorted sequence keeps it sorted. */
  lemma {:induction false} InsertSorted(x: Row, rows: seq<Row>, key: string, dir: Dir)
    requires Sorted(rows, key, dir)
    ensures Sorted(Insert(x, rows, key, dir), key, dir)
  {
    if rows == [] {
    } else if RowBefore(key, dir, x, rows[0]) {
      forall j | 0 <= j < |rows|
        ensures RowBefore(key, dir, x, rows[j])
      {
        if j > 0 {
          MayPrecedeTransitive(Get(x, key), Get(rows[0], key), Get(rows[j], key), dir);
        }
      }
      ConsSorted(x, rows, key, dir);
    } else {
      MayPrecedeTotal(Get(x, key), Get(rows[0], key), dir);
      InsertSorted(x, rows[1..], key, dir);
      var tail := Insert(x, rows[1..], key, dir);
      HeadPrecedesInsert(x, rows, tail, key, dir);
      ConsSorted(rows[0], tail, key, dir);
    }
  }

  /** A row that may precede every row of a sorted sequence can head it. */
  lemma ConsSorted(x: Row, rows: seq<Row>, key: string, dir: Dir)
    requires Sorted(rows, key, dir)
    requires forall j :: 0 <= j < |rows| ==> RowBefore(key, dir, x, rows[j])
    ensures Sorted([x] + rows, key, dir)
  {
    var r := [x] + rows;
    forall i, j | 0 <= i < j < |r|
      ensures RowBefore(key, dir, r[i], r[j])
    {
      if i > 0 {
        assert r[i] == rows[i - 1] && r[j] == rows[j - 1];
      } else {
        assert r[j] == rows[j - 1];
      }
    }
  }

  /** The head of a sorted sequence may precede every row of its tail with x
      inserted, when it may precede x. */
  lemma HeadPrecedesInsert(x: Row, rows: seq<Row>, tail: seq<Row>, key: string, dir: Dir)
    requires rows != [] && Sorted(rows, key, dir) && RowBefore(key, dir, rows[0], x)
    requires tail == Insert(x, rows[1..], key, dir)
    ensures forall j :: 0 <= j < |tail| ==> RowBefore(key, dir, rows[0], tail[j])
  {
    forall j | 0 <= j < |tail|
      ensures RowBefore(key, dir, rows[0], tail[j])
    {
      assert tail[j] in multiset(rows[1..]) + multiset{x};
      if tail[j] != x {
        assert tail[j] in rows[1..];
        var k :| 0 <= k < |rows[1..]| && rows[1..][k] == tail[j];
        assert rows[k + 1] == tail[j];
      }
    }
  }

  /** `[...rows].sort(cmp)`: a stable insertion sort under `RowBefore`. */
  function SortRows(rows: seq<Row>, key: string, dir: Dir): (r: seq<Row>)
    ensures multiset(r) == multiset(rows)
    ensures Sorted(r, key, dir)
  {
    if rows == [] then []
    else
      assert rows == [rows[0]] + rows[1..];
      InsertSorted(rows[0], SortRows(rows[1..], key, dir), key, dir);
      Insert(rows[0], SortRows(rows[1..], key, dir), key, dir)
  }

  /** In a sorted table every row whose cell is null comes after every row
      whose cell is present. */
  lemma SortedNullsLast(rows: seq<Row>, key: string, dir: Dir, i: int, j: int)
    requires Sorted(rows, key, dir) && 0 <= i < j < |rows|
    ensures Get(rows[i], key) == Null ==> Get(rows[j], key) == Null
  {
    assert RowBefore(key, dir, rows[i], rows[j]);
  }
}

/** The data table: its filter -> sort -> paginate pipeline, and the
    component state (sort key and direction, page, filter text) that the
    header clicks, the filter box and the paging buttons change. */
module DataTable {
  import opened Options
  import opened Sequences
  import opened TableValues
  import opened TableSort

  // ----- filteredData -----

  /** A row passes the filter when its cell is truthy and its lower-cased
      text includes the lower-cased filter. */
  predicate Matches(row: Row, key: string, filter: string)
  {
    var v := Get(row, key);
    Truthy(v) && Includes(Lower(Text(v)), Lower(filter))
  }

  /** `data.filter(row => ...)`: the matching rows, in order. */
  function FilterRows(rows: seq<Row>, key: string, filter: string): (r: seq<Row>)
    ensures |r| <= |rows|
    ensures forall i :: 0 <= i < |r| ==> Matches(r[i], key, filter)
    ensures forall x :: multiset(r)[x] == if Matches(x, key, filter) then multiset(rows)[x] else 0
  {
    if rows == [] then []
    else
      assert rows == [rows[0]] + rows[1..];
      if Matches(rows[0], key, filter) then [rows[0]] + FilterRows(rows[1..], key, filter)
      else FilterRows(rows[1..], key, filter)
  }

  /** The filter keeps the order of the rows it keeps. */
  lemma {:induction false} FilterIsSubsequence(rows: seq<Row>, key: string, filter: string)
    ensures Subsequence(FilterRows(rows, key, filter), rows)
  {
    if rows != [] {
      FilterIsSubsequence(rows[1..], key, filter);
      var r := FilterRows(rows, key, filter);
      if Matches(rows[0], key, filter) {
        assert r[0] == rows[0] && r[1..] == FilterRows(rows[1..], key, filter);
      }
    }
  }

  /** Filtering is active when both the filter text and the filter key are truthy. */
  predicate Filtering(filter: string, filterKey: Option<string>)
  {
    filter != "" && filterKey.Some? && filterKey.value != ""
  }

  /** `filteredData`: the data itself when there is no filter text or no
      filter key, otherwise the matching rows in order. */
  function FilteredData(data: seq<Row>, filter: string, filterKey: Option<string>): (r: seq<Row>)
    ensures !Filtering(filter, filterKey) ==> r == data
    ensures Filtering(filter, filterKey) ==>
              (forall i :: 0 <= i < |r| ==> Matches(r[i], filterKey.value, filter)) &&
              (forall x :: multiset(r)[x] == if Matches(x, filterKey.value, filter) then multiset(data)[x] else 0)
  {
    if !Filtering(filter, filterKey) then data else FilterRows(data, filterKey.value, filter)
  }

  // ----- sortedData -----

  /** Sorting is active when the sort key is truthy. */
  predicate Sorting(sortKey: Option<string>)
  {
    sortKey.Some? && sortKey.value != ""
  }

  /** `sortedData`: the filtered rows themselves with no sort key, otherwise a
      sorted permutation of them. */
  function SortedData(rows: seq<Row>, sortKey: Option<string>, sortDir: Dir): (r: seq<Row>)
    ensures multiset(r) == multiset(rows) && |r| == |rows|
    ensures !Sorting(sortKey) ==> r == rows
    ensures Sorting(sortKey) ==> Sorted(r, sortKey.value, sortDir)
  {
    if !Sorting(sortKey) then rows
    else
      var r := SortRows(rows, sortKey.value, sortDir);
      assert |r| == |multiset(r)| == |multiset(rows)| == |rows|;
      r
  }

  // ----- pages -----

  /** `Math.ceil(length / pageSize)`. */
  function TotalPages(length: nat, pageSize: nat): (n: nat)
    requires pageSize >= 1
    ensures (n - 1) * pageSize < length <= n * pageSize || (length == 0 && n == 0)
  {
    (length + pageSize - 1) / pageSize
  }

  /** `rows.slice(start, end)` for non-negative bounds: both clamped to the length. */
  function Slice(rows: seq<Row>, start: nat, end: nat): (r: seq<Row>)
    ensures start <= |rows| && start <= end ==> r == rows[start..if end <= |rows| then end else |rows|]
    ensures start >= |rows| || end <= start ==> r == []
  {
    var s := if start <= |rows| then start else |rows|;
    var e := if end <= |rows| then end else |rows|;
    if s <= e then rows[s..e] else []
  }

  /** `pageData`: the rows of page `page`, at most `pageSize` of them. */
  function PageData(rows: seq<Row>, page: nat, pageSize: nat): (r: seq<Row>)
    ensures |r| <= pageSize
    ensures forall i :: 0 <= i < |r| ==> page * pageSize + i < |rows| && r[i] == rows[page * pageSize + i]
  {
    Slice(rows, page * pageSize, (page + 1) * pageSize)
  }

  /** The last page index the buttons can reach: `max(0, totalPages - 1)`. */
  function LastPage(length: nat, pageSize: nat): nat
    requires pageSize >= 1
  {
    if TotalPages(length, pageSize) == 0 then 0 else TotalPages(length, pageSize) - 1
  }

  /** Every row is shown on exactly one page: row k is entry `k % pageSize`
      of page `k / pageSize`, and that page exists. */
  lemma RowOnItsPage(rows: seq<Row>, pageSize: nat, k: nat)
    requires pageSize >= 1 && k < |rows|
    ensures k / pageSize < TotalPages(|rows|, pageSize)
    ensures var p := PageData(rows, k / pageSize, pageSize);
            k % pageSize < |p| && p[k % pageSize] == rows[k]
  {
    var q, m := k / pageSize, k % pageSize;
    var start, end := q * pageSize, (q + 1) * pageSize;
    DivMod(k, pageSize);
    assert end == start + pageSize;
    DivLowerBound(q + 1, |rows| + pageSize - 1, pageSize);
    var p := PageData(rows, q, pageSize);
    assert p == rows[start..if end <= |rows| then end else |rows|];
  }

  /** k is its quotient times the divisor plus its remainder. */
  lemma DivMod(k: nat, d: nat)
    requires d >= 1
    ensures k == (k / d) * d + k % d && 0 <= k % d < d
  {
  }

  /** a multiple `a * d` that fits in b gives a quotient of at least a. */
  lemma DivLowerBound(a: nat, b: nat, d: nat)
    requires d >= 1 && a * d <= b
    ensures a <= b / d
  {
    DivMod(b, d);
    assert b < (b / d + 1) * d;
    MultiplyOrder(b / d + 1, a, d);
  }

  /** Multiplying by a positive d keeps the order of two naturals. */
  lemma MultiplyOrder(x: nat, y: nat, d: nat)
    requires d >= 1
    ensures x <= y <==> x * d <= y * d
  {
  }

  /** Every page the buttons can reach is non-empty while there are rows. */
  lemma ReachablePagesNonEmpty(rows: seq<Row>, pageSize: nat, page: nat)
    requires pageSize >= 1 && |rows| > 0 && page <= LastPage(|rows|, pageSize)
    ensures |PageData(rows, page, pageSize)| > 0
  {
    var n := TotalPages(|rows|, pageSize);
    assert page <= n - 1;
    MultiplyOrder(page, n - 1, pageSize);
  }

  /** A column header: its key and whether it sorts (`col.sortable !== false`). */
  datatype Column = Column(key: string, sortable: bool)

  /** One rendered table. The props (`data`, `pageSize`, `filterKey`) are
      fixed; the four state hooks are fields. */
  class Table {
    const data: seq<Row>
    const pageSize: nat
    const filterKey: Option<string>
    var sortKey: Option<string>
    var sortDir: Dir
    var page: nat
    var filter: string

    /** The rows after filtering and sorting. */
    function Rows(): seq<Row>
      reads this
    {
      SortedData(FilteredData(data, filter, filterKey), sortKey, sortDir)
    }

    /** The rows on the current page. */
    function Visible(): seq<Row>
      reads this
    {
      PageData(Rows(), page, pageSize)
    }

    /** While there are rows, the page the table is on shows some of them. */
    lemma VisibleNonEmpty()
      requires Valid() && |Rows()| > 0
      ensures |Visible()| > 0
    {
      ReachablePagesNonEmpty(Rows(), pageSize, page);
    }

    /** A positive page size and the page within reach of the buttons. */
    ghost predicate Valid()
      reads this
    {
      pageSize >= 1 && page <= LastPage(|Rows()|, pageSize)
    }

    /** The initial state: no sort key, ascending, page 0, no filter text. */
    constructor(data: seq<Row>, pageSize: nat, filterKey: Option<string>)
      requires pageSize >= 1
      ensures this.data == data && this.pageSize == pageSize && this.filterKey == filterKey
      ensures sortKey == None && sortDir == Asc && page == 0 && filter == ""
      ensures Valid()
    {
      this.data := data;
      this.pageSize := pageSize;
      this.filterKey := filterKey;
      sortKey := None;
      sortDir := Asc;
      page := 0;
      filter := "";
    }

    /** `handleSort`: the current key flips the direction; another key
        becomes the sort key, ascending. */
    method HandleSort(key: string)
      requires Valid()
      modifies this
      ensures old(sortKey) == Some(key) ==> sortDir == (if old(sortDir) == Asc then Desc else Asc)
      ensures old(sortKey) != Some(key) ==> sortDir == Asc
      ensures sortKey == Some(key)
      ensures page == old(page) && filter == old(filter)
      ensures Valid()
    {
      if sortKey == Some(key) {
        sortDir := if sortDir == Asc then Desc else Asc;
      } else {
        sortKey := Some(key);
        sortDir := Asc;
      }
    }

    /** A click on a header sorts by its column unless it is marked unsortable. */
    method ClickHeader(column: Column)
      requires Valid()
      modifies this
      ensures column.sortable ==> sortKey == Some(column.key)
      ensures column.sortable ==>
                sortDir == (if old(sortKey) == Some(column.key)
                            then (if old(sortDir) == Asc then Desc else Asc) else Asc)
      ensures !column.sortable ==> sortKey == old(sortKey) && sortDir == old(sortDir)
      ensures page == old(page) && filter == old(filter)
      ensures Valid()
    {
      if column.sortable {
        HandleSort(column.key);
      }
    }

    /** The filter box's `onChange`: new filter text, back to page 0. */
    method ChangeFilter(value: string)
      requires Valid()
      modifies this
      ensures filter == value && page == 0
      ensures sortKey == old(sortKey) && sortDir == old(sortDir)
      ensures Valid()
    {
      filter := value;
      page := 0;
    }

    /** The Prev button: shown only with more than one page, disabled on page 0. */
    method PrevPage()
      requires Valid()
      modifies this
      ensures var n := TotalPages(|Rows()|, pageSize);
              page == if n > 1 && old(page) != 0 then old(page) - 1 else old(page)
      ensures sortKey == old(sortKey) && sortDir == old(sortDir) && filter == old(filter)
      ensures Valid()
    {
      if TotalPages(|Rows()|, pageSize) > 1 && page != 0 {
        page := page - 1;
      }
    }

    /** The Next button: shown only with more than one page, disabled from
        the last page on. */
    method NextPage()
      requires Valid()
      modifies this
      ensures var n := TotalPages(|Rows()|, pageSize);
              page == if n > 1 && old(page) < n - 1 then old(page) + 1 else old(page)
      ensures sortKey == old(sortKey) && sortDir == old(sortDir) && filter == old(filter)
      ensures Valid()
    {
      var n := TotalPages(|Rows()|, pageSize);
      if n > 1 && page < n - 1 {
        page := page + 1;
      }
    }
  }
}

/** The PHP built-ins the two core classes rely on, with PHP's semantics for the values that
    occur in them. */
module Php {
  import opened Wrappers

  /** `empty($s)` for a string: true for `""` and also for `"0"`. */
  predicate IsEmpty(s: string)
  {
    s == "" || s == "0"
  }

  /** Strings that look empty or false but are not `empty()` in PHP, beside the two that are. */
  lemma EmptyStringExamples()
    ensures IsEmpty("") && IsEmpty("0")
    ensures !IsEmpty("00") && !IsEmpty("0.0") && !IsEmpty(" ") && !IsEmpty("false")
  {
  }

  /** `array_column($rows, $column)` on a list: the column value of every row that has the
      column, in row order, reindexed from 0. Rows without the column are skipped. */
  function ArrayColumn<R, V>(rows: seq<R>, column: R -> Option<V>): (r: seq<V>)
    ensures |r| <= |rows|
    ensures forall i :: 0 <= i < |rows| && column(rows[i]).Some? ==> column(rows[i]).value in r
  {
    if rows == [] then []
    else
      var rest := ArrayColumn(rows[1..], column);
      assert forall i :: 0 < i < |rows| ==> rows[i] == rows[1..][i - 1];
      match column(rows[0])
      case Some(v) => [v] + rest
      case None => rest
  }

  /** The position in `rows` of the row that supplied element `k` of `ArrayColumn(rows, column)`. */
  function RowOf<R, V>(rows: seq<R>, column: R -> Option<V>, k: nat): (i: nat)
    requires k < |ArrayColumn(rows, column)|
    ensures k <= i < |rows|
    ensures column(rows[i]) == Some(ArrayColumn(rows, column)[k])
    decreases rows
  {
    if column(rows[0]).Some? then
      if k == 0 then 0 else 1 + RowOf(rows[1..], column, k - 1)
    else
      1 + RowOf(rows[1..], column, k)
  }

  /** `array_search($needle, $haystack)` on a list: the index of the first element equal to
      `needle`, or `None` for PHP's `false`. */
  function ArraySearch<V(==)>(needle: V, haystack: seq<V>): (r: Option<nat>)
    ensures r.Some? ==> r.value < |haystack| && haystack[r.value] == needle
    ensures r.Some? ==> forall j :: 0 <= j < r.value ==> haystack[j] != needle
    ensures r.None? <==> needle !in haystack
  {
    if haystack == [] then None
    else if haystack[0] == needle then Some(0)
    else
      match ArraySearch(needle, haystack[1..])
      case None => None
      case Some(i) => Some(i + 1)
  }

  /** An `array_search` result used as an array index: PHP converts the key `false` to `0`. */
  function AsIndex(r: Option<nat>): nat
  {
    match r
    case None => 0
    case Some(i) => i
  }

  /** When every row has the column nothing is skipped: element `k` of the column comes
      from row `k`. */
  lemma {:induction false} ColumnOfCompleteRows<R, V>(rows: seq<R>, column: R -> Option<V>)
    requires forall i :: 0 <= i < |rows| ==> column(rows[i]).Some?
    ensures |ArrayColumn(rows, column)| == |rows|
    ensures forall k :: 0 <= k < |rows| ==> ArrayColumn(rows, column)[k] == column(rows[k]).value
  {
    if rows != [] {
      ColumnOfCompleteRows(rows[1..], column);
      assert forall k :: 0 < k < |rows| ==> rows[k] == rows[1..][k - 1];
    }
  }

  /** Searching the column finds the first row that carries the value: `RowOf` of the
      found position is the first matching row of `rows`, which may lie after that position. */
  lemma {:induction false} ColumnSearchFindsFirstRow<R, V>(needle: V, rows: seq<R>, column: R -> Option<V>)
    requires ArraySearch(needle, ArrayColumn(rows, column)).Some?
    ensures var k := ArraySearch(needle, ArrayColumn(rows, column)).value;
            var i := RowOf(rows, column, k);
            column(rows[i]) == Some(needle) && forall j :: 0 <= j < i ==> column(rows[j]) != Some(needle)
  {
    var col := ArrayColumn(rows, column);
    var k := ArraySearch(needle, col).value;
    var rest := ArrayColumn(rows[1..], column);
    if column(rows[0]).Some? {
      assert col == [column(rows[0]).value] + rest;
      if k > 0 {
        assert column(rows[0]).value == col[0] != needle;
        assert ArraySearch(needle, col) == (match ArraySearch(needle, rest) case None => None case Some(i) => Some(i + 1));
        ColumnSearchFindsFirstRow(needle, rows[1..], column);
        assert forall j :: 0 < j < |rows| ==> rows[j] == rows[1..][j - 1];
      }
    } else {
      assert col == rest;
      ColumnSearchFindsFirstRow(needle, rows[1..], column);
      assert forall j :: 0 < j < |rows| ==> rows[j] == rows[1..][j - 1];
    }
  }

  /** The position the column search returns is the number of rows that carry the column
      before the first row holding the needle, not that row's own position. */
  lemma {:induction false} SearchPositionCountsEarlierRows<R, V>(needle: V, rows: seq<R>, column: R -> Option<V>, f: nat)
    requires f < |rows| && column(rows[f]) == Some(needle)
    requires forall j :: 0 <= j < f ==> column(rows[j]) != Some(needle)
    ensures ArraySearch(needle, ArrayColumn(rows, column)) == Some(|ArrayColumn(rows[..f], column)|)
  {
    var col := ArrayColumn(rows, column);
    var rest := ArrayColumn(rows[1..], column);
    if f == 0 {
      assert rows[..0] == [];
      assert col == [needle] + rest;
    } else {
      assert forall j :: 0 <= j < f - 1 ==> rows[1..][j] == rows[j + 1];
      SearchPositionCountsEarlierRows(needle, rows[1..], column, f - 1);
      var prefix := rows[..f];
      assert prefix[1..] == rows[1..][..f - 1];
      assert prefix[0] == rows[0];
      match column(rows[0])
      case Some(v) =>
        assert col == [v] + rest && col[1..] == rest;
        assert ArrayColumn(prefix, column) == [v] + ArrayColumn(prefix[1..], column);
      case None =>
        assert col == rest;
        assert ArrayColumn(prefix, column) == ArrayColumn(prefix[1..], column);
    }
  }

  /** A row without the column makes the column shorter than the rows. */
  lemma {:induction false} ColumnShorterWhenSomeRowLacks<R, V>(rows: seq<R>, column: R -> Option<V>, j: nat)
    requires j < |rows| && column(rows[j]).None?
    ensures |ArrayColumn(rows, column)| < |rows|
  {
    if j > 0 {
      assert rows[1..][j - 1] == rows[j];
      ColumnShorterWhenSomeRowLacks(rows[1..], column, j - 1);
    }
  }
}

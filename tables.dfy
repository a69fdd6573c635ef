/**
 * Row-level meaning of the two kinds of SQL statement the store issues.
 * A table is a sequence of rows in rowid order, which is the order in which
 * SQLite scans a table when a query has no ORDER BY.
 */
module Tables {
  import opened Wrappers

  /**
   * `fetch_one` of `SELECT ... WHERE p`: the position of the first row, in
   * rowid order, that satisfies the WHERE clause, or None when none does.
   */
  function FindFirst<T>(rows: seq<T>, p: T -> bool): (r: Option<nat>)
    ensures r.Some? ==> r.value < |rows| && p(rows[r.value])
    ensures r.Some? ==> forall j :: 0 <= j < r.value ==> !p(rows[j])
    ensures r.None? <==> forall j :: 0 <= j < |rows| ==> !p(rows[j])
  {
    if rows == [] then None
    else if p(rows[0]) then Some(0)
    else match FindFirst(rows[1..], p)
      case None => None
      case Some(k) => Some(k + 1)
  }

  /** The first-match property determines FindFirst's answer. */
  lemma FindFirstIs<T>(rows: seq<T>, p: T -> bool, k: nat)
    requires k < |rows| && p(rows[k])
    requires forall j :: 0 <= j < k ==> !p(rows[j])
    ensures FindFirst(rows, p) == Some(k)
  {
  }

  /**
   * `UPDATE ... SET f WHERE p`: every row satisfying p is rewritten by f,
   * every other row stays as it was, and no row is added, removed or moved.
   */
  function UpdateWhere<T>(rows: seq<T>, p: T -> bool, f: T -> T): (r: seq<T>)
    ensures |r| == |rows|
    ensures forall i :: 0 <= i < |rows| ==> r[i] == if p(rows[i]) then f(rows[i]) else rows[i]
  {
    if rows == [] then []
    else [if p(rows[0]) then f(rows[0]) else rows[0]] + UpdateWhere(rows[1..], p, f)
  }
}

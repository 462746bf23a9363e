/**
  The `update_history` table and the four statements the DAO runs on it.
  The table is the sequence of its rows in insertion order; SQL gives a
  table no order, so the contracts speak of row counts (multisets), and of
  order only where a statement has an `ORDER BY`.
 */
module UpdateHistoryDao {
  import opened Wrappers

  /** Where an install came from; only `THIS_APP` is named by the code modelled here. */
  datatype InstallSource = ThisApp | OtherSource

  /** One row of `update_history`. */
  datatype UpdateHistory = UpdateHistory(
    id: int,
    packageName: string,
    appName: string,
    repoOwner: string,
    repoName: string,
    fromVersion: string,
    toVersion: string,
    updatedAt: int,
    updateSource: InstallSource,
    success: bool,
    errorMessage: Option<string>
  )

  type Table = seq<UpdateHistory>

  /** The number of rows `LIMIT 50` lets through. */
  const RecentLimit: nat := 50

  /** `@Insert insertHistory`: one more row, every old row kept in place. */
  function Insert(table: Table, h: UpdateHistory): (r: Table)
    ensures |r| == |table| + 1 && r[..|table|] == table && r[|table|] == h
    ensures multiset(r) == multiset(table) + multiset{h}
  {
    table + [h]
  }

  /** `WHERE keep(row)`: the rows that satisfy `keep`, each as often as in `rows`, in their order. */
  function Where(rows: Table, keep: UpdateHistory -> bool): (r: Table)
    ensures forall h :: multiset(r)[h] == if keep(h) then multiset(rows)[h] else 0
    ensures forall k :: 0 <= k < |r| ==> keep(r[k])
    decreases |rows|
  {
    if |rows| == 0 then []
    else
      var rest := Where(rows[1..], keep);
      assert rows == [rows[0]] + rows[1..];
      if keep(rows[0]) then [rows[0]] + rest else rest
  }

  /** Filtering twice by the same condition is filtering once. */
  lemma {:induction false} WhereIdempotent(rows: Table, keep: UpdateHistory -> bool)
    ensures Where(Where(rows, keep), keep) == Where(rows, keep)
    decreases |rows|
  {
    if |rows| > 0 {
      WhereIdempotent(rows[1..], keep);
      var rest := Where(rows[1..], keep);
      if keep(rows[0]) {
        assert ([rows[0]] + rest)[1..] == rest;
      }
    }
  }

  /** `deleteOldHistory(t)`: `DELETE ... WHERE updatedAt < t`. */
  function DeleteOld(table: Table, t: int): (r: Table)
    ensures forall h :: multiset(r)[h] == if h.updatedAt >= t then multiset(table)[h] else 0
    ensures forall k :: 0 <= k < |r| ==> r[k].updatedAt >= t
  {
    Where(table, (h: UpdateHistory) => h.updatedAt >= t)
  }

  /** A row stamped exactly `t` survives the delete. */
  lemma DeleteKeepsBoundary(table: Table, t: int, h: UpdateHistory)
    requires h in table && h.updatedAt == t
    ensures h in DeleteOld(table, t)
  {
    assert multiset(table)[h] > 0;
  }

  /** Deleting the rows older than `t` a second time deletes nothing more. */
  lemma DeleteOldIdempotent(table: Table, t: int)
    ensures DeleteOld(DeleteOld(table, t), t) == DeleteOld(table, t)
  {
    WhereIdempotent(table, (h: UpdateHistory) => h.updatedAt >= t);
  }

  /** `ORDER BY updatedAt DESC`: no row is newer than one before it. */
  ghost predicate NewestFirst(rows: Table) {
    forall i, j :: 0 <= i < j < |rows| ==> rows[i].updatedAt >= rows[j].updatedAt
  }

  /** Puts `h` in front of the first row not newer than it. */
  function InsertByDate(h: UpdateHistory, rows: Table): (r: Table)
    requires NewestFirst(rows)
    ensures NewestFirst(r)
    ensures multiset(r) == multiset(rows) + multiset{h}
    ensures |r| == |rows| + 1
    ensures r[0] == h || (|rows| > 0 && r[0] == rows[0])
    decreases |rows|
  {
    if |rows| == 0 || rows[0].updatedAt <= h.updatedAt then
      NewestFirstCons(h, rows);
      [h] + rows
    else
      NewestFirstTail(rows);
      var rest := InsertByDate(h, rows[1..]);
      assert rows == [rows[0]] + rows[1..];
      NewestFirstCons(rows[0], rest);
      [rows[0]] + rest
  }

  /** Dropping the newest row keeps the order. */
  lemma NewestFirstTail(rows: Table)
    requires NewestFirst(rows) && |rows| > 0
    ensures NewestFirst(rows[1..])
  {
    forall i, j | 0 <= i < j < |rows| - 1
      ensures rows[1..][i].updatedAt >= rows[1..][j].updatedAt
    {
      assert rows[1..][i] == rows[i + 1] && rows[1..][j] == rows[j + 1];
    }
  }

  /** A row no older than the first of an ordered table goes in front of it. */
  lemma NewestFirstCons(h: UpdateHistory, rows: Table)
    requires NewestFirst(rows)
    requires |rows| > 0 ==> h.updatedAt >= rows[0].updatedAt
    ensures NewestFirst([h] + rows)
  {
    var r := [h] + rows;
    forall i, j | 0 <= i < j < |r|
      ensures r[i].updatedAt >= r[j].updatedAt
    {
      assert r[j] == rows[j - 1];
      if i > 0 {
        assert r[i] == rows[i - 1];
      } else if j > 1 {
        assert rows[0].updatedAt >= rows[j - 1].updatedAt;
      }
    }
  }

  /**
    The rows newest first. SQL leaves the order of equal timestamps open;
    this order keeps later-inserted rows ahead among equals, and nothing
    stated below depends on that choice.
   */
  function SortNewestFirst(rows: Table): (r: Table)
    ensures NewestFirst(r)
    ensures multiset(r) == multiset(rows)
    ensures |r| == |rows|
    decreases |rows|
  {
    if |rows| == 0 then []
    else
      assert rows == [rows[0]] + rows[1..];
      InsertByDate(rows[0], SortNewestFirst(rows[1..]))
  }

  /** `getRecentHistory()`: `ORDER BY updatedAt DESC LIMIT 50`. */
  function RecentHistory(table: Table): (r: Table)
    ensures |r| == if |table| < RecentLimit then |table| else RecentLimit
    ensures NewestFirst(r)
    ensures multiset(r) <= multiset(table)
  {
    var sorted := SortNewestFirst(table);
    var n := if |sorted| < RecentLimit then |sorted| else RecentLimit;
    assert sorted == sorted[..n] + sorted[n..];
    sorted[..n]
  }

  /** No row that `getRecentHistory` leaves out is newer than a row it returns. */
  lemma RecentHistoryIsNewest(table: Table, h: UpdateHistory, k: int)
    requires h in multiset(table) - multiset(RecentHistory(table))
    requires 0 <= k < |RecentHistory(table)|
    ensures h.updatedAt <= RecentHistory(table)[k].updatedAt
  {
    var sorted := SortNewestFirst(table);
    var n := |RecentHistory(table)|;
    assert RecentHistory(table) == sorted[..n];
    var j := OmittedIndex(sorted, n, h);
    assert RecentHistory(table)[k] == sorted[k];
    assert sorted[k].updatedAt >= sorted[j].updatedAt;
  }

  /** A row that the first `n` rows do not account for sits at a position from `n` on. */
  lemma OmittedIndex(rows: Table, n: int, h: UpdateHistory) returns (j: int)
    requires 0 <= n <= |rows|
    requires h in multiset(rows) - multiset(rows[..n])
    ensures n <= j < |rows| && rows[j] == h
  {
    assert h in rows[n..] by {
      assert rows == rows[..n] + rows[n..];
      assert multiset(rows) == multiset(rows[..n]) + multiset(rows[n..]);
    }
    var i :| 0 <= i < |rows[n..]| && rows[n..][i] == h;
    j := n + i;
  }

  /** `getHistoryForApp(p)`: `WHERE packageName = p ORDER BY updatedAt DESC`. */
  function HistoryForApp(table: Table, packageName: string): (r: Table)
    ensures forall h :: multiset(r)[h] == if h.packageName == packageName then multiset(table)[h] else 0
    ensures forall k :: 0 <= k < |r| ==> r[k].packageName == packageName
    ensures NewestFirst(r)
  {
    var rows := Where(table, (h: UpdateHistory) => h.packageName == packageName);
    var r := SortNewestFirst(rows);
    assert forall k :: 0 <= k < |r| ==> r[k] in multiset(rows);
    r
  }

  /** Inserting a row of another package leaves a package's history as it was, up to order of equal timestamps. */
  lemma InsertOtherPackage(table: Table, h: UpdateHistory, packageName: string)
    requires h.packageName != packageName
    ensures multiset(HistoryForApp(Insert(table, h), packageName)) == multiset(HistoryForApp(table, packageName))
  {
    var a := HistoryForApp(Insert(table, h), packageName);
    var b := HistoryForApp(table, packageName);
    assert forall x :: multiset(a)[x] == multiset(b)[x];
  }
}

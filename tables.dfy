/**
 * SQLite tables as values: a table is the sequence of its rows in rowid order,
 * and each statement the handlers run is a function from tables to tables or
 * to query results. `ORDER BY` is a sort by a total preorder, and SQLite's
 * ordering of column values (NULL, then numbers, then text) is spelled out.
 */
module Tables {
  import opened Values

  /** One row of a table: its INTEGER PRIMARY KEY and its other columns. */
  datatype Row<D> = Row(id: int, data: D)

  /**
   * The primary-key invariant of a table kept in rowid order: ids are
   * positive, strictly increasing, and below the next id the table hands out.
   */
  ghost predicate Keyed<D>(rows: seq<Row<D>>, next: int) {
    && (forall i :: 0 <= i < |rows| ==> 1 <= rows[i].id < next)
    && (forall i, j :: 0 <= i < j < |rows| ==> rows[i].id < rows[j].id)
  }

  /** Some row has the id. */
  predicate HasId<D>(rows: seq<Row<D>>, id: int) {
    exists i :: 0 <= i < |rows| && rows[i].id == id
  }

  /** `rows[i]` is the first row satisfying `p`, the one `(await query(...))[0]` answers. */
  predicate FirstSelected<D>(rows: seq<Row<D>>, p: Row<D> -> bool, i: int) {
    0 <= i < |rows| && p(rows[i]) && forall j :: 0 <= j < i ==> !p(rows[j])
  }

  /** `WHERE id = ?` */
  function IdIs<D>(id: int): Row<D> -> bool {
    (r: Row<D>) => r.id == id
  }

  /** `SELECT * FROM t WHERE p`, in table order. */
  function Where<D(!new)>(rows: seq<Row<D>>, p: Row<D> -> bool): (r: seq<Row<D>>)
    ensures |r| <= |rows|
    ensures forall x :: x in r <==> x in rows && p(x)
    ensures (forall i :: 0 <= i < |rows| ==> !p(rows[i])) ==> r == []
  {
    if rows == [] then []
    else (if p(rows[0]) then [rows[0]] else []) + Where(rows[1..], p)
  }

  /** Every row of `s` lies strictly above `lo` in id and below `next`. */
  ghost predicate IdsAbove<D>(s: seq<Row<D>>, lo: int, next: int) {
    forall i :: 0 <= i < |s| ==> lo < s[i].id < next
  }

  /** Prepending a row whose id is below all others keeps the primary-key invariant. */
  lemma ConsKeyed<D>(h: Row<D>, tail: seq<Row<D>>, next: int)
    requires 1 <= h.id < next && Keyed(tail, next) && IdsAbove(tail, h.id, next)
    ensures Keyed([h] + tail, next)
  {
    var r := [h] + tail;
    forall i, j | 0 <= i < j < |r|
      ensures r[i].id < r[j].id
    {
      if i > 0 {
        assert r[i] == tail[i - 1] && r[j] == tail[j - 1];
      } else {
        assert r[j] == tail[j - 1];
      }
    }
  }

  /** `s.map(f)`: one result per element, in the same order. */
  function MapEach<A, B>(s: seq<A>, f: A -> B): (r: seq<B>)
    ensures |r| == |s|
    ensures forall i :: 0 <= i < |s| ==> r[i] == f(s[i])
  {
    if s == [] then [] else [f(s[0])] + MapEach(s[1..], f)
  }

  /** The position of the first row satisfying `p`, or `|rows|` when there is none. */
  function FirstIndex<D>(rows: seq<Row<D>>, p: Row<D> -> bool): (k: nat)
    ensures k <= |rows|
    ensures forall j :: 0 <= j < k ==> !p(rows[j])
    ensures k < |rows| ==> p(rows[k])
  {
    if rows == [] then 0
    else if p(rows[0]) then 0
    else 1 + FirstIndex(rows[1..], p)
  }

  /** `(await query(...))[0]`: the first matching row in table order, if any. */
  function First<D>(rows: seq<Row<D>>, p: Row<D> -> bool): (r: Option<Row<D>>)
    ensures r.None? <==> forall i :: 0 <= i < |rows| ==> !p(rows[i])
    ensures r.Some? ==> r.value in rows && p(r.value)
  {
    var k := FirstIndex(rows, p);
    if k < |rows| then Some(rows[k]) else None
  }

  /**
   * `UPDATE t SET ... WHERE p`: every matching row is rewritten by `f`; the
   * other rows, the order and all ids are kept.
   */
  function Update<D>(rows: seq<Row<D>>, p: Row<D> -> bool, f: D -> D): (r: seq<Row<D>>)
    ensures |r| == |rows|
    ensures forall i :: 0 <= i < |rows| ==> r[i].id == rows[i].id
    ensures forall i :: 0 <= i < |rows| && p(rows[i]) ==> r[i].data == f(rows[i].data)
    ensures forall i :: 0 <= i < |rows| && !p(rows[i]) ==> r[i] == rows[i]
  {
    if rows == [] then []
    else [if p(rows[0]) then Row(rows[0].id, f(rows[0].data)) else rows[0]] + Update(rows[1..], p, f)
  }

  /** Re-reading with the WHERE clause of an UPDATE that keeps its rows matching finds the first row, rewritten. */
  lemma FirstAfterUpdate<D>(rows: seq<Row<D>>, p: Row<D> -> bool, f: D -> D)
    requires forall r :: p(r) ==> p(Row(r.id, f(r.data)))
    requires First(rows, p).Some?
    ensures First(Update(rows, p, f), p) == Some(Row(First(rows, p).value.id, f(First(rows, p).value.data)))
  {
    var k := FirstIndex(rows, p);
    var after := Update(rows, p, f);
    assert p(after[k]);
    assert FirstIndex(after, p) == k;
  }

  /** An UPDATE whose WHERE clause matches no row leaves the table as it was. */
  lemma UpdateNoMatch<D>(rows: seq<Row<D>>, p: Row<D> -> bool, f: D -> D)
    requires forall i :: 0 <= i < |rows| ==> !p(rows[i])
    ensures Update(rows, p, f) == rows
  {
    var r := Update(rows, p, f);
    assert forall i :: 0 <= i < |rows| ==> r[i] == rows[i];
  }

  /**
   * Repeating an UPDATE changes nothing more when its SET clause is
   * idempotent and the rewritten rows still satisfy the WHERE clause.
   */
  lemma UpdateTwice<D>(rows: seq<Row<D>>, p: Row<D> -> bool, f: D -> D)
    requires forall r :: p(r) ==> p(Row(r.id, f(r.data)))
    requires forall d :: f(f(d)) == f(d)
    ensures Update(Update(rows, p, f), p, f) == Update(rows, p, f)
  {
    var once := Update(rows, p, f);
    var twice := Update(once, p, f);
    forall i | 0 <= i < |rows|
      ensures twice[i] == once[i]
    {
      if p(rows[i]) {
        assert once[i] == Row(rows[i].id, f(rows[i].data));
      }
    }
  }

  /** Re-reading a row by its id under the primary-key invariant finds that row. */
  lemma FirstById<D>(rows: seq<Row<D>>, p: Row<D> -> bool, k: int, next: int)
    requires Keyed(rows, next) && 0 <= k < |rows|
    requires forall r :: p(r) <==> r.id == rows[k].id
    ensures First(rows, p) == Some(rows[k])
  {
    var j := FirstIndex(rows, p);
    KeyedIdUnique(rows, next, j, k);
  }

  /**
   * The number of rows satisfying `p`: `COUNT(*) ... WHERE p`, and the
   * `changes` SQLite reports for an UPDATE or DELETE with that WHERE clause.
   */
  function CountWhere<D>(rows: seq<Row<D>>, p: Row<D> -> bool): nat {
    if rows == [] then 0 else (if p(rows[0]) then 1 else 0) + CountWhere(rows[1..], p)
  }

  /** Under the primary-key invariant a statement `WHERE id = ?` changes one row when the id exists, else none. */
  lemma {:induction false} CountWhereById<D>(rows: seq<Row<D>>, p: Row<D> -> bool, id: int, next: int)
    requires Keyed(rows, next)
    requires forall r :: p(r) <==> r.id == id
    ensures CountWhere(rows, p) == if exists i :: 0 <= i < |rows| && rows[i].id == id then 1 else 0
  {
    if rows != [] {
      var tail := rows[1..];
      CountWhereById(tail, p, id, next);
      if rows[0].id == id {
        forall k | 0 <= k < |tail|
          ensures tail[k].id != id
        {
          assert tail[k] == rows[k + 1];
        }
      } else {
        if exists i :: 0 <= i < |rows| && rows[i].id == id {
          var i :| 0 <= i < |rows| && rows[i].id == id;
          assert tail[i - 1] == rows[i];
        }
      }
    }
  }

  /** No row is counted exactly when no row matches. */
  lemma {:induction false} CountWhereZero<D>(rows: seq<Row<D>>, p: Row<D> -> bool)
    ensures CountWhere(rows, p) == 0 <==> forall i :: 0 <= i < |rows| ==> !p(rows[i])
  {
    if rows != [] {
      CountWhereZero(rows[1..], p);
      assert forall i :: 1 <= i < |rows| ==> rows[i] == rows[1..][i - 1];
    }
  }

  /** An INSERT adds one to the count of the rows it matches and nothing to the others. */
  lemma {:induction false} CountWhereAppend<D>(rows: seq<Row<D>>, x: Row<D>, p: Row<D> -> bool)
    ensures CountWhere(rows + [x], p) == CountWhere(rows, p) + (if p(x) then 1 else 0)
  {
    if rows != [] {
      CountWhereAppend(rows[1..], x, p);
      assert (rows + [x])[1..] == rows[1..] + [x];
    }
  }

  /** An UPDATE that rewrites no row into or out of `p` keeps the count of `p`. */
  lemma {:induction false} CountWhereUpdate<D>(rows: seq<Row<D>>, p: Row<D> -> bool, q: Row<D> -> bool, f: D -> D)
    requires forall r :: q(r) ==> (p(Row(r.id, f(r.data))) <==> p(r))
    ensures CountWhere(Update(rows, q, f), p) == CountWhere(rows, p)
  {
    if rows != [] {
      CountWhereUpdate(rows[1..], p, q, f);
      assert Update(rows, q, f)[1..] == Update(rows[1..], q, f);
    }
  }

  /** `DELETE FROM t WHERE p`: exactly the matching rows go, the others stay in order. */
  function Delete<D(!new)>(rows: seq<Row<D>>, p: Row<D> -> bool): (r: seq<Row<D>>)
    ensures forall x :: x in r <==> x in rows && !p(x)
    ensures |r| == |rows| - CountWhere(rows, p)
  {
    if rows == [] then []
    else (if p(rows[0]) then [] else [rows[0]]) + Delete(rows[1..], p)
  }

  /** A DELETE whose WHERE clause matches no row leaves the table as it was. */
  lemma {:induction false} DeleteNoMatch<D(!new)>(rows: seq<Row<D>>, p: Row<D> -> bool)
    requires forall i :: 0 <= i < |rows| ==> !p(rows[i])
    ensures Delete(rows, p) == rows
  {
    if rows != [] {
      DeleteNoMatch(rows[1..], p);
    }
  }

  lemma {:induction false} DeleteKeyed<D(!new)>(rows: seq<Row<D>>, p: Row<D> -> bool, lo: int, next: int)
    requires Keyed(rows, next) && IdsAbove(rows, lo, next)
    ensures Keyed(Delete(rows, p), next) && IdsAbove(Delete(rows, p), lo, next)
  {
    if rows != [] {
      var tail := rows[1..];
      assert Keyed(tail, next);
      assert IdsAbove(tail, rows[0].id, next);
      DeleteKeyed(tail, p, rows[0].id, next);
      var d := Delete(tail, p);
      RaiseFloor(d, lo, rows[0].id, next);
      if !p(rows[0]) {
        ConsKeyed(rows[0], d, next);
        ConsAbove(rows[0], d, lo, next);
        assert Delete(rows, p) == [rows[0]] + d;
      } else {
        assert Delete(rows, p) == d;
      }
    }
  }

  lemma RaiseFloor<D>(s: seq<Row<D>>, lo: int, mid: int, next: int)
    requires lo < mid && IdsAbove(s, mid, next)
    ensures IdsAbove(s, lo, next)
  {
  }

  lemma ConsAbove<D>(h: Row<D>, s: seq<Row<D>>, lo: int, next: int)
    requires lo < h.id < next && IdsAbove(s, lo, next)
    ensures IdsAbove([h] + s, lo, next)
  {
    var r := [h] + s;
    forall i | 0 <= i < |r| ensures lo < r[i].id < next {
      if i > 0 { assert r[i] == s[i - 1]; }
    }
  }

  /** An INSERT takes the next id and appends the row. */
  lemma InsertKeyed<D>(rows: seq<Row<D>>, next: int, d: D)
    requires Keyed(rows, next) && next >= 1
    ensures Keyed(rows + [Row(next, d)], next + 1)
  {
  }

  /** An UPDATE keeps the primary-key invariant. */
  lemma UpdateKeyed<D>(rows: seq<Row<D>>, p: Row<D> -> bool, f: D -> D, next: int)
    requires Keyed(rows, next)
    ensures Keyed(Update(rows, p, f), next)
  {
  }

  /** Under the primary-key invariant `UPDATE ... WHERE id = ?` rewrites the one row with that id. */
  lemma UpdateById<D>(rows: seq<Row<D>>, k: int, f: D -> D, next: int)
    requires Keyed(rows, next) && 0 <= k < |rows|
    ensures var r := Update(rows, IdIs(rows[k].id), f);
      && |r| == |rows| && r[k] == Row(rows[k].id, f(rows[k].data))
      && forall j :: 0 <= j < |rows| && j != k ==> r[j] == rows[j]
  {
    var r := Update(rows, IdIs(rows[k].id), f);
    forall j | 0 <= j < |rows| && j != k
      ensures r[j] == rows[j]
    {
      if rows[j].id == rows[k].id {
        KeyedIdUnique(rows, next, j, k);
      }
    }
  }

  /** Under the primary-key invariant at most one row has a given id. */
  lemma KeyedIdUnique<D>(rows: seq<Row<D>>, next: int, i: int, j: int)
    requires Keyed(rows, next)
    requires 0 <= i < |rows| && 0 <= j < |rows| && rows[i].id == rows[j].id
    ensures i == j
  {
  }

  // ---------------------------------------------------------------------------
  // ORDER BY

  ghost predicate TotalPreorder<T(!new)>(le: (T, T) -> bool) {
    && (forall a, b :: le(a, b) || le(b, a))
    && (forall a, b, c :: le(a, b) && le(b, c) ==> le(a, c))
  }

  ghost predicate SortedBy<T>(s: seq<T>, le: (T, T) -> bool) {
    forall i, j :: 0 <= i < j < |s| ==> le(s[i], s[j])
  }

  function InsertBy<T>(x: T, s: seq<T>, le: (T, T) -> bool): (r: seq<T>)
    ensures multiset(r) == multiset(s) + multiset{x}
    ensures |r| == |s| + 1
  {
    if s == [] then [x]
    else if le(x, s[0]) then [x] + s
    else
      assert s == [s[0]] + s[1..];
      [s[0]] + InsertBy(x, s[1..], le)
  }

  /** A stable insertion sort: the rows of the result are those of `s`, ordered by `le`. */
  function SortBy<T>(s: seq<T>, le: (T, T) -> bool): (r: seq<T>)
    ensures multiset(r) == multiset(s)
    ensures |r| == |s|
  {
    if s == [] then []
    else
      assert s == [s[0]] + s[1..];
      InsertBy(s[0], SortBy(s[1..], le), le)
  }

  lemma {:induction false} InsertBySorted<T(!new)>(x: T, s: seq<T>, le: (T, T) -> bool)
    requires TotalPreorder(le) && SortedBy(s, le)
    ensures SortedBy(InsertBy(x, s, le), le)
  {
    if s != [] && !le(x, s[0]) {
      assert le(s[0], x);
      InsertBySorted(x, s[1..], le);
      var tail := InsertBy(x, s[1..], le);
      forall j | 0 <= j < |tail|
        ensures le(s[0], tail[j])
      {
        assert tail[j] in multiset(tail);
        if tail[j] != x {
          assert tail[j] in multiset(s[1..]);
          var k :| 0 <= k < |s[1..]| && s[1..][k] == tail[j];
          assert s[k + 1] == tail[j];
        }
      }
      assert InsertBy(x, s, le) == [s[0]] + tail;
    }
  }

  /** Sorting by a total preorder yields a sorted permutation. */
  lemma {:induction false} SortBySorted<T(!new)>(s: seq<T>, le: (T, T) -> bool)
    requires TotalPreorder(le)
    ensures SortedBy(SortBy(s, le), le)
  {
    if s != [] {
      SortBySorted(s[1..], le);
      InsertBySorted(s[0], SortBy(s[1..], le), le);
    }
  }

  /** `ORDER BY` over a selection: sorted, and holding exactly the rows selected. */
  function OrderBy<T(!new)>(s: seq<T>, le: (T, T) -> bool): (r: seq<T>)
    requires TotalPreorder(le)
    ensures SortedBy(r, le)
    ensures multiset(r) == multiset(s)
  {
    SortBySorted(s, le);
    SortBy(s, le)
  }

  // ---------------------------------------------------------------------------
  // SQLite's ordering of column values

  /** Lexicographic comparison of texts by code point: -1, 0 or 1. */
  function StrCmp(a: string, b: string): int {
    if a == [] && b == [] then 0
    else if a == [] then -1
    else if b == [] then 1
    else if a[0] < b[0] then -1
    else if b[0] < a[0] then 1
    else StrCmp(a[1..], b[1..])
  }

  lemma {:induction false} StrCmpAntisymmetric(a: string, b: string)
    ensures StrCmp(a, b) == -StrCmp(b, a)
    ensures StrCmp(a, b) == 0 <==> a == b
  {
    if a != [] && b != [] && a[0] == b[0] {
      StrCmpAntisymmetric(a[1..], b[1..]);
      if a[1..] == b[1..] {
        assert a == [a[0]] + a[1..] && b == [b[0]] + b[1..];
      }
    }
  }

  lemma {:induction false} StrCmpTransitive(a: string, b: string, c: string)
    requires StrCmp(a, b) <= 0 && StrCmp(b, c) <= 0
    ensures StrCmp(a, c) <= 0
    ensures StrCmp(a, c) == 0 ==> StrCmp(a, b) == 0 && StrCmp(b, c) == 0
  {
    if a != [] && b != [] && c != [] && a[0] == b[0] && b[0] == c[0] {
      StrCmpTransitive(a[1..], b[1..], c[1..]);
    }
  }

  /** The storage class of a bound value in SQLite's sort order. */
  function StorageRank(v: Value): int {
    match v
    case Undefined => 0
    case Null => 0
    case Bool(_) => 1
    case Num(_) => 1
    case Str(_) => 2
    case List(_) => 3
    case Obj(_) => 3
  }

  function NumberOf(v: Value): int
    requires v.Num? || v.Bool?
  {
    if v.Num? then v.n else if v.b then 1 else 0
  }

  function IntCmp(x: int, y: int): int {
    if x < y then -1 else if y < x then 1 else 0
  }

  /** How SQLite orders two values: NULL first, then numbers, then text. */
  function SqlCmp(a: Value, b: Value): int {
    if StorageRank(a) != StorageRank(b) then IntCmp(StorageRank(a), StorageRank(b))
    else if StorageRank(a) == 1 then IntCmp(NumberOf(a), NumberOf(b))
    else if StorageRank(a) == 2 then StrCmp(a.s, b.s)
    else 0
  }

  lemma SqlCmpAntisymmetric(a: Value, b: Value)
    ensures SqlCmp(a, b) == -SqlCmp(b, a)
  {
    if a.Str? && b.Str? {
      StrCmpAntisymmetric(a.s, b.s);
    }
  }

  lemma SqlCmpTransitive(a: Value, b: Value, c: Value)
    requires SqlCmp(a, b) <= 0 && SqlCmp(b, c) <= 0
    ensures SqlCmp(a, c) <= 0
    ensures SqlCmp(a, c) == 0 ==> SqlCmp(a, b) == 0 && SqlCmp(b, c) == 0
  {
    if a.Str? && b.Str? && c.Str? {
      StrCmpTransitive(a.s, b.s, c.s);
    }
  }
}

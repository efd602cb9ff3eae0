/**
 * The meaning of the SQL statements the repositories issue, over a table held
 * as a sequence of rows: `SELECT ... WHERE c`, `DELETE ... WHERE c` and
 * pgx's QueryRow (the first selected row, or ErrNoRows).
 */
module Sql {
  import opened Models

  /** A table's rows, and whether statements against it reach the database server. */
  datatype Table<T> = Table(rows: seq<T>, online: bool)

  /** The negation of a WHERE condition. */
  function Not<T>(cond: T -> bool): T -> bool
  {
    x => !cond(x)
  }

  /** The rows a `WHERE cond` selects, in table order. */
  function Where<T(==,!new)>(rows: seq<T>, cond: T -> bool): (r: seq<T>)
    ensures |r| <= |rows|
    ensures forall x :: x in r <==> x in rows && cond(x)
    ensures r == [] <==> forall x :: x in rows ==> !cond(x)
  {
    if rows == [] then []
    else if cond(rows[0]) then [rows[0]] + Where(rows[1..], cond)
    else Where(rows[1..], cond)
  }

  /** The rows left after `DELETE ... WHERE cond`. */
  function DeleteWhere<T(==,!new)>(rows: seq<T>, cond: T -> bool): (r: seq<T>)
    ensures |r| <= |rows|
    ensures forall x :: x in r <==> x in rows && !cond(x)
  {
    Where(rows, Not(cond))
  }

  /** pgx's QueryRow followed by Scan: the first selected row, ErrNoRows when none, or the connection error. */
  function QueryRow<T(==,!new)>(t: Table<T>, cond: T -> bool): (r: Result<T, DbError>)
    ensures r.Success? ==> t.online && r.value in t.rows && cond(r.value)
    ensures r.Failure? <==> !t.online || forall x :: x in t.rows ==> !cond(x)
    ensures r.Failure? ==> r.error == if t.online then NoRows else ConnectionFailure
  {
    if !t.online then Failure(ConnectionFailure)
    else
      var selected := Where(t.rows, cond);
      if selected == [] then Failure(NoRows) else Success(selected[0])
  }

  /** No two rows share a key (a primary key or a unique column). */
  predicate Distinct<T, K(==)>(rows: seq<T>, key: T -> K)
  {
    forall i, j :: 0 <= i < j < |rows| ==> key(rows[i]) != key(rows[j])
  }

  /** Selecting from a concatenation selects from each part. */
  lemma {:induction false} WhereAppend<T(!new)>(a: seq<T>, b: seq<T>, cond: T -> bool)
    ensures Where(a + b, cond) == Where(a, cond) + Where(b, cond)
  {
    if a != [] {
      assert (a + b)[0] == a[0] && (a + b)[1..] == a[1..] + b;
      WhereAppend(a[1..], b, cond);
      if cond(a[0]) {
        calc {
          Where(a + b, cond);
          [a[0]] + Where(a[1..] + b, cond);
          [a[0]] + (Where(a[1..], cond) + Where(b, cond));
          ([a[0]] + Where(a[1..], cond)) + Where(b, cond);
        }
      }
    } else {
      assert a + b == b;
    }
  }

  /** A condition that implies `p` selects the same rows after a prior `WHERE p`. */
  lemma {:induction false} WhereNarrow<T(!new)>(rows: seq<T>, p: T -> bool, q: T -> bool)
    requires forall x :: q(x) ==> p(x)
    ensures Where(Where(rows, p), q) == Where(rows, q)
  {
    if rows != [] {
      WhereNarrow(rows[1..], p, q);
    }
  }

  /** A condition that every row meets selects the whole table. */
  lemma {:induction false} WhereAll<T(!new)>(rows: seq<T>, cond: T -> bool)
    requires forall x :: x in rows ==> cond(x)
    ensures Where(rows, cond) == rows
  {
    if rows != [] {
      WhereAll(rows[1..], cond);
    }
  }

  /** Selecting keeps keys distinct. */
  lemma {:induction false} WhereDistinct<T(!new), K>(rows: seq<T>, cond: T -> bool, key: T -> K)
    requires Distinct(rows, key)
    ensures Distinct(Where(rows, cond), key)
  {
    if rows != [] {
      WhereDistinct(rows[1..], cond, key);
      var rest := Where(rows[1..], cond);
      if cond(rows[0]) {
        var r := [rows[0]] + rest;
        forall i, j | 0 <= i < j < |r| ensures key(r[i]) != key(r[j]) {
          if i == 0 {
            assert r[j] in rows[1..];
            var k :| 0 <= k < |rows[1..]| && rows[1..][k] == r[j];
            assert rows[k + 1] == r[j];
          } else {
            assert r[i] == rest[i - 1] && r[j] == rest[j - 1];
          }
        }
      }
    }
  }

  /** Appending a row whose key is new keeps keys distinct. */
  lemma AppendDistinct<T, K>(rows: seq<T>, x: T, key: T -> K)
    requires Distinct(rows, key)
    requires forall y :: y in rows ==> key(y) != key(x)
    ensures Distinct(rows + [x], key)
  {
    var r := rows + [x];
    forall i, j | 0 <= i < j < |r| ensures key(r[i]) != key(r[j]) {
      if j == |rows| {
        assert r[i] in rows;
      } else {
        assert r[i] == rows[i] && r[j] == rows[j];
      }
    }
  }

  /** When a key is distinct and the condition pins it, QueryRow finds exactly the row holding it. */
  lemma QueryRowDistinct<T(!new), K>(t: Table<T>, cond: T -> bool, key: T -> K, x: T)
    requires t.online && Distinct(t.rows, key)
    requires x in t.rows && cond(x)
    requires forall y :: cond(y) ==> key(y) == key(x)
    ensures QueryRow(t, cond) == Success(x)
  {
    var r := QueryRow(t, cond);
    assert r.Success?;
    var i :| 0 <= i < |t.rows| && t.rows[i] == r.value;
    var j :| 0 <= j < |t.rows| && t.rows[j] == x;
    assert i == j;
  }
}

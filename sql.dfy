/** The single-table SQL statements the server issues.  A table is a sequence
    of rows in storage order; a WHERE clause is a predicate on one row; the
    SET list of an UPDATE is a function from the old row to the new one. */
module Sql {

  datatype Option<T> = None | Some(value: T)

  /** Row `i` is the first row of `rows`, in storage order, that satisfies `where`. */
  ghost predicate IsFirst<T>(rows: seq<T>, where: T -> bool, i: int)
  {
    0 <= i < |rows| && where(rows[i]) && forall j :: 0 <= j < i ==> !where(rows[j])
  }

  /** The position of the first row satisfying `where`, if there is one. */
  function FirstIndex<T>(rows: seq<T>, where: T -> bool): (r: Option<nat>)
    ensures r.Some? ==> IsFirst(rows, where, r.value)
    ensures r.None? <==> forall i :: 0 <= i < |rows| ==> !where(rows[i])
    ensures forall i :: IsFirst(rows, where, i) ==> r == Some(i)
  {
    if rows == [] then None
    else if where(rows[0]) then Some(0)
    else
      assert forall i :: 1 <= i < |rows| ==> rows[i] == rows[1..][i - 1];
      assert forall i :: IsFirst(rows, where, i) ==> IsFirst(rows[1..], where, i - 1);
      match FirstIndex(rows[1..], where)
      case None => None
      case Some(k) => Some(k + 1)
  }

  /** Rows appended after a matching row do not change which row matches first. */
  lemma FirstIndexAppend<T>(rows: seq<T>, extra: seq<T>, where: T -> bool)
    requires FirstIndex(rows, where).Some?
    ensures FirstIndex(rows + extra, where) == FirstIndex(rows, where)
  {
    var i := FirstIndex(rows, where).value;
    assert forall j :: 0 <= j <= i ==> (rows + extra)[j] == rows[j];
    assert IsFirst(rows + extra, where, i);
  }

  /** SELECT * FROM t WHERE where: the matching rows in storage order; the
      first of them (`rows[0]` in a handler) is the first matching row. */
  function Select<T(!new)>(rows: seq<T>, where: T -> bool): (r: seq<T>)
    ensures |r| <= |rows|
    ensures forall x :: x in r <==> x in rows && where(x)
    ensures r == [] <==> FirstIndex(rows, where).None?
    ensures r != [] ==> r[0] == rows[FirstIndex(rows, where).value]
  {
    if rows == [] then []
    else
      var rest := Select(rows[1..], where);
      assert forall x :: x in rows <==> x == rows[0] || x in rows[1..];
      if where(rows[0]) then [rows[0]] + rest else rest
  }

  /** DELETE FROM t WHERE where: the rows left in the table, in their order. */
  function Delete<T(!new)>(rows: seq<T>, where: T -> bool): (r: seq<T>)
    ensures |r| <= |rows|
    ensures forall x :: x in r <==> x in rows && !where(x)
  {
    if rows == [] then []
    else
      var rest := Delete(rows[1..], where);
      assert forall x :: x in rows <==> x == rows[0] || x in rows[1..];
      if where(rows[0]) then rest else [rows[0]] + rest
  }

  /** UPDATE t SET assign WHERE where: every matching row is replaced by its
      assigned version, every other row stays where and what it was. */
  function Update<T>(rows: seq<T>, where: T -> bool, assign: T -> T): (r: seq<T>)
    ensures |r| == |rows|
    ensures forall i :: 0 <= i < |rows| ==> r[i] == if where(rows[i]) then assign(rows[i]) else rows[i]
  {
    if rows == [] then []
    else
      var rest := Update(rows[1..], where, assign);
      assert forall i :: 1 <= i < |rows| ==> rows[i] == rows[1..][i - 1];
      [if where(rows[0]) then assign(rows[0]) else rows[0]] + rest
  }

  /** A DELETE that matches no row leaves the table as it was. */
  lemma {:induction false} DeleteNothing<T(!new)>(rows: seq<T>, where: T -> bool)
    requires forall j :: 0 <= j < |rows| ==> !where(rows[j])
    ensures Delete(rows, where) == rows
  {
    if rows != [] {
      assert forall j :: 0 <= j < |rows| - 1 ==> rows[1..][j] == rows[j + 1];
      DeleteNothing(rows[1..], where);
      assert rows == [rows[0]] + rows[1..];
    }
  }

  /** A DELETE that matches exactly the row at `i` removes that row and no other. */
  lemma {:induction false} DeleteOnly<T(!new)>(rows: seq<T>, where: T -> bool, i: nat)
    requires i < |rows| && where(rows[i])
    requires forall j :: 0 <= j < |rows| && j != i ==> !where(rows[j])
    ensures Delete(rows, where) == rows[..i] + rows[i + 1..]
  {
    var before, after := rows[..i], rows[i + 1..];
    assert rows == before + ([rows[i]] + after);
    assert forall j :: 0 <= j < |before| ==> !where(before[j]) by {
      assert forall j :: 0 <= j < |before| ==> before[j] == rows[j];
    }
    assert forall j :: 0 <= j < |after| ==> !where(after[j]) by {
      assert forall j :: 0 <= j < |after| ==> after[j] == rows[i + 1 + j];
    }
    DeleteNothing(before, where);
    DeleteNothing(after, where);
    DeleteAppend(before, [rows[i]] + after, where);
    assert Delete([rows[i]] + after, where) == Delete(after, where) by {
      assert ([rows[i]] + after)[1..] == after;
    }
  }

  /** DELETE works row by row: deleting from two parts of a table is deleting from each. */
  lemma {:induction false} DeleteAppend<T(!new)>(a: seq<T>, b: seq<T>, where: T -> bool)
    ensures Delete(a + b, where) == Delete(a, where) + Delete(b, where)
  {
    if a == [] {
      assert a + b == b;
    } else {
      assert (a + b)[0] == a[0];
      assert (a + b)[1..] == a[1..] + b;
      DeleteAppend(a[1..], b, where);
    }
  }

  /** An UPDATE that matches no row leaves the table as it was and returns no row. */
  lemma UpdateNothing<T(!new)>(rows: seq<T>, where: T -> bool, assign: T -> T)
    requires forall j :: 0 <= j < |rows| ==> !where(rows[j])
    ensures Update(rows, where, assign) == rows
    ensures Select(Update(rows, where, assign), where) == []
  {
    var r := Update(rows, where, assign);
    assert forall j :: 0 <= j < |rows| ==> r[j] == rows[j];
  }

  /** An UPDATE that matches exactly the row at `i`, with a SET list that keeps
      the row matching, replaces that row and no other; selecting with the same
      WHERE clause afterwards (what RETURNING gives) finds the new row first. */
  lemma UpdateOnly<T(!new)>(rows: seq<T>, where: T -> bool, assign: T -> T, i: nat)
    requires i < |rows| && where(rows[i]) && where(assign(rows[i]))
    requires forall j :: 0 <= j < |rows| && j != i ==> !where(rows[j])
    ensures Update(rows, where, assign) == rows[i := assign(rows[i])]
    ensures var returned := Select(Update(rows, where, assign), where);
            returned != [] && returned[0] == assign(rows[i])
  {
    var r := Update(rows, where, assign);
    assert forall j :: 0 <= j < |rows| ==> r[j] == rows[i := assign(rows[i])][j];
    assert IsFirst(r, where, i);
  }
}

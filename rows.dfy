/** Tables as sequences of rows in storage order, and the query-builder operations on them. */
module Rows {

  /** `where(key = k)->get()`: the rows whose key is `k`, in table order. */
  function Where<R, K(==)>(rows: seq<R>, keyOf: R -> K, k: K): (r: seq<R>)
    ensures |r| <= |rows|
    ensures forall j :: 0 <= j < |r| ==> keyOf(r[j]) == k
  {
    if rows == [] then []
    else (if keyOf(rows[0]) == k then [rows[0]] else []) + Where(rows[1..], keyOf, k)
  }

  /** `where(key = k)->delete()`: the table without the rows whose key is `k`, the others in order. */
  function DeleteWhere<R, K(==)>(rows: seq<R>, keyOf: R -> K, k: K): (r: seq<R>)
    ensures |r| <= |rows|
    ensures forall j :: 0 <= j < |r| ==> keyOf(r[j]) != k
  {
    if rows == [] then []
    else (if keyOf(rows[0]) == k then [] else [rows[0]]) + DeleteWhere(rows[1..], keyOf, k)
  }

  /** `$row->delete()` on the row stored at position `i`. */
  function RemoveAt<R>(rows: seq<R>, i: nat): (r: seq<R>)
    requires i < |rows|
    ensures |r| == |rows| - 1
    ensures forall j :: 0 <= j < i ==> r[j] == rows[j]
    ensures forall j :: i <= j < |r| ==> r[j] == rows[j + 1]
  {
    rows[..i] + rows[i + 1..]
  }

  lemma {:induction false} WhereConcat<R, K>(a: seq<R>, b: seq<R>, keyOf: R -> K, k: K)
    ensures Where(a + b, keyOf, k) == Where(a, keyOf, k) + Where(b, keyOf, k)
  {
    if a == [] {
      assert a + b == b;
    } else {
      assert (a + b)[1..] == a[1..] + b;
      WhereConcat(a[1..], b, keyOf, k);
    }
  }

  /** Deleting the rows of one key leaves the rows of every other key exactly as they were. */
  lemma {:induction false} DeleteWhereKeepsOthers<R, K>(rows: seq<R>, keyOf: R -> K, k: K, other: K)
    requires other != k
    ensures Where(DeleteWhere(rows, keyOf, k), keyOf, other) == Where(rows, keyOf, other)
  {
    if rows != [] {
      var head := if keyOf(rows[0]) == k then [] else [rows[0]];
      DeleteWhereKeepsOthers(rows[1..], keyOf, k, other);
      WhereConcat(head, DeleteWhere(rows[1..], keyOf, k), keyOf, other);
      if head != [] {
        assert head[1..] == [];
      }
    }
  }

  /** Removing a row of one key leaves the rows of every other key exactly as they were. */
  lemma RemoveAtKeepsOthers<R, K>(rows: seq<R>, i: nat, keyOf: R -> K, other: K)
    requires i < |rows| && keyOf(rows[i]) != other
    ensures Where(RemoveAt(rows, i), keyOf, other) == Where(rows, keyOf, other)
  {
    var before, after := rows[..i], rows[i + 1..];
    var tail := [rows[i]] + after;
    assert Where(tail, keyOf, other) == Where(after, keyOf, other) by {
      assert tail[1..] == after;
    }
    assert Where(rows, keyOf, other) == Where(before, keyOf, other) + Where(after, keyOf, other) by {
      assert rows == before + tail;
      WhereConcat(before, tail, keyOf, other);
    }
    assert RemoveAt(rows, i) == before + after;
    WhereConcat(before, after, keyOf, other);
  }

  /** Every row is either selected by `where(k)` or kept by `where(k)->delete()`: no row is lost or duplicated. */
  lemma {:induction false} WherePartitions<R, K>(rows: seq<R>, keyOf: R -> K, k: K)
    ensures multiset(Where(rows, keyOf, k)) + multiset(DeleteWhere(rows, keyOf, k)) == multiset(rows)
    ensures |Where(rows, keyOf, k)| + |DeleteWhere(rows, keyOf, k)| == |rows|
  {
    if rows != [] {
      WherePartitions(rows[1..], keyOf, k);
      assert rows == [rows[0]] + rows[1..];
    }
  }

  /** `where(k)` selects every row whose key is `k`. */
  lemma {:induction false} WhereSelectsAll<R, K>(rows: seq<R>, keyOf: R -> K, k: K)
    ensures forall j :: 0 <= j < |rows| && keyOf(rows[j]) == k ==> rows[j] in Where(rows, keyOf, k)
  {
    if rows != [] {
      WhereSelectsAll(rows[1..], keyOf, k);
      forall j | 0 < j < |rows| && keyOf(rows[j]) == k
        ensures rows[j] in Where(rows, keyOf, k)
      {
        assert rows[j] == rows[1..][j - 1];
      }
    }
  }

  /** Appending a row of one key leaves the rows of every other key exactly as they were. */
  lemma AppendKeepsOthers<R, K>(rows: seq<R>, x: R, keyOf: R -> K, other: K)
    requires keyOf(x) != other
    ensures Where(rows + [x], keyOf, other) == Where(rows, keyOf, other)
  {
    WhereConcat(rows, [x], keyOf, other);
    assert [x][1..] == [];
  }
}

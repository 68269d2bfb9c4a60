/**
 * Helpers for the PHP arrays and database rows the repositories return:
 * array_unique (and SELECT DISTINCT), and Doctrine's findOneBy on a table
 * whose rows are compared field by field.
 */
module Rows {
  import opened Wrappers

  predicate NoDuplicates<T(==)>(s: seq<T>) {
    forall i, j :: 0 <= i < j < |s| ==> s[i] != s[j]
  }

  /** array_unique(): keeps the first occurrence of every value, in order. */
  function Unique<T(==, !new)>(s: seq<T>): (r: seq<T>)
    ensures NoDuplicates(r)
    ensures forall x :: x in r <==> x in s
    ensures |r| <= |s|
  {
    if |s| == 0 then []
    else
      var init := s[..|s| - 1];
      if s[|s| - 1] in init then Unique(init) else Unique(init) + [s[|s| - 1]]
  }

  /** array_unique() leaves an array without duplicates as it was. */
  lemma {:induction false} UniqueOfDistinct<T(!new)>(s: seq<T>)
    requires NoDuplicates(s)
    ensures Unique(s) == s
  {
    if |s| > 0 {
      var init := s[..|s| - 1];
      assert NoDuplicates(init);
      UniqueOfDistinct(init);
      assert s[|s| - 1] !in init;
      assert s == init + [s[|s| - 1]];
    }
  }

  /** findOneBy(): the position of the first row equal to `row`, or null when there is none. */
  function IndexOf<T(==)>(rows: seq<T>, row: T): (r: Option<nat>)
    ensures r.Some? ==> r.value < |rows| && rows[r.value] == row && row !in rows[..r.value]
    ensures r.None? <==> row !in rows
  {
    if |rows| == 0 then None
    else if rows[0] == row then Some(0)
    else match IndexOf(rows[1..], row)
      case None => None
      case Some(k) => assert rows[1..][..k] == rows[1..k + 1]; Some(k + 1)
  }

  /** The rows with one occurrence of `row` removed (Collection::removeElement). */
  function RemoveFirst<T(==)>(rows: seq<T>, row: T): (r: seq<T>)
    ensures row in rows ==> |r| == |rows| - 1
    ensures row !in rows ==> r == rows
    ensures multiset(r) == multiset(rows) - multiset{row}
    ensures forall x :: x in r ==> x in rows
    ensures forall x :: x in rows && x != row ==> x in r
  {
    if |rows| == 0 then []
    else
      assert rows == [rows[0]] + rows[1..];
      if rows[0] == row then rows[1..]
      else [rows[0]] + RemoveFirst(rows[1..], row)
  }

  /** Removing one value from a duplicate-free sequence leaves exactly the other values. */
  lemma {:induction false} RemoveFirstOfDistinct<T>(rows: seq<T>, row: T)
    requires NoDuplicates(rows)
    ensures NoDuplicates(RemoveFirst(rows, row))
    ensures forall x :: x in RemoveFirst(rows, row) <==> x in rows && x != row
  {
    if |rows| > 0 {
      var head, tail := rows[0], rows[1..];
      DistinctTail(rows);
      if head != row {
        RemoveFirstOfDistinct(tail, row);
        ConsDistinct(head, RemoveFirst(tail, row));
      }
    }
  }

  /** The tail of a duplicate-free sequence is duplicate-free and does not hold the head. */
  lemma DistinctTail<T>(rows: seq<T>)
    requires NoDuplicates(rows) && |rows| > 0
    ensures NoDuplicates(rows[1..]) && rows[0] !in rows[1..]
  {
  }

  /** Putting a new value in front of a duplicate-free sequence keeps it duplicate-free. */
  lemma ConsDistinct<T>(head: T, tail: seq<T>)
    requires NoDuplicates(tail) && head !in tail
    ensures NoDuplicates([head] + tail)
  {
    var s := [head] + tail;
    forall i, j | 0 <= i < j < |s|
      ensures s[i] != s[j]
    {
      assert s[j] == tail[j - 1];
      if i > 0 {
        assert s[i] == tail[i - 1];
      }
    }
  }
}

/**
 * Boolean-mask selection on a table, shared by the `isin` filter of
 * `get_admin_data` and the row filters of the FEWS NET selection. A table is
 * a sequence of rows; `df[mask]` keeps every row whose mask entry is true,
 * in order and with its repetitions.
 */
module Sequences {

  /** `a` is `b` with some elements left out, in the same order. */
  predicate IsSubsequence<T(==)>(a: seq<T>, b: seq<T>)
    decreases |b|
  {
    if a == [] then true
    else if b == [] then false
    else (a[0] == b[0] && IsSubsequence(a[1..], b[1..])) || IsSubsequence(a, b[1..])
  }

  /** `df[mask]` with the mask `keep`: the rows satisfying `keep`, in their original order. */
  function Filter<T(==,!new)>(rows: seq<T>, keep: T -> bool): (r: seq<T>)
    ensures |r| <= |rows|
    ensures forall x :: x in r <==> x in rows && keep(x)
    decreases |rows|
  {
    if rows == [] then []
    else
      var rest := Filter(rows[1..], keep);
      assert rows == [rows[0]] + rows[1..];
      if keep(rows[0]) then [rows[0]] + rest else rest
  }

  /** The mask keeps every row that passes as many times as the table holds it, and no other row. */
  lemma {:induction false} FilterCounts<T(!new)>(rows: seq<T>, keep: T -> bool)
    ensures forall x :: multiset(Filter(rows, keep))[x] == if keep(x) then multiset(rows)[x] else 0
    decreases |rows|
  {
    if rows != [] {
      FilterCounts(rows[1..], keep);
      assert rows == [rows[0]] + rows[1..];
      assert multiset(rows) == multiset{rows[0]} + multiset(rows[1..]);
    }
  }

  /** The kept rows are in the table's order. */
  lemma {:induction false} FilterInOrder<T(!new)>(rows: seq<T>, keep: T -> bool)
    ensures IsSubsequence(Filter(rows, keep), rows)
    decreases |rows|
  {
    if rows != [] {
      var rest := Filter(rows[1..], keep);
      FilterInOrder(rows[1..], keep);
      if keep(rows[0]) {
        assert ([rows[0]] + rest)[1..] == rest;
      }
    }
  }

  /** Filtering twice keeps what passes both tests. */
  lemma {:induction false} FilterTwice<T(!new)>(rows: seq<T>, p: T -> bool, q: T -> bool, both: T -> bool)
    requires forall x :: both(x) == (p(x) && q(x))
    ensures Filter(Filter(rows, p), q) == Filter(rows, both)
    decreases |rows|
  {
    if rows != [] {
      FilterTwice(rows[1..], p, q, both);
      if p(rows[0]) {
        var rest := Filter(rows[1..], p);
        assert Filter(rows, p) == [rows[0]] + rest;
        assert ([rows[0]] + rest)[1..] == rest;
      }
    }
  }

  /** A mask that holds for every row keeps the whole table. */
  lemma {:induction false} FilterKeepsAll<T(!new)>(rows: seq<T>, keep: T -> bool)
    requires forall i :: 0 <= i < |rows| ==> keep(rows[i])
    ensures Filter(rows, keep) == rows
    decreases |rows|
  {
    if rows != [] {
      FilterKeepsAll(rows[1..], keep);
    }
  }

  lemma {:induction false} SubsequenceReflexive<T>(a: seq<T>)
    ensures IsSubsequence(a, a)
    decreases |a|
  {
    if a != [] {
      SubsequenceReflexive(a[1..]);
    }
  }
}

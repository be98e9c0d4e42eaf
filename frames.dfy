/** The few pandas operations the dashboard uses, over a table given as a sequence of rows:
    boolean-mask selection, a column, `nunique()` and `duplicated(keep=False)`. */
module Frames {
  import opened Records

  /** `a` is obtained from `b` by deleting rows, keeping the order of the rest. */
  ghost predicate SubsequenceOf(a: seq<Record>, b: seq<Record>)
    decreases |b|
  {
    if a == [] then true
    else if b == [] then false
    else (a[0] == b[0] && SubsequenceOf(a[1..], b[1..])) || SubsequenceOf(a, b[1..])
  }

  /** Boolean-mask selection: the rows for which `keep` holds, in their original order. */
  function Select(rows: seq<Record>, keep: Record -> bool): (r: seq<Record>)
    ensures |r| <= |rows|
  {
    if rows == [] then []
    else if keep(rows[0]) then [rows[0]] + Select(rows[1..], keep)
    else Select(rows[1..], keep)
  }

  /** What a selection is: a sub-sequence of the rows holding exactly the rows that `keep`
      accepts, each as often as in the table.  Order and multiplicities together determine
      the result uniquely. */
  lemma {:induction false} SelectSpec(rows: seq<Record>, keep: Record -> bool)
    ensures SubsequenceOf(Select(rows, keep), rows)
    ensures forall x :: x in Select(rows, keep) <==> x in rows && keep(x)
    ensures forall x :: multiset(Select(rows, keep))[x] == if keep(x) then multiset(rows)[x] else 0
  {
    if rows != [] {
      SelectSpec(rows[1..], keep);
      assert rows == [rows[0]] + rows[1..];
      var tail := Select(rows[1..], keep);
      if keep(rows[0]) {
        assert ([rows[0]] + tail)[1..] == tail;
      }
    }
  }

  /** Selection row by row: the head row is kept or dropped on its own merits. */
  lemma SelectCons(x: Record, rest: seq<Record>, keep: Record -> bool)
    ensures Select([x] + rest, keep) == (if keep(x) then [x] else []) + Select(rest, keep)
  {
    assert ([x] + rest)[1..] == rest;
  }

  /** When the first row that `keep` accepts is at index `i`, the selection starts with it. */
  lemma {:induction false} SelectFirst(rows: seq<Record>, keep: Record -> bool, i: nat)
    requires i < |rows| && keep(rows[i])
    requires forall j :: 0 <= j < i ==> !keep(rows[j])
    ensures Select(rows, keep) != [] && Select(rows, keep)[0] == rows[i]
  {
    if i > 0 {
      assert !keep(rows[0]);
      SelectFirst(rows[1..], keep, i - 1);
    }
  }

  /** A column of the table as a sequence of cells, one per row. */
  function Column(rows: seq<Record>, key: Record -> Option<string>): (col: seq<Option<string>>)
    ensures |col| == |rows|
    ensures forall i :: 0 <= i < |rows| ==> col[i] == key(rows[i])
  {
    if rows == [] then [] else [key(rows[0])] + Column(rows[1..], key)
  }

  /** Deleting rows can only lower how often a value occurs in a column. */
  lemma {:induction false} ColumnOfSubsequence(a: seq<Record>, b: seq<Record>, key: Record -> Option<string>)
    requires SubsequenceOf(a, b)
    ensures multiset(Column(a, key)) <= multiset(Column(b, key))
    decreases |b|
  {
    if a != [] {
      assert b != [];
      assert Column(b, key) == [key(b[0])] + Column(b[1..], key);
      if a[0] == b[0] && SubsequenceOf(a[1..], b[1..]) {
        ColumnOfSubsequence(a[1..], b[1..], key);
        assert Column(a, key) == [key(a[0])] + Column(a[1..], key);
      } else {
        ColumnOfSubsequence(a, b[1..], key);
      }
    }
  }

  /** The number of unique values of a column counts this set: the distinct values of a column, missing cells not counted. */
  function DistinctOf(rows: seq<Record>, key: Record -> Option<string>): (values: set<string>)
  {
    set x | x in rows && key(x).Some? :: key(x).value
  }

  /** There are never more distinct values than rows. */
  lemma {:induction false} DistinctOfBound(rows: seq<Record>, key: Record -> Option<string>)
    ensures |DistinctOf(rows, key)| <= |rows|
  {
    if rows != [] {
      DistinctOfBound(rows[1..], key);
      var head: set<string> := if key(rows[0]).Some? then {key(rows[0]).value} else {};
      assert rows == [rows[0]] + rows[1..];
      assert DistinctOf(rows, key) == head + DistinctOf(rows[1..], key);
      assert |head + DistinctOf(rows[1..], key)| <= |head| + |DistinctOf(rows[1..], key)|;
    }
  }

  /** A value in some row of the key is counted among the distinct values. */
  lemma DistinctOfNonEmpty(rows: seq<Record>, key: Record -> Option<string>, x: Record)
    requires x in rows && key(x).Some?
    ensures key(x).value in DistinctOf(rows, key) && |DistinctOf(rows, key)| >= 1
  {
  }

  lemma DistinctOfSingle(x: Record, key: Record -> Option<string>)
    requires key(x).Some?
    ensures DistinctOf([x], key) == {key(x).value}
  {
    assert forall y :: y in [x] <==> y == x;
  }

  /** The rows marked by pandas' `duplicated` on the box column with no occurrence
      exempted: every row whose box value occurs more than once in the table.  As in pandas, missing cells compare equal to one another here. */
  function PairedRows(rows: seq<Record>): (paired: seq<Record>)
  {
    Select(rows, x => Duplicated(rows, x))
  }

  /** Whether row `x` is marked as a duplicate: its box cell occurs more than once. */
  predicate Duplicated(rows: seq<Record>, x: Record)
  {
    multiset(Column(rows, BoxOf))[BoxOf(x)] > 1
  }

  /** Reference definition: the box IDs that occur in at least two rows. */
  ghost function RepeatedBoxIds(rows: seq<Record>): (ids: set<string>)
  {
    var col := Column(rows, BoxOf);
    set v | v in col && v.Some? && multiset(col)[v] > 1 :: v.value
  }

  /** A box ID is repeated exactly when it occurs in more than one row. */
  lemma RepeatedBoxIdsMember(rows: seq<Record>, v: string)
    ensures v in RepeatedBoxIds(rows) <==> multiset(Column(rows, BoxOf))[Some(v)] > 1
  {
    var col := Column(rows, BoxOf);
    if multiset(col)[Some(v)] > 1 {
      assert Some(v) in multiset(col);
      assert Some(v) in col;
    }
  }

  /** When every row carries the same box ID, it occurs once per row. */
  lemma {:induction false} SameBoxCount(rows: seq<Record>, v: string)
    requires forall x :: x in rows ==> x.box == Some(v)
    ensures multiset(Column(rows, BoxOf))[Some(v)] == |rows|
  {
    if rows != [] {
      assert rows[0] in rows;
      SameBoxCount(rows[1..], v);
      assert Column(rows, BoxOf) == [BoxOf(rows[0])] + Column(rows[1..], BoxOf);
    }
  }

  /** The distinct box IDs of the paired rows are exactly the set of repeated box IDs:
      a box seen once contributes nothing, a box seen three times contributes once. */
  lemma PairedRowsDistinctBoxes(rows: seq<Record>)
    ensures DistinctOf(PairedRows(rows), BoxOf) == RepeatedBoxIds(rows)
  {
    PairedBoxesAreRepeated(rows);
    RepeatedBoxesArePaired(rows);
  }

  lemma PairedBoxesAreRepeated(rows: seq<Record>)
    ensures DistinctOf(PairedRows(rows), BoxOf) <= RepeatedBoxIds(rows)
  {
    var paired := PairedRows(rows);
    SelectSpec(rows, x => Duplicated(rows, x));
    forall v | v in DistinctOf(paired, BoxOf) ensures v in RepeatedBoxIds(rows) {
      var x :| x in paired && BoxOf(x).Some? && BoxOf(x).value == v;
      assert x in rows && Duplicated(rows, x);
      RepeatedBoxIdsMember(rows, v);
    }
  }

  lemma RepeatedBoxesArePaired(rows: seq<Record>)
    ensures RepeatedBoxIds(rows) <= DistinctOf(PairedRows(rows), BoxOf)
  {
    forall v | v in RepeatedBoxIds(rows) ensures v in DistinctOf(PairedRows(rows), BoxOf) {
      RepeatedBoxIsPaired(rows, v);
    }
  }

  lemma RepeatedBoxIsPaired(rows: seq<Record>, v: string)
    requires v in RepeatedBoxIds(rows)
    ensures v in DistinctOf(PairedRows(rows), BoxOf)
  {
    var col := Column(rows, BoxOf);
    var c :| c in col && c.Some? && multiset(col)[c] > 1 && c.value == v;
    var i :| 0 <= i < |col| && col[i] == c;
    assert Duplicated(rows, rows[i]);
    SelectSpec(rows, x => Duplicated(rows, x));
    assert rows[i] in PairedRows(rows);
  }

  /** Deleting rows never creates a repeated box ID. */
  lemma RepeatedBoxIdsOfSubsequence(a: seq<Record>, b: seq<Record>)
    requires SubsequenceOf(a, b)
    ensures RepeatedBoxIds(a) <= RepeatedBoxIds(b)
    ensures |RepeatedBoxIds(a)| <= |RepeatedBoxIds(b)|
  {
    ColumnOfSubsequence(a, b, BoxOf);
    var colA, colB := Column(a, BoxOf), Column(b, BoxOf);
    forall v | v in RepeatedBoxIds(a) ensures v in RepeatedBoxIds(b) {
      var c :| c in colA && c.Some? && multiset(colA)[c] > 1 && c.value == v;
      assert multiset(colB)[c] > 1;
      assert c in multiset(colB);
    }
    SubsetCardinality(RepeatedBoxIds(a), RepeatedBoxIds(b));
  }

  lemma SubsetCardinality(a: set<string>, b: set<string>)
    requires a <= b
    ensures |a| <= |b|
  {
    assert b == a + (b - a);
  }
}

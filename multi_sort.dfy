/**
 * The heap-sort node's branch for several ORDER BY columns, none of them
 * strings: the retained table is reordered by a row permutation computed
 * with `numpy.lexsort` from the key columns.
 *
 * One stable row sort is defined here, over a list of (column, direction)
 * keys in which the first key decides first. `numpy.lexsort` is that sort
 * over its key columns taken in reverse order, all ascending, since it
 * lets its last key decide first.
 */
module MultiColumnSort {
  import opened HeapSort

  /** A sort key: the key column's value in each row, and a direction. */
  datatype SortKey = SortKey(column: seq<int>, dir: Direction)

  /** Row `i` of a key column; every column of one table has a value in each row. */
  function At(column: seq<int>, i: nat): int
  {
    if i < |column| then column[i] else 0
  }

  /** -1, 0 or 1 as `x` sorts before, level with or after `y` in direction `d`. */
  function Compare(d: Direction, x: int, y: int): (c: int)
    ensures c == 0 <==> x == y
    ensures c < 0 <==> (if d == Ascending then x < y else x > y)
    ensures -1 <= c <= 1
  {
    var s := if x < y then -1 else if x > y then 1 else 0;
    if d == Ascending then s else -s
  }

  /** Rows `i` and `j` compared key by key: the first key on which they differ decides. */
  function RowCompare(keys: seq<SortKey>, i: nat, j: nat): int
    decreases |keys|
  {
    if keys == [] then 0
    else
      var c := Compare(keys[0].dir, At(keys[0].column, i), At(keys[0].column, j));
      if c != 0 then c else RowCompare(keys[1..], i, j)
  }

  /** Row `i` may come before row `j`: it sorts first, or they are level and `i` came first. */
  predicate RowBefore(keys: seq<SortKey>, i: nat, j: nat)
  {
    var c := RowCompare(keys, i, j);
    c < 0 || (c == 0 && i <= j)
  }

  predicate RowsSorted(keys: seq<SortKey>, s: seq<nat>)
  {
    forall p, q :: 0 <= p < q < |s| ==> RowBefore(keys, s[p], s[q])
  }

  /** Each of the rows `0 .. n - 1` occurs once in `s`, and no other row occurs. */
  ghost predicate EachRowOnce(s: seq<nat>, n: nat)
  {
    forall i: nat :: multiset(s)[i] == if i < n then 1 else 0
  }

  /** Insert row `x` before the first row it may precede. */
  function InsertRow(keys: seq<SortKey>, x: nat, s: seq<nat>): (r: seq<nat>)
    ensures |r| == |s| + 1
  {
    if s == [] then [x]
    else if RowBefore(keys, x, s[0]) then [x] + s
    else [s[0]] + InsertRow(keys, x, s[1..])
  }

  /** The stable sort of the rows `0 .. n - 1` by `keys`. */
  function SortRows(keys: seq<SortKey>, n: nat): (r: seq<nat>)
    ensures |r| == n
    ensures EachRowOnce(r, n)
    ensures RowsSorted(keys, r)
  {
    if n == 0 then
      var none: seq<nat> := [];
      assert forall i: nat :: multiset(none)[i] == 0;
      none
    else
      var prev := SortRows(keys, n - 1);
      InsertRowStep(keys, n - 1, prev);
      InsertRow(keys, n - 1, prev)
  }

  // ---------------------------------------------------------------------
  // The row order

  /** Two rows compare level exactly when they are level on every key. */
  lemma {:induction false} RowCompareLevel(keys: seq<SortKey>, i: nat, j: nat)
    ensures RowCompare(keys, i, j) == 0 <==>
      forall c :: 0 <= c < |keys| ==> At(keys[c].column, i) == At(keys[c].column, j)
    decreases |keys|
  {
    if keys != [] {
      var rest := keys[1..];
      RowCompareLevel(rest, i, j);
      assert forall c :: 0 < c < |keys| ==> keys[c] == rest[c - 1];
    }
  }

  /** Row `i` sorts before row `j` exactly when the first key on which they differ puts `i` first. */
  lemma {:induction false} RowCompareFirst(keys: seq<SortKey>, i: nat, j: nat)
    ensures RowCompare(keys, i, j) < 0 <==> FirstDifferenceBefore(keys, i, j)
    decreases |keys|
  {
    if keys != [] {
      var rest := keys[1..];
      RowCompareFirst(rest, i, j);
      var d, col := keys[0].dir, keys[0].column;
      if Compare(d, At(col, i), At(col, j)) < 0 {
        assert DecidesAt(keys, i, j, 0);
      } else if Compare(d, At(col, i), At(col, j)) > 0 {
        forall c | 0 <= c < |keys| ensures !DecidesAt(keys, i, j, c) {
          assert At(keys[0].column, i) != At(keys[0].column, j);
        }
      } else {
        if FirstDifferenceBefore(rest, i, j) {
          var c :| 0 <= c < |rest| && DecidesAt(rest, i, j, c);
          ShiftDecides(keys, i, j, c);
        }
        if FirstDifferenceBefore(keys, i, j) {
          var c :| 0 <= c < |keys| && DecidesAt(keys, i, j, c);
          assert c != 0;
          UnshiftDecides(keys, i, j, c);
        }
      }
    }
  }

  /** Key `c` decides for row `i` before row `j`: they are level on every key before it, and it puts `i` first. */
  predicate DecidesAt(keys: seq<SortKey>, i: nat, j: nat, c: nat)
    requires c < |keys|
  {
    && Compare(keys[c].dir, At(keys[c].column, i), At(keys[c].column, j)) < 0
    && forall b :: 0 <= b < c ==> At(keys[b].column, i) == At(keys[b].column, j)
  }

  predicate FirstDifferenceBefore(keys: seq<SortKey>, i: nat, j: nat)
  {
    exists c :: 0 <= c < |keys| && DecidesAt(keys, i, j, c)
  }

  lemma ShiftDecides(keys: seq<SortKey>, i: nat, j: nat, c: nat)
    requires 0 < |keys| && c < |keys| - 1 && DecidesAt(keys[1..], i, j, c)
    requires At(keys[0].column, i) == At(keys[0].column, j)
    ensures DecidesAt(keys, i, j, c + 1)
  {
    assert forall b :: 0 < b < c + 1 ==> keys[b] == keys[1..][b - 1];
  }

  lemma UnshiftDecides(keys: seq<SortKey>, i: nat, j: nat, c: nat)
    requires 0 < c < |keys| && DecidesAt(keys, i, j, c)
    ensures DecidesAt(keys[1..], i, j, c - 1)
  {
    assert forall b :: 0 <= b < c - 1 ==> keys[1..][b] == keys[b + 1];
  }

  lemma {:induction false} RowCompareFlip(keys: seq<SortKey>, i: nat, j: nat)
    ensures RowCompare(keys, j, i) == -RowCompare(keys, i, j)
    decreases |keys|
  {
    if keys != [] {
      RowCompareFlip(keys[1..], i, j);
    }
  }

  lemma {:induction false} RowCompareTransitive(keys: seq<SortKey>, i: nat, j: nat, k: nat)
    requires RowCompare(keys, i, j) <= 0 && RowCompare(keys, j, k) <= 0
    ensures RowCompare(keys, i, k) <= 0
    ensures RowCompare(keys, i, k) == 0 ==> RowCompare(keys, i, j) == 0 && RowCompare(keys, j, k) == 0
    decreases |keys|
  {
    if keys != [] {
      var d, col := keys[0].dir, keys[0].column;
      if Compare(d, At(col, i), At(col, j)) == 0 && Compare(d, At(col, j), At(col, k)) == 0 {
        RowCompareTransitive(keys[1..], i, j, k);
      }
    }
  }

  /** Any two rows can be ordered. */
  lemma RowBeforeTotal(keys: seq<SortKey>, i: nat, j: nat)
    ensures RowBefore(keys, i, j) || RowBefore(keys, j, i)
  {
    RowCompareFlip(keys, i, j);
  }

  lemma RowBeforeTransitive(keys: seq<SortKey>, i: nat, j: nat, k: nat)
    requires RowBefore(keys, i, j) && RowBefore(keys, j, k)
    ensures RowBefore(keys, i, k)
  {
    RowCompareTransitive(keys, i, j, k);
  }

  // ---------------------------------------------------------------------
  // The sort is a sorting permutation of the rows

  /** Insertion adds exactly `x`. */
  lemma {:induction false} InsertRowAddsOne(keys: seq<SortKey>, x: nat, s: seq<nat>)
    ensures multiset(InsertRow(keys, x, s)) == multiset(s) + multiset{x}
    decreases |s|
  {
    if s != [] && !RowBefore(keys, x, s[0]) {
      var t := s[1..];
      assert s == [s[0]] + t;
      InsertRowAddsOne(keys, x, t);
    }
  }

  /** Insertion keeps a sorted sequence sorted. */
  lemma {:induction false} InsertRowSorted(keys: seq<SortKey>, x: nat, s: seq<nat>)
    requires RowsSorted(keys, s)
    ensures RowsSorted(keys, InsertRow(keys, x, s))
    decreases |s|
  {
    if s != [] {
      if !RowBefore(keys, x, s[0]) {
        var t := s[1..];
        SortedHead(keys, s);
        InsertRowSorted(keys, x, t);
        InsertRowAddsOne(keys, x, t);
        var rest := InsertRow(keys, x, t);
        RowBeforeTotal(keys, x, s[0]);
        forall q | 0 <= q < |rest| ensures RowBefore(keys, s[0], rest[q]) {
          assert rest[q] in multiset(rest);
          if rest[q] != x {
            var k :| 0 <= k < |t| && t[k] == rest[q];
            assert s[k + 1] == t[k];
          }
        }
        HeadBeforeSorted(keys, s[0], rest);
      } else {
        SortedHead(keys, s);
        forall q | 0 <= q < |s| ensures RowBefore(keys, x, s[q]) {
          if q > 0 {
            RowBeforeTransitive(keys, x, s[0], s[q]);
          }
        }
        HeadBeforeSorted(keys, x, s);
      }
    }
  }

  /** Inserting row `x` into a sorted sequence of the rows below `x` gives one of the rows up to `x`. */
  lemma InsertRowStep(keys: seq<SortKey>, x: nat, s: seq<nat>)
    requires EachRowOnce(s, x) && RowsSorted(keys, s)
    ensures EachRowOnce(InsertRow(keys, x, s), x + 1)
    ensures RowsSorted(keys, InsertRow(keys, x, s))
  {
    InsertRowSorted(keys, x, s);
    InsertRowAddsOne(keys, x, s);
  }

  /** A row that may come before each row of a sorted sequence may be put in front of it. */
  lemma HeadBeforeSorted(keys: seq<SortKey>, x: nat, s: seq<nat>)
    requires RowsSorted(keys, s) && forall q :: 0 <= q < |s| ==> RowBefore(keys, x, s[q])
    ensures RowsSorted(keys, [x] + s)
  {
    var r := [x] + s;
    forall p, q | 0 <= p < q < |r| ensures RowBefore(keys, r[p], r[q]) {
      assert r[q] == s[q - 1];
      if p > 0 {
        assert r[p] == s[p - 1];
      }
    }
  }

  /** The first row of a sorted sequence may come before each later row, and the rest is sorted. */
  lemma SortedHead(keys: seq<SortKey>, s: seq<nat>)
    requires s != [] && RowsSorted(keys, s)
    ensures RowsSorted(keys, s[1..]) && forall q :: 0 < q < |s| ==> RowBefore(keys, s[0], s[q])
  {
    forall p, q | 0 <= p < q < |s| - 1 ensures RowBefore(keys, s[1..][p], s[1..][q]) {
      assert s[1..][p] == s[p + 1] && s[1..][q] == s[q + 1];
    }
  }

  // ---------------------------------------------------------------------
  // The branch as written, and as intended

  /** `numpy.lexsort(k)`: the stable sort on which the last of the columns `k` decides first. */
  function Lexsort(k: seq<seq<int>>, n: nat): (r: seq<nat>)
    ensures |r| == n && EachRowOnce(r, n)
    ensures RowsSorted(LexsortKeys(k), r)
  {
    SortRows(LexsortKeys(k), n)
  }

  /** The keys `numpy.lexsort(k)` sorts on, most significant first: the columns of `k` in reverse, all ascending. */
  function LexsortKeys(k: seq<seq<int>>): seq<SortKey>
  {
    seq(|k|, c requires 0 <= c < |k| => SortKey(k[|k| - 1 - c], Ascending))
  }

  /**
   * The order `execute` puts the rows in, as written: each key column,
   * reversed (`col[::-1]`) for a descending key, passed to `numpy.lexsort`
   * in ORDER BY order.
   */
  function LexsortAsWritten(keys: seq<SortKey>, n: nat): (r: seq<nat>)
    ensures |r| == n && EachRowOnce(r, n)
  {
    Lexsort(seq(|keys|, c requires 0 <= c < |keys| =>
      if keys[c].dir == Ascending then keys[c].column else Reverse(keys[c].column)), n)
  }

  /** As written, the first ORDER BY key does not decide first: the last one does. */
  lemma LexsortFirstKeyIgnored()
    ensures var keys := [SortKey([1, 0], Ascending), SortKey([0, 1], Ascending)];
      LexsortAsWritten(keys, 2) == [0, 1] && SortRows(keys, 2) == [1, 0] &&
      !RowBefore([keys[0]], 0, 1)
  {
    var keys := [SortKey([1, 0], Ascending), SortKey([0, 1], Ascending)];
    var lex := [SortKey([0, 1], Ascending), SortKey([1, 0], Ascending)];
    assert seq(2, c requires 0 <= c < 2 =>
      if keys[c].dir == Ascending then keys[c].column else Reverse(keys[c].column)) == [[1, 0], [0, 1]];
    assert LexsortKeys([[1, 0], [0, 1]]) == lex;
    assert RowBefore(lex, 0, 1);
    assert !RowBefore(keys, 0, 1);
  }

  /**
   * As written, a descending key reverses its column rather than its order,
   * so row `i` is sorted by the value of row `n - 1 - i`: the rows come out
   * with the descending key in neither order.
   */
  lemma LexsortDescendingMisaligned()
    ensures var keys := [SortKey([0, 0, 0], Ascending), SortKey([2, 1, 3], Descending)];
      LexsortAsWritten(keys, 3) == [1, 2, 0] && SortRows(keys, 3) == [2, 0, 1]
  {
    DescendingAsWritten();
    DescendingIntended();
  }

  lemma DescendingAsWritten()
    ensures LexsortAsWritten([SortKey([0, 0, 0], Ascending), SortKey([2, 1, 3], Descending)], 3) == [1, 2, 0]
  {
    var keys := [SortKey([0, 0, 0], Ascending), SortKey([2, 1, 3], Descending)];
    var lex := [SortKey([3, 1, 2], Ascending), SortKey([0, 0, 0], Ascending)];
    assert Reverse([2, 1, 3]) == [3, 1, 2];
    assert seq(2, c requires 0 <= c < 2 =>
      if keys[c].dir == Ascending then keys[c].column else Reverse(keys[c].column)) == [[0, 0, 0], [3, 1, 2]];
    assert LexsortKeys([[0, 0, 0], [3, 1, 2]]) == lex;
    assert SortRows(lex, 2) == [1, 0] by {
      assert RowBefore(lex, 1, 0);
    }
    assert RowBefore(lex, 1, 2) && !RowBefore(lex, 2, 1) && RowBefore(lex, 2, 0);
  }

  lemma DescendingIntended()
    ensures SortRows([SortKey([0, 0, 0], Ascending), SortKey([2, 1, 3], Descending)], 3) == [2, 0, 1]
  {
    var keys := [SortKey([0, 0, 0], Ascending), SortKey([2, 1, 3], Descending)];
    assert SortRows(keys, 2) == [0, 1] by {
      assert RowBefore(keys, 0, 1);
    }
    assert RowBefore(keys, 2, 0);
  }

  /**
   * The order the branch evidently means: the rows sorted on the ORDER BY
   * keys, the first deciding first, each in its own direction. Each row
   * occurs once, and for rows at positions `p` before `q` either every key
   * is level and the earlier row came first in the input, or the first key
   * on which they differ puts the earlier row first.
   */
  lemma LexsortIntended(keys: seq<SortKey>, n: nat, p: nat, q: nat)
    requires p < q < n
    ensures var r := SortRows(keys, n);
      EachRowOnce(r, n) &&
      (((forall c :: 0 <= c < |keys| ==> At(keys[c].column, r[p]) == At(keys[c].column, r[q])) && r[p] < r[q]) ||
       FirstDifferenceBefore(keys, r[p], r[q]))
  {
    var r := SortRows(keys, n);
    assert RowBefore(keys, r[p], r[q]);
    RowCompareLevel(keys, r[p], r[q]);
    RowCompareFirst(keys, r[p], r[q]);
    DistinctRows(r, n, p, q);
  }

  /** A permutation of the rows holds each row at one position only. */
  lemma DistinctRows(r: seq<nat>, n: nat, p: nat, q: nat)
    requires EachRowOnce(r, n) && p < q < |r|
    ensures r[p] != r[q]
  {
    var x := r[p];
    assert r == r[..q] + r[q..];
    assert r[..q][p] == x;
    assert r[q..][0] == r[q];
    assert multiset(r)[x] == multiset(r[..q])[x] + multiset(r[q..])[x];
    assert x in multiset(r[..q]);
    assert r[q] in multiset(r[q..]) && x !in multiset(r[q..]);
  }
}

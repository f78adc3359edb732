/**
 * The heap-sort plan node: ORDER BY with LIMIT over a stream of morsels.
 * It retains at most `limit` rows; each new morsel is appended to them, the
 * whole is sorted and cut back to `limit`. At the end of the stream the
 * retained rows are the first `limit` rows of the whole input, sorted.
 *
 * Rows are modelled by the value of their single sort key. The library
 * sort is modelled by a reference insertion sort; since keys are totally
 * ordered, any sorting permutation gives the same key sequence
 * (`SortedIsUnique`).
 */
module HeapSort {
  import opened Common

  datatype Direction = Ascending | Descending

  /** A direction string: "ascending" sorts upwards, anything else downwards. */
  function DirectionOf(s: string): (d: Direction)
    ensures d == Ascending <==> s == "ascending"
  {
    if s == "ascending" then Ascending else Descending
  }

  /** Whether `a` may come before `b` in direction `d`. */
  predicate Before(d: Direction, a: int, b: int)
  {
    if d == Ascending then a <= b else a >= b
  }

  predicate SortedBy(d: Direction, s: seq<int>)
  {
    forall i, j :: 0 <= i < j < |s| ==> Before(d, s[i], s[j])
  }

  /** Insert `x` before the first element it may precede. */
  function Insert(d: Direction, x: int, s: seq<int>): (r: seq<int>)
    ensures |r| == |s| + 1
  {
    if s == [] then [x]
    else if Before(d, x, s[0]) then [x] + s
    else [s[0]] + Insert(d, x, s[1..])
  }

  /** Insertion adds exactly `x`. */
  lemma {:induction false} InsertAddsOne(d: Direction, x: int, s: seq<int>)
    ensures multiset(Insert(d, x, s)) == multiset(s) + multiset{x}
    decreases |s|
  {
    if s != [] && !Before(d, x, s[0]) {
      var t := s[1..];
      assert s == [s[0]] + t;
      InsertAddsOne(d, x, t);
    }
  }

  /** Insertion adds exactly `x`, and keeps a sorted sequence sorted. */
  lemma {:induction false} InsertKeepsSorted(d: Direction, x: int, s: seq<int>)
    ensures multiset(Insert(d, x, s)) == multiset(s) + multiset{x}
    ensures SortedBy(d, s) ==> SortedBy(d, Insert(d, x, s))
    decreases |s|
  {
    InsertAddsOne(d, x, s);
    if s != [] && !Before(d, x, s[0]) && SortedBy(d, s) {
      var t := s[1..];
      SortedTail(d, s);
      InsertKeepsSorted(d, x, t);
      var rest := Insert(d, x, t);
      forall j | 0 <= j < |rest| ensures Before(d, s[0], rest[j]) {
        assert rest[j] in multiset(rest);
        if rest[j] != x {
          var k :| 0 <= k < |t| && t[k] == rest[j];
          assert s[k + 1] == t[k];
        }
      }
      SortedCons(d, s[0], rest);
    }
  }

  /** The tail of a sorted sequence is sorted. */
  lemma SortedTail(d: Direction, s: seq<int>)
    requires s != [] && SortedBy(d, s)
    ensures SortedBy(d, s[1..])
  {
    forall i, j | 0 <= i < j < |s| - 1 ensures Before(d, s[1..][i], s[1..][j]) {
      assert s[1..][i] == s[i + 1] && s[1..][j] == s[j + 1];
    }
  }

  /** An element that may precede every element of a sorted sequence may be put in front of it. */
  lemma SortedCons(d: Direction, x: int, s: seq<int>)
    requires SortedBy(d, s)
    requires forall j :: 0 <= j < |s| ==> Before(d, x, s[j])
    ensures SortedBy(d, [x] + s)
  {
    var r := [x] + s;
    forall i, j | 0 <= i < j < |r| ensures Before(d, r[i], r[j]) {
      assert r[j] == s[j - 1];
      if i > 0 {
        assert r[i] == s[i - 1];
      }
    }
  }

  /** The reference sort: insert the last element into the sorted rest. */
  function SortBy(d: Direction, s: seq<int>): (r: seq<int>)
    ensures |r| == |s|
  {
    if s == [] then [] else Insert(d, s[|s| - 1], SortBy(d, s[..|s| - 1]))
  }

  /** The reference sort is a sorting permutation. */
  lemma {:induction false} SortByIsSortingPermutation(d: Direction, s: seq<int>)
    ensures SortedBy(d, SortBy(d, s))
    ensures multiset(SortBy(d, s)) == multiset(s)
    decreases |s|
  {
    if s != [] {
      var init := s[..|s| - 1];
      assert s == init + [s[|s| - 1]];
      SortByIsSortingPermutation(d, init);
      InsertKeepsSorted(d, s[|s| - 1], SortBy(d, init));
    }
  }

  function Reverse(s: seq<int>): (r: seq<int>)
    ensures |r| == |s| && forall i :: 0 <= i < |s| ==> r[i] == s[|s| - 1 - i]
  {
    if s == [] then [] else Reverse(s[1..]) + [s[0]]
  }

  /** Two sorted arrangements of the same keys start with the same key. */
  lemma HeadsAgree(d: Direction, a: seq<int>, b: seq<int>)
    requires SortedBy(d, a) && SortedBy(d, b)
    requires multiset(a) == multiset(b) && a != []
    ensures b != [] && a[0] == b[0]
  {
    assert a[0] in multiset(b);
    var i :| 0 <= i < |b| && b[i] == a[0];
    assert b[0] in multiset(a);
    var j :| 0 <= j < |a| && a[j] == b[0];
    assert Before(d, b[0], b[i]) || i == 0;
    assert Before(d, a[0], a[j]) || j == 0;
  }

  /** Removing the head removes one occurrence of it. */
  lemma TailMultiset(s: seq<int>)
    requires s != []
    ensures multiset(s[1..]) == multiset(s) - multiset{s[0]}
  {
    assert s == [s[0]] + s[1..];
  }

  /** Two sorted arrangements of the same keys are the same sequence. */
  lemma {:induction false} SortedIsUnique(d: Direction, a: seq<int>, b: seq<int>)
    requires SortedBy(d, a) && SortedBy(d, b)
    requires multiset(a) == multiset(b)
    ensures a == b
    decreases |a|
  {
    if a == [] {
      assert |b| == |multiset(b)| == 0;
    } else {
      HeadsAgree(d, a, b);
      TailMultiset(a);
      TailMultiset(b);
      SortedTail(d, a);
      SortedTail(d, b);
      SortedIsUnique(d, a[1..], b[1..]);
      assert a == [a[0]] + a[1..] && b == [b[0]] + b[1..];
    }
  }

  /** Sorting an already sorted sequence changes nothing. */
  lemma SortOfSorted(d: Direction, s: seq<int>)
    requires SortedBy(d, s)
    ensures SortBy(d, s) == s
  {
    SortByIsSortingPermutation(d, s);
    SortedIsUnique(d, SortBy(d, s), s);
  }

  /** Reversing the ascending order gives the descending order (the `[::-1]` branch). */
  lemma ReverseAscendingIsDescending(s: seq<int>)
    ensures Reverse(SortBy(Ascending, s)) == SortBy(Descending, s)
  {
    var a := SortBy(Ascending, s);
    var r := Reverse(a);
    SortByIsSortingPermutation(Ascending, s);
    SortByIsSortingPermutation(Descending, s);
    forall i, j | 0 <= i < j < |r| ensures Before(Descending, r[i], r[j]) {
      assert Before(Ascending, a[|a| - 1 - j], a[|a| - 1 - i]);
    }
    ReverseMultiset(a);
    SortedIsUnique(Descending, r, SortBy(Descending, s));
  }

  lemma {:induction false} ReverseMultiset(s: seq<int>)
    ensures multiset(Reverse(s)) == multiset(s)
    decreases |s|
  {
    if s != [] {
      ReverseMultiset(s[1..]);
      assert s == [s[0]] + s[1..];
    }
  }

  /** Cutting before or after an insertion keeps the same first `k` elements. */
  lemma {:induction false} TakeInsert(d: Direction, x: int, s: seq<int>, k: nat)
    ensures Take(Insert(d, x, s), k) == Take(Insert(d, x, Take(s, k)), k)
    decreases |s|
  {
    if k == 0 {
      assert Take(Insert(d, x, s), k) == [] == Take(Insert(d, x, Take(s, k)), k);
    } else if |s| <= k {
      assert Take(s, k) == s;
    } else if Before(d, x, s[0]) {
      assert Take([x] + s, k) == [x] + Take(s, k - 1);
      assert Take(s, k)[0] == s[0];
      assert Take([x] + Take(s, k), k) == [x] + Take(Take(s, k), k - 1);
    } else {
      var t := Take(s, k);
      assert t[0] == s[0] && t[1..] == Take(s[1..], k - 1);
      assert Insert(d, x, t) == [s[0]] + Insert(d, x, Take(s[1..], k - 1));
      TakeInsert(d, x, s[1..], k - 1);
      assert Take([s[0]] + Insert(d, x, s[1..]), k) == [s[0]] + Take(Insert(d, x, s[1..]), k - 1);
      assert Take([s[0]] + Insert(d, x, Take(s[1..], k - 1)), k)
          == [s[0]] + Take(Insert(d, x, Take(s[1..], k - 1)), k - 1);
    }
  }

  /** The rows retained from `s`: its first `limit` rows in direction `d`. */
  function Retain(d: Direction, s: seq<int>, limit: nat): (r: seq<int>)
    ensures |r| <= limit && |r| <= |s|
  {
    Take(SortBy(d, s), limit)
  }

  /**
   * The retained rows are sorted, come from the input (as a sub-multiset),
   * and are exactly `min(limit, |s|)` rows; any row not retained does not
   * come before a retained one.
   */
  lemma RetainIsTopK(d: Direction, s: seq<int>, limit: nat)
    ensures var r := Retain(d, s, limit);
      SortedBy(d, r) && multiset(r) <= multiset(s) &&
      |r| == (if limit <= |s| then limit else |s|)
    ensures forall y, x :: y in Retain(d, s, limit) && x in multiset(s) - multiset(Retain(d, s, limit)) ==>
      Before(d, y, x)
  {
    var sorted := SortBy(d, s);
    var r := Retain(d, s, limit);
    SortByIsSortingPermutation(d, s);
    var rest := sorted[|r|..];
    assert sorted == r + rest;
    assert multiset(sorted) == multiset(r) + multiset(rest);
    forall y, x | y in r && x in multiset(s) - multiset(r) ensures Before(d, y, x) {
      PrefixBeforeSuffix(d, sorted, |r|, y, x);
    }
  }

  /** In a sorted sequence, a value before position `n` does not come after one from position `n` on. */
  lemma PrefixBeforeSuffix(d: Direction, sorted: seq<int>, n: nat, y: int, x: int)
    requires SortedBy(d, sorted) && n <= |sorted|
    requires y in sorted[..n] && x in multiset(sorted[n..])
    ensures Before(d, y, x)
  {
    var i :| 0 <= i < n && sorted[i] == y;
    var j :| n <= j < |sorted| && sorted[j] == x;
  }

  /**
   * The property the node rests on: retaining from the rows retained so far
   * plus new rows gives the same rows as retaining from all the rows.
   */
  lemma {:induction false} RetainIncrementally(d: Direction, a: seq<int>, b: seq<int>, limit: nat)
    ensures Retain(d, Retain(d, a, limit) + b, limit) == Retain(d, a + b, limit)
    decreases |b|
  {
    var t := Retain(d, a, limit);
    if b == [] {
      assert t + b == t && a + b == a;
      RetainIsTopK(d, a, limit);
      SortOfSorted(d, t);
    } else {
      var b0, x := b[..|b| - 1], b[|b| - 1];
      assert t + b == (t + b0) + [x];
      assert a + b == (a + b0) + [x];
      SortBySnoc(d, t + b0, x);
      SortBySnoc(d, a + b0, x);
      TakeInsert(d, x, SortBy(d, t + b0), limit);
      RetainIncrementally(d, a, b0, limit);
      TakeInsert(d, x, SortBy(d, a + b0), limit);
    }
  }

  lemma SortBySnoc(d: Direction, s: seq<int>, x: int)
    ensures SortBy(d, s + [x]) == Insert(d, x, SortBy(d, s))
  {
    assert (s + [x])[..|s|] == s;
  }

  /** The ORDER BY entry as planned: the column's schema identity if it resolved, and a direction. */
  datatype OrderByItem = OrderByItem(identity: Option<string>, direction: string)

  datatype SortError = ColumnNotFoundError(position: nat)

  /** A morsel: the end-of-stream marker or a table's sort-key values. */
  datatype Morsel = EOS | Table(rows: seq<int>)

  /** What `execute` yields: nothing, a table (possibly none at all) or the end-of-stream marker. */
  datatype Yield = YieldNone | YieldTable(table: Option<seq<int>>) | YieldEOS

  /**
   * The constructor's loop over ORDER BY: the (identity, direction) pairs in
   * order, or an error at the first entry whose column did not resolve.
   */
  method MapOrder(orderBy: seq<OrderByItem>) returns (r: Result<seq<(string, string)>, SortError>)
    ensures r.Ok? <==> forall i :: 0 <= i < |orderBy| ==> orderBy[i].identity.Some?
    ensures r.Ok? ==> |r.value| == |orderBy|
    ensures r.Ok? ==> forall i :: 0 <= i < |orderBy| ==>
      r.value[i] == (orderBy[i].identity.value, orderBy[i].direction)
    ensures r.Err? ==> r.error.position < |orderBy| && orderBy[r.error.position].identity.None?
    ensures r.Err? ==> forall i :: 0 <= i < r.error.position ==> orderBy[i].identity.Some?
  {
    var mapped: seq<(string, string)> := [];
    var i := 0;
    while i < |orderBy|
      invariant 0 <= i <= |orderBy| && |mapped| == i
      invariant forall j :: 0 <= j < i ==> orderBy[j].identity.Some?
      invariant forall j :: 0 <= j < i ==> mapped[j] == (orderBy[j].identity.value, orderBy[j].direction)
    {
      if orderBy[i].identity.None? {
        return Err(ColumnNotFoundError(i));
      }
      mapped := mapped + [(orderBy[i].identity.value, orderBy[i].direction)];
      i := i + 1;
    }
    return Ok(mapped);
  }

  class HeapSortNode {
    const mappedOrder: seq<(string, string)>
    const limit: nat
    var table: Option<seq<int>>

    constructor (mappedOrder: seq<(string, string)>, limit: nat)
      ensures this.mappedOrder == mappedOrder && this.limit == limit && table == None
    {
      this.mappedOrder := mappedOrder;
      this.limit := limit;
      table := None;
    }

    /** The direction of the single sort key. */
    function Dir(): Direction
      reads this
      requires |mappedOrder| == 1
    {
      DirectionOf(mappedOrder[0].1)
    }

    /** The rows retained so far; none before the first non-empty morsel. */
    function Retained(): seq<int>
      reads this
    {
      if table.Some? then table.value else []
    }

    method Execute(morsel: Morsel) returns (yielded: seq<Yield>)
      requires |mappedOrder| == 1
      modifies this`table
      ensures morsel == EOS ==> yielded == [YieldTable(old(table)), YieldEOS] && table == old(table)
      ensures morsel.Table? && |morsel.rows| == 0 ==> yielded == [YieldNone] && table == old(table)
      ensures morsel.Table? && |morsel.rows| > 0 ==>
        yielded == [YieldNone] &&
        table == Some(Retain(Dir(), old(Retained()) + morsel.rows, limit))
    {
      if morsel == EOS {
        return [YieldTable(table), YieldEOS];
      }
      if |morsel.rows| == 0 {
        return [YieldNone];
      }
      var combined := if table.Some? && |table.value| > 0 then table.value + morsel.rows else morsel.rows;
      assert combined == Retained() + morsel.rows;
      var sortIndices := SortBy(Ascending, combined);
      if mappedOrder[0].1 == "ascending" {
        table := Some(Take(sortIndices, limit));
      } else {
        ReverseAscendingIsDescending(combined);
        table := Some(Take(Reverse(sortIndices), limit));
      }
      return [YieldNone];
    }
  }

  /**
   * `HeapSortNode(...)` as a whole: the ORDER BY loop maps every entry, and
   * the node is built over the mapped order; an unresolved column raises
   * instead, and no node is built.
   */
  method NewHeapSortNode(orderBy: seq<OrderByItem>, limit: nat) returns (r: Result<HeapSortNode, SortError>)
    ensures r.Ok? <==> forall i :: 0 <= i < |orderBy| ==> orderBy[i].identity.Some?
    ensures r.Ok? ==> fresh(r.value) && r.value.limit == limit && r.value.table == None
    ensures r.Ok? ==> |r.value.mappedOrder| == |orderBy|
    ensures r.Ok? ==> forall i :: 0 <= i < |orderBy| ==>
      r.value.mappedOrder[i] == (orderBy[i].identity.value, orderBy[i].direction)
    ensures r.Err? ==> r.error.position < |orderBy| && orderBy[r.error.position].identity.None?
    ensures r.Err? ==> forall i :: 0 <= i < r.error.position ==> orderBy[i].identity.Some?
  {
    var mapped := MapOrder(orderBy);
    if mapped.Err? {
      return Err(mapped.error);
    }
    var node := new HeapSortNode(mapped.value, limit);
    return Ok(node);
  }

  /** Feeding non-empty morsels one by one, starting from `retained`. */
  function Feed(d: Direction, retained: seq<int>, morsels: seq<seq<int>>, limit: nat): seq<int>
    decreases |morsels|
  {
    if morsels == [] then retained
    else Feed(d, Retain(d, retained + morsels[0], limit), morsels[1..], limit)
  }

  /**
   * What the module promises: the rows retained after the whole stream are
   * the first `limit` rows of all input, sorted, as if it had been sorted at
   * once.
   */
  lemma {:induction false} StreamEqualsSortThenLimit(d: Direction, done: seq<int>, morsels: seq<seq<int>>, limit: nat)
    ensures Feed(d, Retain(d, done, limit), morsels, limit) == Retain(d, done + Flatten(morsels), limit)
    decreases |morsels|
  {
    if morsels == [] {
      assert done + Flatten(morsels) == done;
    } else {
      var m := morsels[0];
      RetainIncrementally(d, done, m, limit);
      StreamEqualsSortThenLimit(d, done + m, morsels[1..], limit);
      assert Flatten(morsels) == m + Flatten(morsels[1..]);
      assert done + m + Flatten(morsels[1..]) == done + Flatten(morsels);
    }
  }

  /** From a fresh node (nothing retained), the stream retains the top `limit` rows of all its morsels. */
  lemma StreamFromFreshNode(d: Direction, morsels: seq<seq<int>>, limit: nat)
    ensures Feed(d, [], morsels, limit) == Retain(d, Flatten(morsels), limit)
  {
    assert Retain(d, [], limit) == [];
    StreamEqualsSortThenLimit(d, [], morsels, limit);
    assert [] + Flatten(morsels) == Flatten(morsels);
  }
}

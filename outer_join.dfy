/**
 * The outer join operator: relations, the hash tables the joins build,
 * the join algorithms as builders of index lists, and the node that
 * buffers both inputs before joining them.
 *
 * A relation is columnar: named columns of equal length. The joins do not
 * copy rows; they produce the lists of row indices (`None` for a row of
 * nulls) that are then aligned into the output table.
 */
module OuterJoin {
  import opened Common
  import opened JoinSpec

  /** A cell value; a null compares equal only to a null. */
  datatype Value = Null | Int(i: int) | Text(text: string)

  /** The values of a row's join columns. */
  type Key = seq<Value>

  datatype Relation<V> = Relation(names: seq<string>, columns: seq<seq<V>>, numRows: nat)

  /** One column per name, every column `numRows` long. */
  predicate WellFormed<V>(t: Relation<V>)
  {
    && |t.columns| == |t.names|
    && forall c :: 0 <= c < |t.columns| ==> |t.columns[c]| == t.numRows
  }

  datatype JoinError =
    | ColumnNotFound(name: string)
    | NoTables
    | SchemaMismatch
    | UnknownJoinType(joinType: string)
    | NoLeftRelation

  // ---------------------------------------------------------------------
  // Column selection

  /** The position of the first column called `name`. */
  function IndexOf(names: seq<string>, name: string): (r: Option<nat>)
    ensures r.None? <==> name !in names
    ensures r.Some? ==> r.value < |names| && names[r.value] == name && name !in names[..r.value]
  {
    if |names| == 0 then None
    else if names[0] == name then Some(0)
    else match IndexOf(names[1..], name)
      case None => None
      case Some(i) =>
        assert names[..i + 1] == [names[0]] + names[1..][..i];
        Some(i + 1)
  }

  /** The positions of the named columns; fails on the first name the relation lacks. */
  function ColumnIndexes(names: seq<string>, wanted: seq<string>): (r: Result<seq<nat>, JoinError>)
    ensures r.Ok? <==> forall c :: c in wanted ==> c in names
    ensures r.Ok? ==> |r.value| == |wanted|
    ensures r.Ok? ==> forall j :: 0 <= j < |wanted| ==> r.value[j] < |names| && names[r.value[j]] == wanted[j]
    ensures r.Err? ==> r.error.ColumnNotFound? && r.error.name in wanted && r.error.name !in names
  {
    if |wanted| == 0 then Ok([])
    else match IndexOf(names, wanted[0])
      case None => Err(ColumnNotFound(wanted[0]))
      case Some(i) =>
        match ColumnIndexes(names, wanted[1..])
          case Err(e) => Err(e)
          case Ok(rest) =>
            assert forall c :: c in wanted ==> c == wanted[0] || c in wanted[1..];
            Ok([i] + rest)
  }

  /**
   * The key tuple of every row: the values of the join columns, row by
   * row. The rows are zipped from the selected columns, so selecting no
   * column at all yields no rows.
   */
  function Select<V>(t: Relation<V>, wanted: seq<string>): (r: Result<seq<seq<V>>, JoinError>)
    requires WellFormed(t)
    ensures r.Ok? <==> forall c :: c in wanted ==> c in t.names
    ensures r.Err? ==> r.error.ColumnNotFound? && r.error.name in wanted && r.error.name !in t.names
    ensures r.Ok? && |wanted| == 0 ==> r.value == []
    ensures r.Ok? && |wanted| > 0 ==> |r.value| == t.numRows
    ensures r.Ok? ==> forall i :: 0 <= i < |r.value| ==> |r.value[i]| == |wanted|
    ensures r.Ok? ==> forall i, j :: 0 <= i < |r.value| && 0 <= j < |wanted| ==>
      exists c :: 0 <= c < |t.names| && t.names[c] == wanted[j] && r.value[i][j] == t.columns[c][i]
  {
    match ColumnIndexes(t.names, wanted)
      case Err(e) => Err(e)
      case Ok(idx) =>
        if |idx| == 0 then Ok([])
        else
          var keys := seq(t.numRows, i requires 0 <= i < t.numRows =>
            seq(|idx|, j requires 0 <= j < |idx| => t.columns[idx[j]][i]));
          assert forall i, j :: 0 <= i < |keys| && 0 <= j < |wanted| ==>
            t.names[idx[j]] == wanted[j] && keys[i][j] == t.columns[idx[j]][i];
          Ok(keys)
  }

  // ---------------------------------------------------------------------
  // Concatenating buffered morsels

  function TotalRows<V>(tables: seq<Relation<V>>): nat
  {
    if |tables| == 0 then 0 else tables[0].numRows + TotalRows(tables[1..])
  }

  /** `a`'s rows followed by `b`'s, column by column. */
  function Append<V>(a: Relation<V>, b: Relation<V>): (r: Relation<V>)
    requires WellFormed(a) && WellFormed(b) && a.names == b.names
    ensures WellFormed(r) && r.names == a.names && r.numRows == a.numRows + b.numRows
    ensures forall c :: 0 <= c < |r.columns| ==> r.columns[c] == a.columns[c] + b.columns[c]
  {
    Relation(a.names, seq(|a.columns|, c requires 0 <= c < |a.columns| => a.columns[c] + b.columns[c]),
             a.numRows + b.numRows)
  }

  /**
   * Concatenation without schema promotion: there must be at least one
   * table and all must have the same column names.
   */
  function Concat<V>(tables: seq<Relation<V>>): (r: Result<Relation<V>, JoinError>)
    requires forall i :: 0 <= i < |tables| ==> WellFormed(tables[i])
    ensures tables == [] ==> r == Err(NoTables)
    ensures r.Ok? <==> tables != [] && forall i :: 0 <= i < |tables| ==> tables[i].names == tables[0].names
    ensures r.Err? ==> r.error == NoTables || r.error == SchemaMismatch
    ensures r.Ok? ==> WellFormed(r.value) && r.value.names == tables[0].names && r.value.numRows == TotalRows(tables)
  {
    if |tables| == 0 then Err(NoTables)
    else if |tables| == 1 then Ok(tables[0])
    else match Concat(tables[1..])
      case Err(e) => Err(if e == NoTables then SchemaMismatch else e)
      case Ok(rest) =>
        if tables[0].names == rest.names then Ok(Append(tables[0], rest)) else Err(SchemaMismatch)
  }

  // ---------------------------------------------------------------------
  // Hash tables

  /** The rows filed under key `k`, or none. */
  function Lookup<K>(table: map<K, seq<nat>>, k: K): seq<nat>
  {
    if k in table then table[k] else []
  }

  /** `table` files under each key exactly the rows of `keys` holding it, ascending. */
  ghost predicate Indexes(table: map<Key, seq<nat>>, keys: seq<Key>)
  {
    forall k :: Lookup(table, k) == Positions(keys, k)
  }

  /** Files every row index under its key, in row order. */
  method BuildHashTable(keys: seq<Key>) returns (table: map<Key, seq<nat>>)
    ensures Indexes(table, keys)
  {
    table := map[];
    for i := 0 to |keys|
      invariant FiledBelow(table, keys, i)
    {
      FileRow(table, keys, i);
      table := FileUnder(table, keys[i], i);
    }
    FiledAll(table, keys);
  }

  /** With every row filed, the table indexes the whole key column. */
  lemma FiledAll(table: map<Key, seq<nat>>, keys: seq<Key>)
    requires FiledBelow(table, keys, |keys|)
    ensures Indexes(table, keys)
  {
  }

  /** `table` with row `i` filed last under key `k`. */
  function FileUnder(table: map<Key, seq<nat>>, k: Key, i: nat): (t: map<Key, seq<nat>>)
    ensures Lookup(t, k) == Lookup(table, k) + [i]
    ensures forall k' :: k' != k ==> Lookup(t, k') == Lookup(table, k')
    ensures forall k' :: k' in t <==> k' in table || k' == k
  {
    table[k := Lookup(table, k) + [i]]
  }

  /** `table` files under each key exactly the rows below `n` holding it, ascending. */
  ghost predicate FiledBelow(table: map<Key, seq<nat>>, keys: seq<Key>, n: nat)
  {
    n <= |keys| && forall k :: Lookup(table, k) == PositionsBelow(keys, k, n)
  }

  /** Filing row `i` under its key extends the table from the rows below `i` to those below `i + 1`. */
  lemma FileRow(table: map<Key, seq<nat>>, keys: seq<Key>, i: nat)
    requires i < |keys| && FiledBelow(table, keys, i)
    ensures FiledBelow(FileUnder(table, keys[i], i), keys, i + 1)
  {
    var t := FileUnder(table, keys[i], i);
    forall k ensures Lookup(t, k) == PositionsBelow(keys, k, i + 1) {
      if k == keys[i] {
        assert Lookup(t, k) == Lookup(table, k) + [i];
      } else {
        assert Lookup(t, k) == Lookup(table, k);
      }
    }
  }

  /** As `BuildHashTable`, also recording the keys in order of first occurrence. */
  method HashJoinMap(keys: seq<Key>) returns (order: seq<Key>, table: map<Key, seq<nat>>)
    ensures order == LeftJoinOrder(keys)
    ensures Indexes(table, keys)
  {
    table := map[];
    order := [];
    var i := 0;
    while i < |keys|
      invariant i <= |keys|
      invariant order == DistinctBelow(keys, i)
      invariant FiledBelow(table, keys, i)
      invariant forall k :: k in table <==> k in keys[..i]
    {
      assert keys[..i + 1] == keys[..i] + [keys[i]];
      if keys[i] !in table {
        order := order + [keys[i]];
      }
      FileRow(table, keys, i);
      table := FileUnder(table, keys[i], i);
      i := i + 1;
    }
    assert keys[..|keys|] == keys;
  }

  // ---------------------------------------------------------------------
  // Probing and chunking

  /**
   * Rows `left` of the left relation side by side with rows `right` of the
   * right relation; a `None` stands for a row of nulls. Right indices count
   * from row `rightStart` of the right relation.
   */
  datatype Aligned = Aligned(left: seq<Option<nat>>, right: seq<Option<nat>>, rightStart: nat)

  function FlatLeft(chunks: seq<Aligned>): seq<Option<nat>>
  {
    if |chunks| == 0 then [] else FlatLeft(chunks[..|chunks| - 1]) + chunks[|chunks| - 1].left
  }

  function FlatRight(chunks: seq<Aligned>): seq<Option<nat>>
  {
    if |chunks| == 0 then [] else FlatRight(chunks[..|chunks| - 1]) + chunks[|chunks| - 1].right
  }

  lemma FlatSnoc(chunks: seq<Aligned>, c: Aligned)
    ensures FlatLeft(chunks + [c]) == FlatLeft(chunks) + c.left
    ensures FlatRight(chunks + [c]) == FlatRight(chunks) + c.right
  {
    assert (chunks + [c])[..|chunks|] == chunks;
  }

  /** The index pairs one probe row `i` contributes, given the build rows it matches. */
  method ProbeRow(rows: seq<nat>, i: nat) returns (probeBlock: seq<Option<nat>>, buildBlock: seq<Option<nat>>)
    ensures probeBlock == Repeat(Some(i), Max1(|rows|))
    ensures buildBlock == MatchesOrNone(rows)
  {
    if |rows| > 0 {
      buildBlock := Wrap(rows);
      probeBlock := Repeat(Some(i), |rows|);
    } else {
      buildBlock := [None];
      probeBlock := [Some(i)];
      assert probeBlock == Repeat(Some(i), 1);
    }
  }

  /**
   * Probes every row of `probe` against a table filed over `build`: a row
   * with matches is repeated once per match beside those matches, a row
   * without is paired with `None`.
   */
  method Probe(probe: seq<Key>, table: map<Key, seq<nat>>, ghost build: seq<Key>)
    returns (probeSide: seq<Option<nat>>, buildSide: seq<Option<nat>>)
    requires Indexes(table, build)
    ensures probeSide == ProbeSide(MatchLists(probe, build), |probe|)
    ensures buildSide == BuildSide(MatchLists(probe, build), |probe|)
  {
    ghost var m := MatchLists(probe, build);
    probeSide, buildSide := [], [];
    var i := 0;
    while i < |probe|
      invariant i <= |probe|
      invariant probeSide == ProbeSide(m, i)
      invariant buildSide == BuildSide(m, i)
    {
      var rows := Lookup(table, probe[i]);
      assert rows == m[i];
      var probeBlock, buildBlock := ProbeRow(rows, i);
      ProbeStep(m, i);
      probeSide := probeSide + probeBlock;
      buildSide := buildSide + buildBlock;
      i := i + 1;
    }
  }

  /** Every chunk holds between one and `size` pairs, and all but the last exactly `size`. */
  predicate Sliced(chunks: seq<Aligned>, size: nat)
  {
    && (forall c :: 0 <= c < |chunks| ==>
          0 < |chunks[c].left| <= size && |chunks[c].right| == |chunks[c].left| && chunks[c].rightStart == 0)
    && (forall c :: 0 <= c < |chunks| - 1 ==> |chunks[c].left| == size)
  }

  /** Appending the chunk of pairs `i` to `end` extends the flattened prefix from `i` to `end`. */
  lemma FlatSlice(chunks: seq<Aligned>, left: seq<Option<nat>>, right: seq<Option<nat>>, i: nat, end: nat)
    requires i <= end <= |left| && end <= |right|
    requires FlatLeft(chunks) == left[..i] && FlatRight(chunks) == right[..i]
    ensures FlatLeft(chunks + [Aligned(left[i..end], right[i..end], 0)]) == left[..end]
    ensures FlatRight(chunks + [Aligned(left[i..end], right[i..end], 0)]) == right[..end]
  {
    FlatSnoc(chunks, Aligned(left[i..end], right[i..end], 0));
    assert left[..end] == left[..i] + left[i..end];
    assert right[..end] == right[..i] + right[i..end];
  }

  lemma SlicedSnoc(chunks: seq<Aligned>, chunk: Aligned, size: nat)
    requires Sliced(chunks, size)
    requires |chunks| > 0 ==> |chunks[|chunks| - 1].left| == size
    requires 0 < |chunk.left| <= size && |chunk.right| == |chunk.left| && chunk.rightStart == 0
    ensures Sliced(chunks + [chunk], size)
  {
    var cs := chunks + [chunk];
    forall c | 0 <= c < |chunks| ensures cs[c] == chunks[c] {
    }
  }

  /** Slices two equally long index lists into chunks of `size` pairs; only the last may be shorter. */
  method Chunked(left: seq<Option<nat>>, right: seq<Option<nat>>, size: nat) returns (chunks: seq<Aligned>)
    requires size > 0 && |left| == |right|
    ensures FlatLeft(chunks) == left && FlatRight(chunks) == right
    ensures forall c :: 0 <= c < |chunks| ==>
      0 < |chunks[c].left| <= size && |chunks[c].right| == |chunks[c].left| && chunks[c].rightStart == 0
    ensures forall c :: 0 <= c < |chunks| - 1 ==> |chunks[c].left| == size
  {
    chunks := [];
    var i := 0;
    while i < |left|
      invariant i <= |left|
      invariant FlatLeft(chunks) == left[..i] && FlatRight(chunks) == right[..i]
      invariant Sliced(chunks, size)
      invariant i < |left| && |chunks| > 0 ==> |chunks[|chunks| - 1].left| == size
      decreases |left| - i
    {
      var end := if i + size <= |left| then i + size else |left|;
      var c := Aligned(left[i..end], right[i..end], 0);
      FlatSlice(chunks, left, right, i, end);
      SlicedSnoc(chunks, c, size);
      chunks := chunks + [c];
      i := end;
    }
    assert left[..|left|] == left && right[..|right|] == right;
  }

  // ---------------------------------------------------------------------
  // The joins on key sequences

  /**
   * Full outer join: every left row probed against a table over the right
   * rows, then every one of the `rightRows` rows of the right relation not
   * yet listed, paired with `None`.
   */
  method FullJoinIndexes(leftKeys: seq<Key>, rightKeys: seq<Key>, rightRows: nat)
    returns (leftIndexes: seq<Option<nat>>, rightIndexes: seq<Option<nat>>)
    ensures leftIndexes == FullJoinLeft(leftKeys, rightKeys, rightRows)
    ensures rightIndexes == FullJoinRight(leftKeys, rightKeys, rightRows)
  {
    var table := BuildHashTable(rightKeys);
    leftIndexes, rightIndexes := Probe(leftKeys, table, rightKeys);
    leftIndexes, rightIndexes := AppendUnmatched(leftIndexes, rightIndexes, rightRows);
  }

  /** Appends every right row below `n` that `probed` does not list, paired with `None`. */
  method AppendUnmatched(probedLeft: seq<Option<nat>>, probed: seq<Option<nat>>, n: nat)
    returns (leftIndexes: seq<Option<nat>>, rightIndexes: seq<Option<nat>>)
    ensures leftIndexes == probedLeft + Repeat(None, |UnmatchedBelow(probed, n)|)
    ensures rightIndexes == probed + Wrap(UnmatchedBelow(probed, n))
  {
    leftIndexes, rightIndexes := probedLeft, probed;
    var i := 0;
    while i < n
      invariant i <= n
      invariant leftIndexes == probedLeft + Repeat(None, |UnmatchedBelow(probed, i)|)
      invariant rightIndexes == probed + Wrap(UnmatchedBelow(probed, i))
    {
      ghost var u := UnmatchedBelow(probed, i);
      UnmatchedStep(probed, i);
      if Some(i) !in rightIndexes {
        assert Wrap(u + [i]) == Wrap(u) + [Some(i)];
        assert Repeat<Option<nat>>(None, |u| + 1) == Repeat(None, |u|) + [None];
        rightIndexes := rightIndexes + [Some(i)];
        leftIndexes := leftIndexes + [None];
      }
      i := i + 1;
    }
  }

  /** Right row `i` is listed after the unmatched pass over rows below `i` exactly when the probe matched it. */
  lemma UnmatchedStep(probed: seq<Option<nat>>, i: nat)
    ensures Some(i) in probed + Wrap(UnmatchedBelow(probed, i)) <==> Some(i) in probed
    ensures UnmatchedBelow(probed, i + 1) == UnmatchedBelow(probed, i) + (if Some(i) in probed then [] else [i])
  {
    var u := UnmatchedBelow(probed, i);
    UnmatchedSpec(probed, i);
    forall k | 0 <= k < |u| ensures Wrap(u)[k] != Some(i) {
      assert u[k] in u;
    }
  }

  /**
   * Right outer join: a table over the left rows, probed by the
   * `rightRows` rows of the right relation `chunkSize` rows at a time; right
   * indices are local to their chunk, which starts at row `rightStart`.
   */
  method RightJoinChunks(leftKeys: seq<Key>, rightKeys: seq<Key>, rightRows: nat, chunkSize: nat)
    returns (chunks: seq<Aligned>)
    requires chunkSize > 0
    ensures |chunks| == (rightRows + chunkSize - 1) / chunkSize
    ensures forall c :: 0 <= c < |chunks| ==>
      RightChunkAt(leftKeys, rightKeys, rightRows, chunkSize, chunks[c], c)
  {
    var table := BuildHashTable(leftKeys);
    ghost var total := (rightRows + chunkSize - 1) / chunkSize;
    chunks := [];
    var start := 0;
    while start < rightRows
      invariant start == |chunks| * chunkSize
      invariant |chunks| <= total
      invariant RightChunksAt(leftKeys, rightKeys, rightRows, chunkSize, chunks)
      decreases rightRows - start
    {
      ChunkCount(rightRows, chunkSize, |chunks|);
      var chunk := ProbeChunk(leftKeys, rightKeys, rightRows, table, chunkSize, |chunks|, start);
      RightChunksSnoc(leftKeys, rightKeys, rightRows, chunkSize, chunks, chunk);
      assert (|chunks| + 1) * chunkSize == |chunks| * chunkSize + chunkSize;
      chunks := chunks + [chunk];
      start := start + chunkSize;
    }
    ChunkCount(rightRows, chunkSize, |chunks|);
  }

  /** Every chunk `c` of `chunks` is chunk `c` of the right join. */
  predicate RightChunksAt(leftKeys: seq<Key>, rightKeys: seq<Key>, rightRows: nat, chunkSize: nat, chunks: seq<Aligned>)
  {
    forall c :: 0 <= c < |chunks| ==> RightChunkAt(leftKeys, rightKeys, rightRows, chunkSize, chunks[c], c)
  }

  lemma RightChunksSnoc(leftKeys: seq<Key>, rightKeys: seq<Key>, rightRows: nat, chunkSize: nat,
                        chunks: seq<Aligned>, chunk: Aligned)
    requires RightChunksAt(leftKeys, rightKeys, rightRows, chunkSize, chunks)
    requires RightChunkAt(leftKeys, rightKeys, rightRows, chunkSize, chunk, |chunks|)
    ensures RightChunksAt(leftKeys, rightKeys, rightRows, chunkSize, chunks + [chunk])
  {
    var cs := chunks + [chunk];
    forall c | 0 <= c < |cs| ensures RightChunkAt(leftKeys, rightKeys, rightRows, chunkSize, cs[c], c) {
      if c < |chunks| {
        assert cs[c] == chunks[c];
      }
    }
  }

  /** Probes chunk `c` of the right rows, which starts at row `start`, against the table over the left rows. */
  method ProbeChunk(leftKeys: seq<Key>, rightKeys: seq<Key>, rightRows: nat, table: map<Key, seq<nat>>,
                    chunkSize: nat, c: nat, start: nat)
    returns (chunk: Aligned)
    requires Indexes(table, leftKeys)
    requires start == c * chunkSize && start < rightRows
    ensures RightChunkAt(leftKeys, rightKeys, rightRows, chunkSize, chunk, c)
  {
    var slice := RightSlice(rightKeys, start, chunkSize);
    var rightIndexes, leftIndexes := Probe(slice, table, leftKeys);
    chunk := Aligned(leftIndexes, rightIndexes, start);
  }

  /**
   * Chunk `c` of the right join covers the right rows from `c * chunkSize`
   * on, one of the `rightRows` rows: its right side is the keys of those
   * rows probed against the left rows, its left side their matches.
   */
  predicate RightChunkAt(leftKeys: seq<Key>, rightKeys: seq<Key>, rightRows: nat, chunkSize: nat, chunk: Aligned, c: nat)
  {
    && chunk.rightStart == c * chunkSize
    && c * chunkSize < rightRows
    && var slice := RightSlice(rightKeys, c * chunkSize, chunkSize);
    && chunk.right == ProbeSide(MatchLists(slice, leftKeys), |slice|)
    && chunk.left == BuildSide(MatchLists(slice, leftKeys), |slice|)
  }

  /** Each right row of a right-join chunk appears max(1, matches) times on its right side. */
  lemma RightChunkCount(leftKeys: seq<Key>, rightKeys: seq<Key>, rightRows: nat, chunkSize: nat, chunk: Aligned, c: nat, i: nat)
    requires RightChunkAt(leftKeys, rightKeys, rightRows, chunkSize, chunk, c)
    requires i < |RightSlice(rightKeys, c * chunkSize, chunkSize)|
    ensures chunk.rightStart + i < |rightKeys|
    ensures multiset(chunk.right)[Some(i)] == Max1(|Positions(leftKeys, rightKeys[chunk.rightStart + i])|)
  {
    var slice := RightSlice(rightKeys, c * chunkSize, chunkSize);
    ProbeSideCount(MatchLists(slice, leftKeys), |slice|, i);
  }

  /**
   * Every position of a right-join chunk pairs right row `rightStart + local
   * index` with a left row holding the same key, or with `None` when no
   * left row does.
   */
  lemma RightChunkPaired(leftKeys: seq<Key>, rightKeys: seq<Key>, rightRows: nat, chunkSize: nat, chunk: Aligned, c: nat, j: nat)
    requires RightChunkAt(leftKeys, rightKeys, rightRows, chunkSize, chunk, c)
    requires j < |chunk.right|
    ensures |chunk.left| == |chunk.right|
    ensures chunk.right[j].Some? && chunk.rightStart + chunk.right[j].value < |rightKeys|
    ensures chunk.left[j].None? ==> rightKeys[chunk.rightStart + chunk.right[j].value] !in leftKeys
    ensures chunk.left[j].Some? ==>
      chunk.left[j].value < |leftKeys| && leftKeys[chunk.left[j].value] == rightKeys[chunk.rightStart + chunk.right[j].value]
  {
    var slice := RightSlice(rightKeys, c * chunkSize, chunkSize);
    var p, b := ProbeSide(MatchLists(slice, leftKeys), |slice|), BuildSide(MatchLists(slice, leftKeys), |slice|);
    assert chunk.right == p && chunk.left == b;
    ProbeIsAligned(slice, leftKeys);
    assert PairedAt(slice, leftKeys, p, b, j);
    var v := p[j].value;
    assert v < |slice|;
    assert slice[v] == rightKeys[chunk.rightStart + v];
  }

  /**
   * A right-join chunk pairs its right row `i` with each left row holding
   * the same key exactly once, and with no other left row.
   */
  lemma RightChunkPairs(leftKeys: seq<Key>, rightKeys: seq<Key>, rightRows: nat, chunkSize: nat, chunk: Aligned, c: nat,
                        i: nat, l: nat)
    requires RightChunkAt(leftKeys, rightKeys, rightRows, chunkSize, chunk, c)
    requires i < |RightSlice(rightKeys, c * chunkSize, chunkSize)|
    ensures chunk.rightStart + i < |rightKeys|
    ensures |chunk.right| == |chunk.left|
    ensures PairCount(chunk.right, chunk.left, Some(i), Some(l)) ==
      if l < |leftKeys| && leftKeys[l] == rightKeys[chunk.rightStart + i] then 1 else 0
  {
    var slice := RightSlice(rightKeys, c * chunkSize, chunkSize);
    ProbePairs(slice, leftKeys, i, l);
  }

  /**
   * The keys of the batch of at most `size` right rows from `start`: the
   * keys from `start` on, none when no key was selected.
   */
  function RightSlice<T>(keys: seq<T>, start: nat, size: nat): (r: seq<T>)
    ensures |r| <= size
    ensures start < |keys| && 0 < size ==> 0 < |r|
    ensures forall i :: 0 <= i < |r| ==> start + i < |keys| && r[i] == keys[start + i]
  {
    if start < |keys| then keys[start..if start + size <= |keys| then start + size else |keys|] else []
  }

  lemma ChunkCount(n: nat, size: nat, c: nat)
    requires size > 0
    ensures c * size < n <==> c < (n + size - 1) / size
  {
    var q := (n + size - 1) / size;
    assert q * size <= n + size - 1 < q * size + size;
    if c < q {
      assert c + 1 <= q;
      assert (c + 1) * size <= q * size;
    } else {
      assert q * size <= c * size;
    }
  }

  /** Appends left row `l` once beside each of `rightRows`. */
  method AppendMatches(leftIndexes: seq<Option<nat>>, rightIndexes: seq<Option<nat>>, l: nat, rightRows: seq<nat>)
    returns (newLeft: seq<Option<nat>>, newRight: seq<Option<nat>>)
    ensures newLeft == leftIndexes + Repeat(Some(l), |rightRows|)
    ensures newRight == rightIndexes + Wrap(rightRows)
  {
    newLeft, newRight := leftIndexes, rightIndexes;
    var b := 0;
    while b < |rightRows|
      invariant b <= |rightRows|
      invariant newLeft == leftIndexes + Repeat(Some(l), b)
      invariant newRight == rightIndexes + Wrap(rightRows[..b])
    {
      assert Repeat(Some(l), b + 1) == Repeat(Some(l), b) + [Some(l)];
      assert Wrap(rightRows[..b + 1]) == Wrap(rightRows[..b]) + [Some(rightRows[b])];
      newLeft := newLeft + [Some(l)];
      newRight := newRight + [Some(rightRows[b])];
      b := b + 1;
    }
    assert rightRows[..|rightRows|] == rightRows;
  }

  /** Appends one left group: the cross product with `rightRows`, or each left row beside `None`. */
  method AppendGroup(leftIndexes: seq<Option<nat>>, rightIndexes: seq<Option<nat>>,
                     leftRows: seq<nat>, rightRows: seq<nat>)
    returns (newLeft: seq<Option<nat>>, newRight: seq<Option<nat>>)
    ensures newLeft == leftIndexes + GroupLeft(leftRows, rightRows)
    ensures newRight == rightIndexes + GroupRight(leftRows, rightRows)
  {
    newLeft, newRight := leftIndexes, rightIndexes;
    if |rightRows| > 0 {
      var a := 0;
      while a < |leftRows|
        invariant a <= |leftRows|
        invariant newLeft == leftIndexes + CrossLeft(leftRows[..a], |rightRows|)
        invariant newRight == rightIndexes + CrossRight(leftRows[..a], rightRows)
      {
        newLeft, newRight := AppendMatches(newLeft, newRight, leftRows[a], rightRows);
        assert leftRows[..a + 1][..a] == leftRows[..a];
        ConcatAssociative(leftIndexes, CrossLeft(leftRows[..a], |rightRows|), Repeat(Some(leftRows[a]), |rightRows|));
        ConcatAssociative(rightIndexes, CrossRight(leftRows[..a], rightRows), Wrap(rightRows));
        a := a + 1;
      }
      assert leftRows[..|leftRows|] == leftRows;
    } else {
      var a := 0;
      while a < |leftRows|
        invariant a <= |leftRows|
        invariant newLeft == leftIndexes + Wrap(leftRows[..a])
        invariant newRight == rightIndexes + Repeat(None, a)
      {
        assert Wrap(leftRows[..a + 1]) == Wrap(leftRows[..a]) + [Some(leftRows[a])];
        assert Repeat<Option<nat>>(None, a + 1) == Repeat(None, a) + [None];
        newLeft := newLeft + [Some(leftRows[a])];
        newRight := newRight + [None];
        a := a + 1;
      }
      assert leftRows[..|leftRows|] == leftRows;
    }
  }

  /** The number of index pairs after which the left join emits what it has collected. */
  const LeftJoinFlushSize: nat := 50000

  /**
   * Left outer join: one group per distinct left key, in order of first
   * occurrence; the collected pairs are emitted whenever they exceed
   * `LeftJoinFlushSize`, and once more at the end if any remain.
   */
  method LeftJoinChunks(leftKeys: seq<Key>, rightKeys: seq<Key>) returns (chunks: seq<Aligned>)
    ensures FlatLeft(chunks) == LeftJoinLeft(leftKeys, rightKeys)
    ensures FlatRight(chunks) == LeftJoinRight(leftKeys, rightKeys)
    ensures forall c :: 0 <= c < |chunks| ==>
      0 < |chunks[c].left| && |chunks[c].right| == |chunks[c].left| && chunks[c].rightStart == 0
    ensures forall c :: 0 <= c < |chunks| - 1 ==> |chunks[c].left| > LeftJoinFlushSize
  {
    var rightOrder, rightHash := HashJoinMap(rightKeys);
    var order, leftHash := HashJoinMap(leftKeys);
    ghost var gs := LeftJoinGroups(leftKeys, rightKeys);
    forall g | 0 <= g < |order| ensures gs[g] == Group(Lookup(leftHash, order[g]), Lookup(rightHash, order[g])) {
      GroupFromTables(leftKeys, rightKeys, order, leftHash, rightHash, g);
    }
    assert FiledGroups(gs, order, leftHash, rightHash);
    var flushed, leftIndexes, rightIndexes := CollectGroups(order, leftHash, rightHash, gs);
    var left, right := leftIndexes, rightIndexes;
    chunks, leftIndexes, rightIndexes := EmitAbove(flushed, leftIndexes, rightIndexes, 0);
    LastChunk(flushed, chunks, left, right);
  }

  /**
   * The loop over the groups: the pairs of every group, appended in order
   * and emitted as a chunk whenever more than `LeftJoinFlushSize` of them
   * have been collected; returns the chunks and the pairs not yet emitted.
   */
  method CollectGroups(order: seq<Key>, leftHash: map<Key, seq<nat>>, rightHash: map<Key, seq<nat>>,
                       ghost gs: seq<Group>)
    returns (chunks: seq<Aligned>, leftIndexes: seq<Option<nat>>, rightIndexes: seq<Option<nat>>)
    requires FiledGroups(gs, order, leftHash, rightHash)
    ensures |gs| == |order|
    ensures Collected(gs, |gs|, chunks, leftIndexes, rightIndexes)
  {
    chunks, leftIndexes, rightIndexes := [], [], [];
    for g := 0 to |order|
      invariant Collected(gs, g, chunks, leftIndexes, rightIndexes)
    {
      chunks, leftIndexes, rightIndexes := CollectStep(order, leftHash, rightHash, gs, g, chunks, leftIndexes, rightIndexes);
    }
  }

  /** Group `g` holds the rows filed under the `g`-th key in each table. */
  ghost predicate FiledGroups(gs: seq<Group>, order: seq<Key>, leftHash: map<Key, seq<nat>>, rightHash: map<Key, seq<nat>>)
  {
    && |gs| == |order|
    && forall g :: 0 <= g < |order| ==> gs[g] == Group(Lookup(leftHash, order[g]), Lookup(rightHash, order[g]))
  }

  /**
   * The state of the group loop after the first `g` groups: the emitted
   * chunks followed by the pairs still collected are the pairs of those
   * groups, and every emitted chunk is over the flush size.
   */
  ghost predicate Collected(gs: seq<Group>, g: nat, chunks: seq<Aligned>,
                            leftIndexes: seq<Option<nat>>, rightIndexes: seq<Option<nat>>)
  {
    && g <= |gs|
    && FlatLeft(chunks) + leftIndexes == LeftSide(gs, g)
    && FlatRight(chunks) + rightIndexes == RightSide(gs, g)
    && |leftIndexes| == |rightIndexes|
    && EmittedAbove(chunks, LeftJoinFlushSize)
  }

  /** One iteration of the group loop: collect group `g`, then emit if over the flush size. */
  method CollectStep(order: seq<Key>, leftHash: map<Key, seq<nat>>, rightHash: map<Key, seq<nat>>,
                     ghost gs: seq<Group>, g: nat,
                     chunks: seq<Aligned>, leftIndexes: seq<Option<nat>>, rightIndexes: seq<Option<nat>>)
    returns (newChunks: seq<Aligned>, newLeft: seq<Option<nat>>, newRight: seq<Option<nat>>)
    requires FiledGroups(gs, order, leftHash, rightHash) && g < |gs|
    requires Collected(gs, g, chunks, leftIndexes, rightIndexes)
    ensures Collected(gs, g + 1, newChunks, newLeft, newRight)
  {
    var left, right := CollectGroup(order[g], leftHash, rightHash, gs, g,
                                    FlatLeft(chunks), FlatRight(chunks), leftIndexes, rightIndexes);
    newChunks, newLeft, newRight := EmitAbove(chunks, left, right, LeftJoinFlushSize);
  }

  /** Every chunk holds more than `threshold` pairs, with both sides equally long. */
  ghost predicate EmittedAbove(chunks: seq<Aligned>, threshold: nat)
  {
    forall c :: 0 <= c < |chunks| ==>
      |chunks[c].left| > threshold && |chunks[c].right| == |chunks[c].left| && chunks[c].rightStart == 0
  }

  lemma LastChunk(flushed: seq<Aligned>, chunks: seq<Aligned>, left: seq<Option<nat>>, right: seq<Option<nat>>)
    requires EmittedAbove(flushed, LeftJoinFlushSize) && |left| == |right|
    requires |left| > 0 ==> chunks == flushed + [Aligned(left, right, 0)]
    requires |left| == 0 ==> chunks == flushed
    ensures forall c :: 0 <= c < |chunks| ==>
      0 < |chunks[c].left| && |chunks[c].right| == |chunks[c].left| && chunks[c].rightStart == 0
    ensures forall c :: 0 <= c < |chunks| - 1 ==> |chunks[c].left| > LeftJoinFlushSize
  {
    if |left| > 0 {
      assert chunks[|flushed|] == Aligned(left, right, 0);
      assert forall c :: 0 <= c < |flushed| ==> chunks[c] == flushed[c];
    }
  }


  /** Group `g` of the left join is the two tables' rows under the `g`-th key of the order. */
  lemma GroupFromTables(leftKeys: seq<Key>, rightKeys: seq<Key>, order: seq<Key>,
                        leftHash: map<Key, seq<nat>>, rightHash: map<Key, seq<nat>>, g: nat)
    requires order == LeftJoinOrder(leftKeys) && g < |order|
    requires Indexes(leftHash, leftKeys) && Indexes(rightHash, rightKeys)
    ensures LeftJoinGroups(leftKeys, rightKeys)[g] == Group(Lookup(leftHash, order[g]), Lookup(rightHash, order[g]))
  {
    assert Lookup(leftHash, order[g]) == Positions(leftKeys, order[g]);
    assert Lookup(rightHash, order[g]) == Positions(rightKeys, order[g]);
  }

  /** Appends the pairs of group `g`, looking both sides of its key up in the hash tables. */
  method CollectGroup(key: Key, leftHash: map<Key, seq<nat>>, rightHash: map<Key, seq<nat>>,
                      ghost gs: seq<Group>, g: nat,
                      ghost flatLeft: seq<Option<nat>>, ghost flatRight: seq<Option<nat>>,
                      leftIndexes: seq<Option<nat>>, rightIndexes: seq<Option<nat>>)
    returns (newLeft: seq<Option<nat>>, newRight: seq<Option<nat>>)
    requires g < |gs| && gs[g] == Group(Lookup(leftHash, key), Lookup(rightHash, key))
    requires flatLeft + leftIndexes == LeftSide(gs, g)
    requires flatRight + rightIndexes == RightSide(gs, g)
    requires |leftIndexes| == |rightIndexes|
    ensures flatLeft + newLeft == LeftSide(gs, g + 1)
    ensures flatRight + newRight == RightSide(gs, g + 1)
    ensures |newLeft| == |newRight|
  {
    var leftRows, rightRows := Lookup(leftHash, key), Lookup(rightHash, key);
    GroupLengths(leftRows, rightRows);
    SideStep(gs, g);
    ghost var groupLeft, groupRight := GroupLeft(leftRows, rightRows), GroupRight(leftRows, rightRows);
    ConcatAssociative(flatLeft, leftIndexes, groupLeft);
    ConcatAssociative(flatRight, rightIndexes, groupRight);
    newLeft, newRight := AppendGroup(leftIndexes, rightIndexes, leftRows, rightRows);
  }

  lemma EmittedSnoc(chunks: seq<Aligned>, chunk: Aligned, threshold: nat)
    requires |chunk.left| > threshold && |chunk.right| == |chunk.left| && chunk.rightStart == 0
    ensures EmittedAbove(chunks, threshold) ==> EmittedAbove(chunks + [chunk], threshold)
  {
    var cs := chunks + [chunk];
    assert cs[|chunks|] == chunk;
    assert forall c :: 0 <= c < |chunks| ==> cs[c] == chunks[c];
  }

  /** Emits the collected pairs as one more chunk when there are more than `threshold` of them. */
  method EmitAbove(chunks: seq<Aligned>, leftIndexes: seq<Option<nat>>, rightIndexes: seq<Option<nat>>, threshold: nat)
    returns (newChunks: seq<Aligned>, newLeft: seq<Option<nat>>, newRight: seq<Option<nat>>)
    requires |leftIndexes| == |rightIndexes|
    ensures FlatLeft(newChunks) + newLeft == FlatLeft(chunks) + leftIndexes
    ensures FlatRight(newChunks) + newRight == FlatRight(chunks) + rightIndexes
    ensures |leftIndexes| > threshold ==>
      newChunks == chunks + [Aligned(leftIndexes, rightIndexes, 0)] && newLeft == [] && newRight == []
    ensures |leftIndexes| <= threshold ==>
      newChunks == chunks && newLeft == leftIndexes && newRight == rightIndexes
    ensures EmittedAbove(chunks, threshold) ==> EmittedAbove(newChunks, threshold)
  {
    newChunks, newLeft, newRight := chunks, leftIndexes, rightIndexes;
    if |leftIndexes| > threshold {
      FlatSnoc(chunks, Aligned(leftIndexes, rightIndexes, 0));
      EmittedSnoc(chunks, Aligned(leftIndexes, rightIndexes, 0), threshold);
      newChunks := chunks + [Aligned(leftIndexes, rightIndexes, 0)];
      newLeft, newRight := [], [];
    }
  }

  /** Concatenation regroups freely; stated once so the callers need not re-derive it. */
  lemma ConcatAssociative<T>(a: seq<T>, b: seq<T>, c: seq<T>)
    ensures a + (b + c) == a + b + c
  {
  }

  /** Left semi join: the left rows that have a match, ascending. */
  method SemiJoinRows(leftKeys: seq<Key>, rightKeys: seq<Key>) returns (rows: seq<nat>)
    ensures rows == SemiBelow(leftKeys, rightKeys, |leftKeys|)
  {
    var table := BuildHashTable(rightKeys);
    rows := [];
    var i := 0;
    while i < |leftKeys|
      invariant i <= |leftKeys|
      invariant rows == SemiBelow(leftKeys, rightKeys, i)
    {
      HasMatch(rightKeys, leftKeys[i]);
      if |Lookup(table, leftKeys[i])| > 0 {
        rows := rows + [i];
      }
      i := i + 1;
    }
  }

  /** Left anti join: the left rows that have no match, ascending. */
  method AntiJoinRows(leftKeys: seq<Key>, rightKeys: seq<Key>) returns (rows: seq<nat>)
    ensures rows == AntiBelow(leftKeys, rightKeys, |leftKeys|)
  {
    var table := BuildHashTable(rightKeys);
    rows := [];
    var i := 0;
    while i < |leftKeys|
      invariant i <= |leftKeys|
      invariant rows == AntiBelow(leftKeys, rightKeys, i)
    {
      HasMatch(rightKeys, leftKeys[i]);
      if |Lookup(table, leftKeys[i])| == 0 {
        rows := rows + [i];
      }
      i := i + 1;
    }
  }

  // ---------------------------------------------------------------------
  // The joins on relations

  /** The number of rows per chunk the full and right joins emit. */
  const ChunkSize: nat := 1000

  datatype JoinType = LeftOuter | FullOuter | RightOuter | LeftAnti | LeftSemi

  /** The join implementation registered under a join type's name, if any. */
  function Provider(name: string): (r: Option<JoinType>)
    ensures r.None? <==> name !in {"left outer", "full outer", "right outer", "left anti", "left semi"}
    ensures r == Some(LeftOuter) <==> name == "left outer"
    ensures r == Some(FullOuter) <==> name == "full outer"
    ensures r == Some(RightOuter) <==> name == "right outer"
    ensures r == Some(LeftAnti) <==> name == "left anti"
    ensures r == Some(LeftSemi) <==> name == "left semi"
  {
    if name == "left outer" then Some(LeftOuter)
    else if name == "full outer" then Some(FullOuter)
    else if name == "right outer" then Some(RightOuter)
    else if name == "left anti" then Some(LeftAnti)
    else if name == "left semi" then Some(LeftSemi)
    else None
  }

  /**
   * The left join's column lists, swapped when the left list names a
   * column of the right relation (the planner handed them over the other
   * way round).
   */
  function OrientColumns(leftColumns: seq<string>, rightColumns: seq<string>, rightNames: seq<string>)
    : (r: (seq<string>, seq<string>))
    ensures (exists c :: c in leftColumns && c in rightNames) ==> r == (rightColumns, leftColumns)
    ensures (forall c :: c in leftColumns ==> c !in rightNames) ==> r == (leftColumns, rightColumns)
  {
    var shared := set c | c in leftColumns && c in rightNames;
    if |shared| > 0 then (rightColumns, leftColumns)
    else
      assert forall c :: c in leftColumns && c in rightNames ==> c in shared;
      (leftColumns, rightColumns)
  }

  /** Two selections made in order: the first failure is reported. */
  function SelectPair(first: Result<seq<Key>, JoinError>, second: Result<seq<Key>, JoinError>)
    : (r: Result<(seq<Key>, seq<Key>), JoinError>)
    ensures first.Err? ==> r == Err(first.error)
    ensures first.Ok? && second.Err? ==> r == Err(second.error)
    ensures first.Ok? && second.Ok? ==> r == Ok((first.value, second.value))
  {
    match first
      case Err(e) => Err(e)
      case Ok(a) =>
        match second
          case Err(e) => Err(e)
          case Ok(b) => Ok((a, b))
  }

  /**
   * Selecting from the left relation, which is missing when the left
   * input could not be concatenated; the join then fails where it first
   * uses the left relation.
   */
  function SelectLeft(left: Option<Relation<Value>>, columns: seq<string>): (r: Result<seq<Key>, JoinError>)
    requires left.Some? ==> WellFormed(left.value)
    ensures left.None? ==> r == Err(NoLeftRelation)
    ensures left.Some? ==> r == Select(left.value, columns)
  {
    match left
      case None => Err(NoLeftRelation)
      case Some(t) => Select(t, columns)
  }

  /**
   * The key tuples (left, right) each join works on, selected in the order
   * the join selects them: the right relation first, except for the right
   * join, which builds over the left relation and probes the right one
   * chunk by chunk, so an empty right relation is never selected from.
   * Without a left relation every join fails, the right join at once and
   * the others once the right relation's columns have been found.
   */
  function JoinKeys(joinType: JoinType, left: Option<Relation<Value>>, right: Relation<Value>,
                    leftColumns: seq<string>, rightColumns: seq<string>)
    : (r: Result<(seq<Key>, seq<Key>), JoinError>)
    requires (left.Some? ==> WellFormed(left.value)) && WellFormed(right)
    ensures left.Some? && r.Err? ==> r.error.ColumnNotFound?
    ensures left.None? ==> r.Err?
    ensures left.None? && joinType == RightOuter ==> r == Err(NoLeftRelation)
    ensures left.None? && joinType != RightOuter ==>
      var probed := if joinType == LeftOuter then OrientColumns(leftColumns, rightColumns, right.names).1 else rightColumns;
      r == if Select(right, probed).Err? then Err(Select(right, probed).error) else Err(NoLeftRelation)
  {
    match joinType
      case LeftOuter =>
        var (leftCols, rightCols) := OrientColumns(leftColumns, rightColumns, right.names);
        Swap(SelectPair(Select(right, rightCols), SelectLeft(left, leftCols)))
      case RightOuter =>
        if right.numRows == 0 then
          (match SelectLeft(left, leftColumns)
             case Err(e) => Err(e)
             case Ok(lk) => Ok((lk, [])))
        else SelectPair(SelectLeft(left, leftColumns), Select(right, rightColumns))
      case _ =>
        Swap(SelectPair(Select(right, rightColumns), SelectLeft(left, leftColumns)))
  }

  function Swap(r: Result<(seq<Key>, seq<Key>), JoinError>): Result<(seq<Key>, seq<Key>), JoinError>
  {
    match r
      case Err(e) => Err(e)
      case Ok((a, b)) => Ok((b, a))
  }

  /** A batch the join operator emits: aligned rows, rows taken from the left relation, or end of stream. */
  datatype Output = Joined(batch: Aligned) | Taken(rows: seq<nat>) | EndOfStream

  function Batches(chunks: seq<Aligned>): (r: seq<Output>)
    ensures |r| == |chunks| && forall i :: 0 <= i < |chunks| ==> r[i] == Joined(chunks[i])
  {
    seq(|chunks|, i requires 0 <= i < |chunks| => Joined(chunks[i]))
  }

  /**
   * What each join emits for the given key tuples and the right relation's
   * `rightRows` rows, as the join methods above guarantee it.
   */
  ghost predicate Produces(joinType: JoinType, leftKeys: seq<Key>, rightKeys: seq<Key>, rightRows: nat, outputs: seq<Output>)
  {
    match joinType
      case LeftSemi => outputs == [Taken(SemiBelow(leftKeys, rightKeys, |leftKeys|))]
      case LeftAnti => outputs == [Taken(AntiBelow(leftKeys, rightKeys, |leftKeys|))]
      case LeftOuter =>
        exists chunks: seq<Aligned> :: outputs == Batches(chunks)
          && FlatLeft(chunks) == LeftJoinLeft(leftKeys, rightKeys)
          && FlatRight(chunks) == LeftJoinRight(leftKeys, rightKeys)
          && (forall c :: 0 <= c < |chunks| ==> 0 < |chunks[c].left| && |chunks[c].right| == |chunks[c].left|)
          && (forall c :: 0 <= c < |chunks| - 1 ==> |chunks[c].left| > LeftJoinFlushSize)
      case FullOuter =>
        exists chunks: seq<Aligned> :: outputs == Batches(chunks)
          && FlatLeft(chunks) == FullJoinLeft(leftKeys, rightKeys, rightRows)
          && FlatRight(chunks) == FullJoinRight(leftKeys, rightKeys, rightRows)
          && (forall c :: 0 <= c < |chunks| ==> 0 < |chunks[c].left| <= ChunkSize && |chunks[c].right| == |chunks[c].left|)
          && (forall c :: 0 <= c < |chunks| - 1 ==> |chunks[c].left| == ChunkSize)
      case RightOuter =>
        exists chunks: seq<Aligned> :: outputs == Batches(chunks)
          && |chunks| == (rightRows + ChunkSize - 1) / ChunkSize
          && forall c :: 0 <= c < |chunks| ==> RightChunkAt(leftKeys, rightKeys, rightRows, ChunkSize, chunks[c], c)
  }

  /** The outcome of running a join: the error of a missing join column, or what the join produces. */
  ghost predicate JoinOutcome(joinType: JoinType, left: Option<Relation<Value>>, right: Relation<Value>,
                              leftColumns: seq<string>, rightColumns: seq<string>, r: Result<seq<Output>, JoinError>)
    requires (left.Some? ==> WellFormed(left.value)) && WellFormed(right)
  {
    match JoinKeys(joinType, left, right, leftColumns, rightColumns)
      case Err(e) => r == Err(e)
      case Ok((leftKeys, rightKeys)) => r.Ok? && Produces(joinType, leftKeys, rightKeys, right.numRows, r.value)
  }

  /**
   * The join of `joinType` on key tuples already extracted from both
   * relations, the right one having `rightRows` rows.
   */
  method JoinOn(joinType: JoinType, leftKeys: seq<Key>, rightKeys: seq<Key>, rightRows: nat) returns (outputs: seq<Output>)
    ensures Produces(joinType, leftKeys, rightKeys, rightRows, outputs)
  {
    match joinType
      case LeftSemi =>
        var rows := SemiJoinRows(leftKeys, rightKeys);
        outputs := [Taken(rows)];
      case LeftAnti =>
        var rows := AntiJoinRows(leftKeys, rightKeys);
        outputs := [Taken(rows)];
      case LeftOuter =>
        var chunks := LeftJoinChunks(leftKeys, rightKeys);
        outputs := Batches(chunks);
      case FullOuter =>
        var leftIndexes, rightIndexes := FullJoinIndexes(leftKeys, rightKeys, rightRows);
        FullJoinLengths(leftKeys, rightKeys, rightRows);
        var chunks := Chunked(leftIndexes, rightIndexes, ChunkSize);
        outputs := Batches(chunks);
      case RightOuter =>
        var chunks := RightJoinChunks(leftKeys, rightKeys, rightRows, ChunkSize);
        outputs := Batches(chunks);
  }

  /** Runs the join of the given type over two relations. */
  method Join(joinType: JoinType, left: Option<Relation<Value>>, right: Relation<Value>,
              leftColumns: seq<string>, rightColumns: seq<string>) returns (r: Result<seq<Output>, JoinError>)
    requires (left.Some? ==> WellFormed(left.value)) && WellFormed(right)
    ensures JoinOutcome(joinType, left, right, leftColumns, rightColumns, r)
  {
    match JoinKeys(joinType, left, right, leftColumns, rightColumns)
      case Err(e) =>
        r := Err(e);
      case Ok((leftKeys, rightKeys)) =>
        var outputs := JoinOn(joinType, leftKeys, rightKeys, right.numRows);
        r := Ok(outputs);
  }

  // ---------------------------------------------------------------------
  // The operator node

  datatype Stream = LeftStream | RightStream

  /** An input morsel: a table, or the end-of-stream marker. */
  datatype Morsel = Data(table: Relation<Value>) | EOS

  /**
   * Buffers the left input until its end of stream, concatenates it, then
   * buffers the right input; at the right end of stream it runs the join
   * and returns every batch it yields followed by the end-of-stream marker.
   */
  class OuterJoinNode {
    const joinType: string
    const leftColumns: seq<string>
    const rightColumns: seq<string>
    var stream: Stream
    var leftBuffer: seq<Relation<Value>>
    var rightBuffer: seq<Relation<Value>>
    var leftRelation: Option<Relation<Value>>

    ghost predicate Valid()
      reads this
    {
      && (forall i :: 0 <= i < |leftBuffer| ==> WellFormed(leftBuffer[i]))
      && (forall i :: 0 <= i < |rightBuffer| ==> WellFormed(rightBuffer[i]))
      && (leftRelation.Some? ==> WellFormed(leftRelation.value))
    }

    constructor(joinType: string, leftColumns: seq<string>, rightColumns: seq<string>)
      ensures this.joinType == joinType && this.leftColumns == leftColumns && this.rightColumns == rightColumns
      ensures stream == LeftStream && leftBuffer == [] && rightBuffer == [] && leftRelation == None
      ensures Valid()
    {
      this.joinType := joinType;
      this.leftColumns := leftColumns;
      this.rightColumns := rightColumns;
      stream := LeftStream;
      leftBuffer := [];
      rightBuffer := [];
      leftRelation := None;
    }

    /**
     * Takes one morsel. Returns `None` while buffering; at the end of the
     * right stream returns the join's batches and `EndOfStream`. A failed
     * concatenation leaves its buffer as it was; the left stream is over
     * even then.
     */
    method Execute(morsel: Morsel) returns (r: Result<Option<seq<Output>>, JoinError>)
      requires Valid() && (morsel.Data? ==> WellFormed(morsel.table))
      modifies this
      ensures Valid()
      ensures old(stream) == LeftStream && morsel.Data? ==>
        && stream == LeftStream && leftBuffer == old(leftBuffer) + [morsel.table]
        && rightBuffer == old(rightBuffer) && leftRelation == old(leftRelation) && r == Ok(None)
      ensures old(stream) == LeftStream && morsel.EOS? ==>
        && stream == RightStream && rightBuffer == old(rightBuffer)
        && match Concat(old(leftBuffer))
             case Ok(t) => leftRelation == Some(t) && leftBuffer == [] && r == Ok(None)
             case Err(e) => leftRelation == old(leftRelation) && leftBuffer == old(leftBuffer) && r == Err(e)
      ensures old(stream) == RightStream && morsel.Data? ==>
        && stream == RightStream && rightBuffer == old(rightBuffer) + [morsel.table]
        && leftBuffer == old(leftBuffer) && leftRelation == old(leftRelation) && r == Ok(None)
      ensures old(stream) == RightStream && morsel.EOS? ==>
        && stream == RightStream && leftBuffer == old(leftBuffer) && leftRelation == old(leftRelation)
        && match Concat(old(rightBuffer))
             case Err(e) => rightBuffer == old(rightBuffer) && r == Err(e)
             case Ok(right) =>
               && rightBuffer == []
               && (Provider(joinType).None? ==> r == Err(UnknownJoinType(joinType)))
               && (Provider(joinType).Some? ==>
                     exists joined :: JoinOutcome(Provider(joinType).value, leftRelation, right, leftColumns, rightColumns, joined)
                       && r == Emit(joined))
    {
      if stream == LeftStream {
        if morsel.EOS? {
          stream := RightStream;
          var concatenated := Concat(leftBuffer);
          if concatenated.Err? {
            return Err(concatenated.error);
          }
          leftRelation := Some(concatenated.value);
          leftBuffer := [];
        } else {
          leftBuffer := leftBuffer + [morsel.table];
        }
        return Ok(None);
      }
      if morsel.EOS? {
        var concatenated := Concat(rightBuffer);
        if concatenated.Err? {
          return Err(concatenated.error);
        }
        rightBuffer := [];
        var provider := Provider(joinType);
        if provider.None? {
          return Err(UnknownJoinType(joinType));
        }
        var joined := Join(provider.value, leftRelation, concatenated.value, leftColumns, rightColumns);
        r := Emit(joined);
      } else {
        rightBuffer := rightBuffer + [morsel.table];
        r := Ok(None);
      }
    }
  }

  /** The batches of a join followed by the end-of-stream marker, or the join's error. */
  function Emit(joined: Result<seq<Output>, JoinError>): (r: Result<Option<seq<Output>>, JoinError>)
    ensures joined.Err? ==> r == Err(joined.error)
    ensures joined.Ok? ==> r.Ok? && r.value.Some? && |r.value.value| == |joined.value| + 1
    ensures joined.Ok? ==> r.value.value[..|joined.value|] == joined.value
    ensures joined.Ok? ==> r.value.value[|joined.value|] == EndOfStream
  {
    match joined
      case Err(e) => Err(e)
      case Ok(outputs) => Ok(Some(outputs + [EndOfStream]))
  }
}

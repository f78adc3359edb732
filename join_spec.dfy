/**
 * Reference definitions for the hash-based outer, semi and anti joins, and
 * what they guarantee. A relation is modelled by the sequence of its rows'
 * join-key tuples; the hash of a key tuple is the tuple itself (hash
 * collisions are not modelled), so a hash table maps a key to the ascending
 * list of row indices holding it.
 */
module JoinSpec {
  import opened Common

  function Repeat<T>(x: T, n: nat): (r: seq<T>)
    ensures |r| == n && forall i :: 0 <= i < n ==> r[i] == x
  {
    seq(n, _ => x)
  }

  /** Row indices as the optional indices an aligned output holds. */
  function Wrap(s: seq<nat>): (r: seq<Option<nat>>)
    ensures |r| == |s| && forall i :: 0 <= i < |s| ==> r[i] == Some(s[i])
  {
    seq(|s|, i requires 0 <= i < |s| => Some(s[i]))
  }

  predicate StrictlyIncreasing(s: seq<nat>)
  {
    forall i, j :: 0 <= i < j < |s| ==> s[i] < s[j]
  }

  lemma AppendIncreasing(s: seq<nat>, t: seq<nat>, x: nat)
    requires StrictlyIncreasing(s)
    requires forall i :: 0 <= i < |s| ==> s[i] < x
    requires t == [] || t == [x]
    ensures StrictlyIncreasing(s + t)
  {
  }

  function Max1(n: nat): nat { if n == 0 then 1 else n }

  // ---------------------------------------------------------------------
  // Positions: the rows holding a key

  /** The indices below `n` whose key is `k`, ascending. */
  function PositionsBelow<K(==)>(keys: seq<K>, k: K, n: nat): seq<nat>
    requires n <= |keys|
  {
    if n == 0 then []
    else PositionsBelow(keys, k, n - 1) + (if keys[n - 1] == k then [n - 1] else [])
  }

  /** The rows of `keys` holding `k`: what a hash table built over `keys` returns for `k`. */
  function Positions<K(==)>(keys: seq<K>, k: K): seq<nat>
  {
    PositionsBelow(keys, k, |keys|)
  }

  /** `PositionsBelow` holds exactly the indices below `n` with key `k`, ascending. */
  lemma {:induction false} PositionsBelowSpec<K>(keys: seq<K>, k: K, n: nat)
    requires n <= |keys|
    ensures forall j: nat :: j in PositionsBelow(keys, k, n) <==> j < n && keys[j] == k
    ensures StrictlyIncreasing(PositionsBelow(keys, k, n))
    decreases n
  {
    if n > 0 {
      PositionsBelowSpec(keys, k, n - 1);
      var p0 := PositionsBelow(keys, k, n - 1);
      var tail: seq<nat> := if keys[n - 1] == k then [n - 1] else [];
      assert PositionsBelow(keys, k, n) == p0 + tail;
      forall i | 0 <= i < |p0| ensures p0[i] < n - 1 {
        assert p0[i] in p0;
      }
      forall j: nat ensures j in p0 + tail <==> j < n && keys[j] == k {
        assert j in p0 + tail <==> j in p0 || j in tail;
      }
    }
  }

  /** A strictly increasing sequence holds each of its elements exactly once. */
  lemma {:induction false} IncreasingCount(s: seq<nat>, x: nat)
    requires StrictlyIncreasing(s)
    ensures multiset(s)[x] == if x in s then 1 else 0
    decreases |s|
  {
    if |s| > 0 {
      var t := s[1..];
      assert s == [s[0]] + t;
      assert StrictlyIncreasing(t) by {
        forall i, j | 0 <= i < j < |t| ensures t[i] < t[j] {
          assert t[i] == s[i + 1] && t[j] == s[j + 1];
        }
      }
      IncreasingCount(t, x);
      if x == s[0] {
        forall i | 0 <= i < |t| ensures t[i] != x {
          assert t[i] == s[i + 1];
        }
      }
      var head: multiset<nat> := multiset{s[0]};
      assert multiset(s) == head + multiset(t);
      assert x in s <==> x == s[0] || x in t;
    }
  }

  /** The rows holding `k`, characterised: exactly those indices, each once, ascending; none iff `k` is absent. */
  lemma PositionsSpec<K>(keys: seq<K>, k: K)
    ensures forall j: nat :: j in Positions(keys, k) <==> j < |keys| && keys[j] == k
    ensures StrictlyIncreasing(Positions(keys, k))
    ensures forall j: nat :: multiset(Positions(keys, k))[j] == if j < |keys| && keys[j] == k then 1 else 0
    ensures |Positions(keys, k)| == 0 <==> k !in keys
  {
    PositionsBelowSpec(keys, k, |keys|);
    forall j: nat ensures multiset(Positions(keys, k))[j] == if j < |keys| && keys[j] == k then 1 else 0 {
      IncreasingCount(Positions(keys, k), j);
    }
    if k in keys {
      var j :| 0 <= j < |keys| && keys[j] == k;
      assert j in Positions(keys, k);
    }
  }

  /** Each listed row holds `k`. */
  lemma PositionAt<K>(keys: seq<K>, k: K, j: nat)
    requires j < |Positions(keys, k)|
    ensures Positions(keys, k)[j] < |keys| && keys[Positions(keys, k)[j]] == k
  {
    PositionsSpec(keys, k);
    assert Positions(keys, k)[j] in Positions(keys, k);
  }

  /** A row is listed exactly when it holds `k`. */
  lemma PositionsHas<K>(keys: seq<K>, k: K, r: nat)
    ensures r in Positions(keys, k) <==> r < |keys| && keys[r] == k
  {
    PositionsSpec(keys, k);
  }

  /** No row is listed exactly when no row holds `k`. */
  lemma NoPositions<K>(keys: seq<K>, k: K)
    ensures |Positions(keys, k)| == 0 <==> k !in keys
  {
    PositionsSpec(keys, k);
  }

  // ---------------------------------------------------------------------
  // Probing: each probe row against a table built over the build rows

  /** The build rows each probe row matches, probe row by probe row. */
  function MatchLists<K(==)>(probe: seq<K>, build: seq<K>): (m: seq<seq<nat>>)
    ensures |m| == |probe|
    ensures forall i :: 0 <= i < |probe| ==> m[i] == Positions(build, probe[i])
  {
    seq(|probe|, i requires 0 <= i < |probe| => Positions(build, probe[i]))
  }

  /** Whether `m` lists, for each probe row, exactly the build rows holding its key. */
  ghost predicate MatchesKeys<K>(probe: seq<K>, build: seq<K>, m: seq<seq<nat>>)
  {
    && |m| == |probe|
    && (forall i, k :: 0 <= i < |m| && 0 <= k < |m[i]| ==> m[i][k] < |build| && build[m[i][k]] == probe[i])
    && (forall i, r :: 0 <= i < |m| && 0 <= r < |build| && build[r] == probe[i] ==> r in m[i])
  }

  lemma MatchListsMatchKeys<K>(probe: seq<K>, build: seq<K>)
    ensures MatchesKeys(probe, build, MatchLists(probe, build))
  {
    var m := MatchLists(probe, build);
    forall i, k | 0 <= i < |m| && 0 <= k < |m[i]| ensures m[i][k] < |build| && build[m[i][k]] == probe[i] {
      PositionAt(build, probe[i], k);
    }
    forall i, r | 0 <= i < |m| && 0 <= r < |build| && build[r] == probe[i] ensures r in m[i] {
      PositionsHas(build, probe[i], r);
    }
  }

  /** Under `MatchesKeys`, row `r` is listed for probe row `i` exactly when it holds that row's key. */
  lemma MatchesKeysAt<K>(probe: seq<K>, build: seq<K>, m: seq<seq<nat>>, i: nat, r: nat)
    requires MatchesKeys(probe, build, m) && i < |m|
    ensures r in m[i] <==> r < |build| && build[r] == probe[i]
  {
    if r in m[i] {
      var k :| 0 <= k < |m[i]| && m[i][k] == r;
    }
  }


  /** What one probe row adds to the build side: its matches, or a single `None` when it has none. */
  function MatchesOrNone(rows: seq<nat>): (r: seq<Option<nat>>)
    ensures |r| == Max1(|rows|)
  {
    if |rows| > 0 then Wrap(rows) else [None]
  }

  /**
   * The probe side of the output for the first `n` probe rows, given each
   * row's matches `m`: a row with matches is repeated once per match, a
   * row without appears once.
   */
  function ProbeSide(m: seq<seq<nat>>, n: nat): seq<Option<nat>>
    requires n <= |m|
  {
    if n == 0 then [] else ProbeSide(m, n - 1) + Repeat(Some(n - 1), Max1(|m[n - 1]|))
  }

  /** The build side, aligned with the probe side: each matching build row, or `None` for no match. */
  function BuildSide(m: seq<seq<nat>>, n: nat): seq<Option<nat>>
    requires n <= |m|
  {
    if n == 0 then [] else BuildSide(m, n - 1) + MatchesOrNone(m[n - 1])
  }

  /** One more probe row extends both sides by that row's blocks. */
  lemma ProbeStep(m: seq<seq<nat>>, n: nat)
    requires n < |m|
    ensures ProbeSide(m, n + 1) == ProbeSide(m, n) + Repeat(Some(n), Max1(|m[n]|))
    ensures BuildSide(m, n + 1) == BuildSide(m, n) + MatchesOrNone(m[n])
  {
  }

  lemma {:induction false} ProbeLengths(m: seq<seq<nat>>, n: nat)
    requires n <= |m|
    ensures |ProbeSide(m, n)| == |BuildSide(m, n)|
    decreases n
  {
    if n > 0 {
      ProbeLengths(m, n - 1);
    }
  }

  /** Whether output position `j` pairs a probe row with a build row it matches, or with `None` when it has none. */
  ghost predicate PairedAt<K>(probe: seq<K>, build: seq<K>, probeSide: seq<Option<nat>>,
                              buildSide: seq<Option<nat>>, j: int)
    requires 0 <= j < |probeSide| && |buildSide| == |probeSide|
  {
    && probeSide[j].Some? && probeSide[j].value < |probe|
    && (buildSide[j].None? ==> probe[probeSide[j].value] !in build)
    && (buildSide[j].Some? ==> buildSide[j].value < |build| && build[buildSide[j].value] == probe[probeSide[j].value])
  }

  /**
   * Whether output position `j` pairs a probe row with one of the rows `m`
   * lists for it, or with `None` when `m` lists none.
   */
  ghost predicate MatchedAt(m: seq<seq<nat>>, probeSide: seq<Option<nat>>, buildSide: seq<Option<nat>>, j: int)
    requires 0 <= j < |probeSide| && |buildSide| == |probeSide|
  {
    && probeSide[j].Some? && probeSide[j].value < |m|
    && (buildSide[j].None? ==> |m[probeSide[j].value]| == 0)
    && (buildSide[j].Some? ==> buildSide[j].value in m[probeSide[j].value])
  }

  /** The positions row `n - 1` adds pair it with each row listed for it, or with `None`. */
  lemma BlockMatched(m: seq<seq<nat>>, n: nat, j: nat)
    requires 0 < n <= |m|
    requires |ProbeSide(m, n - 1)| == |BuildSide(m, n - 1)|
    requires |ProbeSide(m, n - 1)| <= j < |ProbeSide(m, n)|
    ensures |ProbeSide(m, n)| == |BuildSide(m, n)|
    ensures MatchedAt(m, ProbeSide(m, n), BuildSide(m, n), j)
  {
    var rows := m[n - 1];
    var k := j - |ProbeSide(m, n - 1)|;
    assert ProbeSide(m, n)[j] == Repeat(Some(n - 1), Max1(|rows|))[k] == Some(n - 1);
    assert BuildSide(m, n)[j] == MatchesOrNone(rows)[k];
    if |rows| > 0 {
      assert MatchesOrNone(rows)[k] == Some(rows[k]);
    }
  }

  /** Matching at a position of the first `n - 1` rows' sides carries over to those of `n` rows. */
  lemma MatchedPrefix(m: seq<seq<nat>>, n: nat, j: nat)
    requires 0 < n <= |m|
    requires |ProbeSide(m, n - 1)| == |BuildSide(m, n - 1)| && j < |ProbeSide(m, n - 1)|
    requires MatchedAt(m, ProbeSide(m, n - 1), BuildSide(m, n - 1), j)
    ensures |ProbeSide(m, n)| == |BuildSide(m, n)|
    ensures MatchedAt(m, ProbeSide(m, n), BuildSide(m, n), j)
  {
    assert ProbeSide(m, n)[j] == ProbeSide(m, n - 1)[j];
    assert BuildSide(m, n)[j] == BuildSide(m, n - 1)[j];
  }

  /** Output position `j` pairs one of the first `n` probe rows with a row listed for it, or with `None`. */
  lemma {:induction false} ProbeMatchedAt(m: seq<seq<nat>>, n: nat, j: nat)
    requires n <= |m| && j < |ProbeSide(m, n)|
    ensures |ProbeSide(m, n)| == |BuildSide(m, n)|
    ensures MatchedAt(m, ProbeSide(m, n), BuildSide(m, n), j)
    decreases n
  {
    ProbeLengths(m, n - 1);
    if j < |ProbeSide(m, n - 1)| {
      ProbeMatchedAt(m, n - 1, j);
      MatchedPrefix(m, n, j);
    } else {
      BlockMatched(m, n, j);
    }
  }

  /** Over the true match lists, matching a listed row is pairing rows with equal keys. */
  lemma MatchedIsPaired<K>(probe: seq<K>, build: seq<K>, m: seq<seq<nat>>,
                           probeSide: seq<Option<nat>>, buildSide: seq<Option<nat>>, j: nat)
    requires MatchesKeys(probe, build, m)
    requires j < |probeSide| && |buildSide| == |probeSide|
    requires MatchedAt(m, probeSide, buildSide, j)
    ensures PairedAt(probe, build, probeSide, buildSide, j)
  {
    var i := probeSide[j].value;
    if buildSide[j].Some? {
      MatchesKeysAt(probe, build, m, i, buildSide[j].value);
    }
  }

  /** The two sides have equal length, and every position pairs a probe row with a match or with `None`. */
  lemma ProbeIsAligned<K>(probe: seq<K>, build: seq<K>)
    ensures |ProbeSide(MatchLists(probe, build), |probe|)| == |BuildSide(MatchLists(probe, build), |probe|)|
    ensures forall j :: 0 <= j < |ProbeSide(MatchLists(probe, build), |probe|)| ==>
      PairedAt(probe, build, ProbeSide(MatchLists(probe, build), |probe|), BuildSide(MatchLists(probe, build), |probe|), j)
  {
    var m := MatchLists(probe, build);
    ProbeLengths(m, |probe|);
    forall j | 0 <= j < |ProbeSide(m, |probe|)|
      ensures PairedAt(probe, build, ProbeSide(m, |probe|), BuildSide(m, |probe|), j)
    {
      ProbeMatchedAt(m, |probe|, j);
      MatchListsMatchKeys(probe, build);
      MatchedIsPaired(probe, build, m, ProbeSide(m, |probe|), BuildSide(m, |probe|), j);
    }
  }

  /** Each of the first `n` probe rows appears `max(1, matches)` times on the probe side; later rows never. */
  lemma {:induction false} ProbeSideCount(m: seq<seq<nat>>, n: nat, i: nat)
    requires n <= |m|
    ensures multiset(ProbeSide(m, n))[Some(i)] == if i < n then Max1(|m[i]|) else 0
    decreases n
  {
    if n > 0 {
      ProbeSideCount(m, n - 1, i);
      RepeatCount(Some(n - 1), Max1(|m[n - 1]|), Some(i));
    }
  }

  lemma {:induction false} RepeatCount<T>(x: T, n: nat, y: T)
    ensures multiset(Repeat(x, n))[y] == if x == y then n else 0
    decreases n
  {
    if n > 0 {
      assert Repeat(x, n) == Repeat(x, n - 1) + [x];
      RepeatCount(x, n - 1, y);
    }
  }

  /** A row occurs in `MatchesOrNone(rows)` exactly when it is one of `rows`. */
  lemma MatchesOrNoneHas(rows: seq<nat>, r: nat)
    ensures Some(r) in MatchesOrNone(rows) <==> r in rows
  {
    if r in rows {
      var k :| 0 <= k < |rows| && rows[k] == r;
      assert MatchesOrNone(rows)[k] == Some(r);
    }
  }

  /** A build row appears on the build side exactly when its key occurs among the first `n` probe rows. */
  lemma {:induction false} BuildSideCoverage<K>(probe: seq<K>, build: seq<K>, m: seq<seq<nat>>, n: nat, r: nat)
    requires MatchesKeys(probe, build, m)
    requires n <= |probe| && r < |build|
    ensures Some(r) in BuildSide(m, n) <==> build[r] in probe[..n]
    decreases n
  {
    if n > 0 {
      BuildSideCoverage(probe, build, m, n - 1, r);
      BuildSideHas(m, n, r);
      MatchesKeysAt(probe, build, m, n - 1, r);
      PrefixHas(probe, n, build[r]);
    }
  }

  /** A build row is on the build side of `n` probe rows iff it is on that of `n - 1` or matches row `n - 1`. */
  lemma BuildSideHas(m: seq<seq<nat>>, n: nat, r: nat)
    requires 0 < n <= |m|
    ensures Some(r) in BuildSide(m, n) <==> Some(r) in BuildSide(m, n - 1) || r in m[n - 1]
  {
    MatchesOrNoneHas(m[n - 1], r);
    assert BuildSide(m, n) == BuildSide(m, n - 1) + MatchesOrNone(m[n - 1]);
  }

  lemma PrefixHas<K>(s: seq<K>, n: nat, x: K)
    requires 0 < n <= |s|
    ensures x in s[..n] <==> x in s[..n - 1] || x == s[n - 1]
  {
    assert s[..n] == s[..n - 1] + [s[n - 1]];
  }

  // ---------------------------------------------------------------------
  // Full outer join: the build rows no probe row matched

  /** The indices below `n` that do not occur in `matched`, ascending. */
  function UnmatchedBelow(matched: seq<Option<nat>>, n: nat): seq<nat>
  {
    if n == 0 then []
    else UnmatchedBelow(matched, n - 1) + (if Some(n - 1) in matched then [] else [n - 1])
  }

  lemma {:induction false} UnmatchedSpec(matched: seq<Option<nat>>, n: nat)
    ensures forall r: nat :: r in UnmatchedBelow(matched, n) <==> r < n && Some(r) !in matched
    ensures StrictlyIncreasing(UnmatchedBelow(matched, n))
    decreases n
  {
    if n > 0 {
      UnmatchedSpec(matched, n - 1);
      var u0 := UnmatchedBelow(matched, n - 1);
      var tail: seq<nat> := if Some(n - 1) in matched then [] else [n - 1];
      assert UnmatchedBelow(matched, n) == u0 + tail;
      forall i | 0 <= i < |u0| ensures u0[i] < n - 1 {
        assert u0[i] in u0;
      }
      forall r: nat ensures r in u0 + tail <==> r < n && Some(r) !in matched {
        assert r in u0 + tail <==> r in u0 || r in tail;
      }
    }
  }

  /**
   * The right rows the final pass of the full join adds: those of the
   * `rightRows` rows of the right relation that no left row matched.
   */
  function FullJoinUnmatched<K(==)>(leftKeys: seq<K>, rightKeys: seq<K>, rightRows: nat): seq<nat>
  {
    UnmatchedBelow(BuildSide(MatchLists(leftKeys, rightKeys), |leftKeys|), rightRows)
  }

  /** The full join's left index list: the probe side, then a `None` for each unmatched right row. */
  function FullJoinLeft<K(==)>(leftKeys: seq<K>, rightKeys: seq<K>, rightRows: nat): seq<Option<nat>>
  {
    ProbeSide(MatchLists(leftKeys, rightKeys), |leftKeys|) + Repeat(None, |FullJoinUnmatched(leftKeys, rightKeys, rightRows)|)
  }

  /** The full join's right index list: the matches (or `None`), then the unmatched right rows. */
  function FullJoinRight<K(==)>(leftKeys: seq<K>, rightKeys: seq<K>, rightRows: nat): seq<Option<nat>>
  {
    BuildSide(MatchLists(leftKeys, rightKeys), |leftKeys|) + Wrap(FullJoinUnmatched(leftKeys, rightKeys, rightRows))
  }

  lemma FullJoinLengths<K>(leftKeys: seq<K>, rightKeys: seq<K>, rightRows: nat)
    ensures |FullJoinLeft(leftKeys, rightKeys, rightRows)| == |FullJoinRight(leftKeys, rightKeys, rightRows)|
  {
    ProbeIsAligned(leftKeys, rightKeys);
  }

  /** Every left row appears max(1, matches) times in the full join's left list. */
  lemma FullJoinLeftCount<K>(leftKeys: seq<K>, rightKeys: seq<K>, rightRows: nat, i: nat)
    requires i < |leftKeys|
    ensures multiset(FullJoinLeft(leftKeys, rightKeys, rightRows))[Some(i)] == Max1(|Positions(rightKeys, leftKeys[i])|)
  {
    ProbeSideCount(MatchLists(leftKeys, rightKeys), |leftKeys|, i);
    RepeatCount(None, |FullJoinUnmatched(leftKeys, rightKeys, rightRows)|, Some(i));
  }

  /** Every row of the right relation appears in the full join's right list, whether or not it has a key. */
  lemma FullJoinCoversRight<K>(leftKeys: seq<K>, rightKeys: seq<K>, rightRows: nat, r: nat)
    requires r < rightRows
    ensures Some(r) in FullJoinRight(leftKeys, rightKeys, rightRows)
  {
    var b := BuildSide(MatchLists(leftKeys, rightKeys), |leftKeys|);
    var u := FullJoinUnmatched(leftKeys, rightKeys, rightRows);
    if Some(r) !in b {
      UnmatchedSpec(b, rightRows);
      assert r in u;
      var k :| 0 <= k < |u| && u[k] == r;
      assert FullJoinRight(leftKeys, rightKeys, rightRows)[|b| + k] == Some(r);
    }
  }

  /** The probe part of the full join pairs each left row with its matches, or with `None`. */
  lemma FullJoinPaired<K>(leftKeys: seq<K>, rightKeys: seq<K>, rightRows: nat, j: nat)
    requires j < |ProbeSide(MatchLists(leftKeys, rightKeys), |leftKeys|)|
    ensures |FullJoinLeft(leftKeys, rightKeys, rightRows)| == |FullJoinRight(leftKeys, rightKeys, rightRows)|
    ensures PairedAt(leftKeys, rightKeys, FullJoinLeft(leftKeys, rightKeys, rightRows), FullJoinRight(leftKeys, rightKeys, rightRows), j)
  {
    var p, b := ProbeSide(MatchLists(leftKeys, rightKeys), |leftKeys|), BuildSide(MatchLists(leftKeys, rightKeys), |leftKeys|);
    ProbeIsAligned(leftKeys, rightKeys);
    assert FullJoinLeft(leftKeys, rightKeys, rightRows)[j] == p[j] && FullJoinRight(leftKeys, rightKeys, rightRows)[j] == b[j];
    assert PairedAt(leftKeys, rightKeys, p, b, j);
  }

  /**
   * The final part of the full join pairs `None` with a right row no left
   * row matched: one of the `rightRows` rows, and when it has a key, a key
   * no left row has.
   */
  lemma FullJoinTail<K>(leftKeys: seq<K>, rightKeys: seq<K>, rightRows: nat, j: nat)
    requires |ProbeSide(MatchLists(leftKeys, rightKeys), |leftKeys|)| <= j < |FullJoinLeft(leftKeys, rightKeys, rightRows)|
    ensures j < |FullJoinRight(leftKeys, rightKeys, rightRows)|
    ensures FullJoinLeft(leftKeys, rightKeys, rightRows)[j] == None
    ensures FullJoinRight(leftKeys, rightKeys, rightRows)[j].Some?
    ensures FullJoinRight(leftKeys, rightKeys, rightRows)[j].value < rightRows
    ensures FullJoinRight(leftKeys, rightKeys, rightRows)[j] !in BuildSide(MatchLists(leftKeys, rightKeys), |leftKeys|)
    ensures FullJoinRight(leftKeys, rightKeys, rightRows)[j].value < |rightKeys| ==>
      rightKeys[FullJoinRight(leftKeys, rightKeys, rightRows)[j].value] !in leftKeys
  {
    var p, b := ProbeSide(MatchLists(leftKeys, rightKeys), |leftKeys|), BuildSide(MatchLists(leftKeys, rightKeys), |leftKeys|);
    var u := FullJoinUnmatched(leftKeys, rightKeys, rightRows);
    ProbeIsAligned(leftKeys, rightKeys);
    UnmatchedSpec(b, rightRows);
    var r := u[j - |p|];
    assert r in u;
    assert FullJoinRight(leftKeys, rightKeys, rightRows)[j] == Some(r);
    if r < |rightKeys| {
      MatchListsMatchKeys(leftKeys, rightKeys);
      BuildSideCoverage(leftKeys, rightKeys, MatchLists(leftKeys, rightKeys), |leftKeys|, r);
      assert leftKeys[..|leftKeys|] == leftKeys;
    }
  }

  // ---------------------------------------------------------------------
  // Semi and anti joins

  /** The probe rows below `n` whose key some build row holds, ascending. */
  function SemiBelow<K(==)>(probe: seq<K>, build: seq<K>, n: nat): seq<nat>
    requires n <= |probe|
  {
    if n == 0 then []
    else SemiBelow(probe, build, n - 1) + (if probe[n - 1] in build then [n - 1] else [])
  }

  /** The probe rows below `n` whose key no build row holds, ascending. */
  function AntiBelow<K(==)>(probe: seq<K>, build: seq<K>, n: nat): seq<nat>
    requires n <= |probe|
  {
    if n == 0 then []
    else AntiBelow(probe, build, n - 1) + (if probe[n - 1] in build then [] else [n - 1])
  }

  /** A key has rows in the table exactly when some build row holds it. */
  lemma HasMatch<K>(build: seq<K>, k: K)
    ensures |Positions(build, k)| > 0 <==> k in build
  {
    NoPositions(build, k);
  }

  /** Every element of `s` is below `x`, given `s` only holds indices below `x` that pass membership. */
  lemma AllBelow(s: seq<nat>, x: nat)
    requires forall i: nat :: i in s ==> i < x
    ensures forall i :: 0 <= i < |s| ==> s[i] < x
  {
    forall i | 0 <= i < |s| ensures s[i] < x {
      assert s[i] in s;
    }
  }

  /** The semi join keeps exactly the probe rows with a match, in ascending order. */
  lemma {:induction false} SemiSpec<K>(probe: seq<K>, build: seq<K>, n: nat)
    requires n <= |probe|
    ensures forall i: nat :: i in SemiBelow(probe, build, n) <==> i < n && probe[i] in build
    ensures StrictlyIncreasing(SemiBelow(probe, build, n))
    decreases n
  {
    if n > 0 {
      SemiSpec(probe, build, n - 1);
      var s0 := SemiBelow(probe, build, n - 1);
      if probe[n - 1] in build {
        assert SemiBelow(probe, build, n) == s0 + [n - 1];
        AllBelow(s0, n - 1);
        AppendIncreasing(s0, [n - 1], n - 1);
        forall i: nat ensures i in s0 + [n - 1] <==> i < n && probe[i] in build {
          assert i in s0 + [n - 1] <==> i in s0 || i == n - 1;
        }
      } else {
        assert SemiBelow(probe, build, n) == s0 + [];
        assert s0 + [] == s0;
      }
    }
  }

  /** The anti join keeps exactly the probe rows without a match, in ascending order. */
  lemma {:induction false} AntiSpec<K>(probe: seq<K>, build: seq<K>, n: nat)
    requires n <= |probe|
    ensures forall i: nat :: i in AntiBelow(probe, build, n) <==> i < n && probe[i] !in build
    ensures StrictlyIncreasing(AntiBelow(probe, build, n))
    decreases n
  {
    if n > 0 {
      AntiSpec(probe, build, n - 1);
      var a0 := AntiBelow(probe, build, n - 1);
      if probe[n - 1] !in build {
        assert AntiBelow(probe, build, n) == a0 + [n - 1];
        AllBelow(a0, n - 1);
        AppendIncreasing(a0, [n - 1], n - 1);
        forall i: nat ensures i in a0 + [n - 1] <==> i < n && probe[i] !in build {
          assert i in a0 + [n - 1] <==> i in a0 || i == n - 1;
        }
      } else {
        assert AntiBelow(probe, build, n) == a0 + [];
        assert a0 + [] == a0;
      }
    }
  }

  /**
   * Semi and anti join together partition the probe rows `0..n-1`: every
   * row lands in exactly one of them, and together they hold `n` rows.
   */
  lemma {:induction false} SemiAntiPartition<K>(probe: seq<K>, build: seq<K>, n: nat)
    requires n <= |probe|
    ensures |SemiBelow(probe, build, n)| + |AntiBelow(probe, build, n)| == n
    ensures forall i: nat :: i < n ==> (i in SemiBelow(probe, build, n) <==> i !in AntiBelow(probe, build, n))
  {
    SemiSpec(probe, build, n);
    AntiSpec(probe, build, n);
    SemiAntiLength(probe, build, n);
  }

  lemma {:induction false} SemiAntiLength<K>(probe: seq<K>, build: seq<K>, n: nat)
    requires n <= |probe|
    ensures |SemiBelow(probe, build, n)| + |AntiBelow(probe, build, n)| == n
    decreases n
  {
    if n > 0 {
      SemiAntiLength(probe, build, n - 1);
    }
  }

  // ---------------------------------------------------------------------
  // Left outer join: one group per distinct key of the left relation

  /** The distinct keys among `keys[..n]`, in order of first occurrence. */
  function DistinctBelow<K(==)>(keys: seq<K>, n: nat): seq<K>
    requires n <= |keys|
  {
    if n == 0 then []
    else DistinctBelow(keys, n - 1) + (if keys[n - 1] in keys[..n - 1] then [] else [keys[n - 1]])
  }

  predicate NoDuplicates<K(==)>(s: seq<K>)
  {
    forall i, j :: 0 <= i < j < |s| ==> s[i] != s[j]
  }

  lemma {:induction false} DistinctSpec<K>(keys: seq<K>, n: nat)
    requires n <= |keys|
    ensures forall k :: k in DistinctBelow(keys, n) <==> k in keys[..n]
    ensures NoDuplicates(DistinctBelow(keys, n))
    decreases n
  {
    if n > 0 {
      DistinctSpec(keys, n - 1);
      var d0 := DistinctBelow(keys, n - 1);
      var tail := if keys[n - 1] in keys[..n - 1] then [] else [keys[n - 1]];
      assert DistinctBelow(keys, n) == d0 + tail;
      assert keys[..n] == keys[..n - 1] + [keys[n - 1]];
      forall k ensures k in d0 + tail <==> k in keys[..n] {
        assert k in d0 + tail <==> k in d0 || k in tail;
      }
      if tail != [] {
        forall i | 0 <= i < |d0| ensures d0[i] != keys[n - 1] {
          assert d0[i] in d0;
        }
      }
    }
  }

  /** Each of `ls` once per right match: the left half of the cross product. */
  function CrossLeft(ls: seq<nat>, m: nat): seq<Option<nat>>
  {
    if |ls| == 0 then [] else CrossLeft(ls[..|ls| - 1], m) + Repeat(Some(ls[|ls| - 1]), m)
  }

  /** All of `rs` once per left row: the right half of the cross product. */
  function CrossRight(ls: seq<nat>, rs: seq<nat>): seq<Option<nat>>
  {
    if |ls| == 0 then [] else CrossRight(ls[..|ls| - 1], rs) + Wrap(rs)
  }

  /** The left indices one group contributes: the cross product, or each left row once with no match. */
  function GroupLeft(ls: seq<nat>, rs: seq<nat>): seq<Option<nat>>
  {
    if |rs| > 0 then CrossLeft(ls, |rs|) else Wrap(ls)
  }

  function GroupRight(ls: seq<nat>, rs: seq<nat>): seq<Option<nat>>
  {
    if |rs| > 0 then CrossRight(ls, rs) else Repeat(None, |ls|)
  }

  lemma {:induction false} CrossPaired(ls: seq<nat>, rs: seq<nat>, j: nat)
    requires |rs| > 0
    ensures |CrossLeft(ls, |rs|)| == |CrossRight(ls, rs)| == |ls| * |rs|
    ensures j < |ls| * |rs| ==>
      CrossLeft(ls, |rs|)[j].Some? && CrossLeft(ls, |rs|)[j].value in ls
      && CrossRight(ls, rs)[j].Some? && CrossRight(ls, rs)[j].value in rs
    decreases |ls|
  {
    if |ls| > 0 {
      var front := ls[..|ls| - 1];
      CrossPaired(front, rs, j);
      assert |ls| * |rs| == |front| * |rs| + |rs|;
      if |front| * |rs| <= j < |ls| * |rs| {
        assert CrossLeft(ls, |rs|)[j] == Some(ls[|ls| - 1]);
        assert CrossRight(ls, rs)[j] == Some(rs[j - |front| * |rs|]);
      } else if j < |front| * |rs| {
        assert CrossLeft(ls, |rs|)[j] == CrossLeft(front, |rs|)[j];
        assert CrossRight(ls, rs)[j] == CrossRight(front, rs)[j];
        assert forall x :: x in front ==> x in ls;
      }
    }
  }

  lemma {:induction false} CrossLeftCount(ls: seq<nat>, m: nat, x: nat)
    ensures multiset(CrossLeft(ls, m))[Some(x)] == m * multiset(ls)[x]
    decreases |ls|
  {
    if |ls| > 0 {
      var front := ls[..|ls| - 1];
      var last := ls[|ls| - 1];
      CrossLeftCount(front, m, x);
      RepeatCount(Some(last), m, Some(x));
      assert CrossLeft(ls, m) == CrossLeft(front, m) + Repeat(Some(last), m);
      SnocCount(ls, x);
      var mf: multiset<nat> := multiset(front);
      SuccProduct(mf[x], m, last == x);
    }
  }

  lemma {:induction false} WrapCount(s: seq<nat>, x: nat)
    ensures multiset(Wrap(s))[Some(x)] == multiset(s)[x]
    decreases |s|
  {
    if |s| > 0 {
      var front := s[..|s| - 1];
      WrapCount(front, x);
      assert s == front + [s[|s| - 1]];
      assert Wrap(s) == Wrap(front) + [Some(s[|s| - 1])];
    }
  }

  lemma {:induction false} CrossLengths(ls: seq<nat>, rs: seq<nat>)
    ensures |CrossLeft(ls, |rs|)| == |ls| * |rs| == |CrossRight(ls, rs)|
    decreases |ls|
  {
    if |ls| > 0 {
      CrossLengths(ls[..|ls| - 1], rs);
      assert |rs| * |ls| == |rs| * (|ls| - 1) + |rs|;
      assert |ls| * |rs| == (|ls| - 1) * |rs| + |rs|;
    }
  }

  lemma GroupLengths(ls: seq<nat>, rs: seq<nat>)
    ensures |GroupLeft(ls, rs)| == |GroupRight(ls, rs)|
  {
    if |rs| > 0 {
      CrossLengths(ls, rs);
    }
  }

  /**
   * Position `j` of a group pairs one of its left rows with one of its
   * right rows, or with `None` when it has no right rows.
   */
  lemma GroupMatched(ls: seq<nat>, rs: seq<nat>, j: nat)
    requires j < |GroupLeft(ls, rs)|
    ensures |GroupRight(ls, rs)| == |GroupLeft(ls, rs)|
    ensures GroupLeft(ls, rs)[j].Some? && GroupLeft(ls, rs)[j].value in ls
    ensures GroupRight(ls, rs)[j].None? ==> |rs| == 0
    ensures GroupRight(ls, rs)[j].Some? ==> GroupRight(ls, rs)[j].value in rs
  {
    if |rs| > 0 {
      CrossLengths(ls, rs);
      CrossPaired(ls, rs, j);
    } else {
      assert Wrap(ls)[j] == Some(ls[j]);
    }
  }

  /** Within the group of key `k`, left row `i` appears max(1, matches) times if it holds `k`, else never. */
  lemma GroupCount<K>(leftKeys: seq<K>, rightKeys: seq<K>, k: K, i: nat)
    ensures multiset(GroupLeft(Positions(leftKeys, k), Positions(rightKeys, k)))[Some(i)] ==
      if i < |leftKeys| && leftKeys[i] == k then Max1(|Positions(rightKeys, k)|) else 0
  {
    var ls, rs := Positions(leftKeys, k), Positions(rightKeys, k);
    PositionsSpec(leftKeys, k);
    var ml: multiset<nat> := multiset(ls);
    assert ml[i] == if i < |leftKeys| && leftKeys[i] == k then 1 else 0;
    if |rs| > 0 {
      CrossLeftCount(ls, |rs|, i);
      assert |rs| * 1 == |rs| && |rs| * 0 == 0;
    } else {
      WrapCount(ls, i);
    }
  }

  /** The left and right rows holding one key: one group of the left join. */
  datatype Group = Group(left: seq<nat>, right: seq<nat>)

  /** The group of each key of `order`. */
  function GroupsOf<K(==)>(leftKeys: seq<K>, rightKeys: seq<K>, order: seq<K>): (gs: seq<Group>)
    ensures |gs| == |order|
    ensures forall g :: 0 <= g < |order| ==>
      gs[g] == Group(Positions(leftKeys, order[g]), Positions(rightKeys, order[g]))
  {
    seq(|order|, g requires 0 <= g < |order| => Group(Positions(leftKeys, order[g]), Positions(rightKeys, order[g])))
  }

  /** The concatenation of the first `g` blocks, in order. */
  function Concatenated<T>(blocks: seq<seq<T>>, g: nat): seq<T>
    requires g <= |blocks|
  {
    if g == 0 then [] else Concatenated(blocks, g - 1) + blocks[g - 1]
  }

  /**
   * Two concatenations of blocks of pairwise equal length have equal
   * length, and each position lies at the same offset of the same block
   * in both.
   */
  lemma {:induction false} ConcatenatedAt<T, U>(a: seq<seq<T>>, b: seq<seq<U>>, g: nat, j: nat) returns (h: nat, off: nat)
    requires g <= |a| && g <= |b|
    requires forall i :: 0 <= i < g ==> |a[i]| == |b[i]|
    ensures |Concatenated(a, g)| == |Concatenated(b, g)|
    ensures j < |Concatenated(a, g)| ==> h < g && off < |a[h]| && Concatenated(a, g)[j] == a[h][off] && Concatenated(b, g)[j] == b[h][off]
    decreases g
  {
    h, off := 0, 0;
    if g > 0 {
      var n0 := |Concatenated(a, g - 1)|;
      h, off := ConcatenatedAt(a, b, g - 1, j);
      if j < n0 {
        assert Concatenated(a, g)[j] == Concatenated(a, g - 1)[j];
        assert Concatenated(b, g)[j] == Concatenated(b, g - 1)[j];
      } else {
        h, off := g - 1, j - n0;
        if j < |Concatenated(a, g)| {
          assert Concatenated(a, g)[j] == a[h][off];
          assert Concatenated(b, g)[j] == b[h][off];
        }
      }
    }
  }

  /** The left indices each group contributes. */
  function LeftBlocks(gs: seq<Group>): (bs: seq<seq<Option<nat>>>)
    ensures |bs| == |gs| && forall g :: 0 <= g < |gs| ==> bs[g] == GroupLeft(gs[g].left, gs[g].right)
  {
    seq(|gs|, g requires 0 <= g < |gs| => GroupLeft(gs[g].left, gs[g].right))
  }

  /** The right indices each group contributes. */
  function RightBlocks(gs: seq<Group>): (bs: seq<seq<Option<nat>>>)
    ensures |bs| == |gs| && forall g :: 0 <= g < |gs| ==> bs[g] == GroupRight(gs[g].left, gs[g].right)
  {
    seq(|gs|, g requires 0 <= g < |gs| => GroupRight(gs[g].left, gs[g].right))
  }

  /** The left join's left indices for the first `g` groups. */
  function LeftSide(gs: seq<Group>, g: nat): seq<Option<nat>>
    requires g <= |gs|
  {
    Concatenated(LeftBlocks(gs), g)
  }

  /** The left join's right indices for the first `g` groups. */
  function RightSide(gs: seq<Group>, g: nat): seq<Option<nat>>
    requires g <= |gs|
  {
    Concatenated(RightBlocks(gs), g)
  }

  /** Adding group `g` appends its own indices to both sides. */
  lemma SideStep(gs: seq<Group>, g: nat)
    requires g < |gs|
    ensures LeftSide(gs, g + 1) == LeftSide(gs, g) + GroupLeft(gs[g].left, gs[g].right)
    ensures RightSide(gs, g + 1) == RightSide(gs, g) + GroupRight(gs[g].left, gs[g].right)
  {
  }

  /** The groups of the left join, in order of each key's first occurrence among the left rows. */
  function LeftJoinOrder<K(==)>(leftKeys: seq<K>): seq<K>
  {
    DistinctBelow(leftKeys, |leftKeys|)
  }

  function LeftJoinGroups<K(==)>(leftKeys: seq<K>, rightKeys: seq<K>): seq<Group>
  {
    GroupsOf(leftKeys, rightKeys, LeftJoinOrder(leftKeys))
  }

  function LeftJoinLeft<K(==)>(leftKeys: seq<K>, rightKeys: seq<K>): seq<Option<nat>>
  {
    LeftSide(LeftJoinGroups(leftKeys, rightKeys), |LeftJoinOrder(leftKeys)|)
  }

  function LeftJoinRight<K(==)>(leftKeys: seq<K>, rightKeys: seq<K>): seq<Option<nat>>
  {
    RightSide(LeftJoinGroups(leftKeys, rightKeys), |LeftJoinOrder(leftKeys)|)
  }

  /** Whether position `j` pairs a left row of group `h` with a right row of it, or with `None` when it has none. */
  ghost predicate InGroupAt(gs: seq<Group>, left: seq<Option<nat>>, right: seq<Option<nat>>, j: int, h: nat)
    requires 0 <= j < |left| && |right| == |left|
  {
    && h < |gs|
    && left[j].Some? && left[j].value in gs[h].left
    && (right[j].None? ==> |gs[h].right| == 0)
    && (right[j].Some? ==> right[j].value in gs[h].right)
  }

  /** Every position of the first `g` groups pairs rows of one group `h < g`. */
  lemma SideInGroup(gs: seq<Group>, g: nat, j: nat) returns (h: nat)
    requires g <= |gs|
    ensures |LeftSide(gs, g)| == |RightSide(gs, g)|
    ensures j < |LeftSide(gs, g)| ==> h < g && InGroupAt(gs, LeftSide(gs, g), RightSide(gs, g), j, h)
  {
    var ls, rs := LeftBlocks(gs), RightBlocks(gs);
    forall i | 0 <= i < g
      ensures |ls[i]| == |rs[i]|
    {
      GroupLengths(gs[i].left, gs[i].right);
    }
    var off;
    h, off := ConcatenatedAt(ls, rs, g, j);
    if j < |LeftSide(gs, g)| {
      GroupMatched(gs[h].left, gs[h].right, off);
    }
  }

  /** Rows of the group of a key hold that key, so a pair within a group is a pair of equal keys. */
  lemma InGroupIsPaired<K>(leftKeys: seq<K>, rightKeys: seq<K>, order: seq<K>,
                           left: seq<Option<nat>>, right: seq<Option<nat>>, j: nat, h: nat)
    requires j < |left| && |right| == |left|
    requires InGroupAt(GroupsOf(leftKeys, rightKeys, order), left, right, j, h)
    ensures PairedAt(leftKeys, rightKeys, left, right, j)
  {
    var k := order[h];
    PositionsHas(leftKeys, k, left[j].value);
    if right[j].Some? {
      PositionsHas(rightKeys, k, right[j].value);
    } else {
      NoPositions(rightKeys, k);
    }
  }

  /** Group `g` holds left row `i` max(1, matches) times when the row holds the group's key, else never. */
  lemma GroupsOfCount<K>(leftKeys: seq<K>, rightKeys: seq<K>, order: seq<K>, g: nat, i: nat)
    requires g < |order| && i < |leftKeys|
    ensures var gs := GroupsOf(leftKeys, rightKeys, order);
      multiset(GroupLeft(gs[g].left, gs[g].right))[Some(i)] ==
        if leftKeys[i] == order[g] then Max1(|Positions(rightKeys, leftKeys[i])|) else 0
  {
    GroupCount(leftKeys, rightKeys, order[g], i);
  }

  /**
   * When `x` occurs `c` times in the block of `key` and never in another,
   * and no key has two blocks, the first `g` blocks hold it `c` times if
   * `key` is among their keys and never otherwise.
   */
  lemma {:induction false} ConcatenatedCount<K, T>(blocks: seq<seq<T>>, order: seq<K>, key: K, x: T, c: nat, g: nat)
    requires g <= |blocks| == |order| && NoDuplicates(order)
    requires forall h :: 0 <= h < |blocks| ==> multiset(blocks[h])[x] == if order[h] == key then c else 0
    ensures multiset(Concatenated(blocks, g))[x] == if key in order[..g] then c else 0
    decreases g
  {
    if g > 0 {
      ConcatenatedCount(blocks, order, key, x, c, g - 1);
      assert multiset(Concatenated(blocks, g)) == multiset(Concatenated(blocks, g - 1)) + multiset(blocks[g - 1]);
      PrefixHas(order, g, key);
      assert order[g - 1] !in order[..g - 1];
    }
  }

  /**
   * The left outer join's guarantees: the two index lists have equal
   * length, every position pairs a left row with a right row holding the
   * same key or with `None` when none does, and every left row appears
   * max(1, matches) times.
   */
  lemma LeftJoinSpec<K>(leftKeys: seq<K>, rightKeys: seq<K>)
    ensures |LeftJoinLeft(leftKeys, rightKeys)| == |LeftJoinRight(leftKeys, rightKeys)|
    ensures forall j :: 0 <= j < |LeftJoinLeft(leftKeys, rightKeys)| ==>
      PairedAt(leftKeys, rightKeys, LeftJoinLeft(leftKeys, rightKeys), LeftJoinRight(leftKeys, rightKeys), j)
    ensures forall i :: 0 <= i < |leftKeys| ==>
      multiset(LeftJoinLeft(leftKeys, rightKeys))[Some(i)] == Max1(|Positions(rightKeys, leftKeys[i])|)
  {
    var order := LeftJoinOrder(leftKeys);
    var gs := GroupsOf(leftKeys, rightKeys, order);
    var h0 := SideInGroup(gs, |order|, 0);
    forall j | 0 <= j < |LeftSide(gs, |order|)|
      ensures PairedAt(leftKeys, rightKeys, LeftSide(gs, |order|), RightSide(gs, |order|), j)
    {
      var h := SideInGroup(gs, |order|, j);
      InGroupIsPaired(leftKeys, rightKeys, order, LeftSide(gs, |order|), RightSide(gs, |order|), j, h);
    }
    forall i | 0 <= i < |leftKeys|
      ensures multiset(LeftSide(gs, |order|))[Some(i)] == Max1(|Positions(rightKeys, leftKeys[i])|)
    {
      LeftJoinCount(leftKeys, rightKeys, i);
    }
  }

  /** Every left row appears in the left join max(1, matches) times. */
  lemma LeftJoinCount<K>(leftKeys: seq<K>, rightKeys: seq<K>, i: nat)
    requires i < |leftKeys|
    ensures multiset(LeftJoinLeft(leftKeys, rightKeys))[Some(i)] == Max1(|Positions(rightKeys, leftKeys[i])|)
  {
    var order := LeftJoinOrder(leftKeys);
    var gs := GroupsOf(leftKeys, rightKeys, order);
    DistinctSpec(leftKeys, |leftKeys|);
    assert leftKeys[..|leftKeys|] == leftKeys;
    assert order[..|order|] == order;
    assert leftKeys[i] in leftKeys;
    var blocks := LeftBlocks(gs);
    forall h | 0 <= h < |blocks|
      ensures multiset(blocks[h])[Some(i)] ==
        if order[h] == leftKeys[i] then Max1(|Positions(rightKeys, leftKeys[i])|) else 0
    {
      GroupsOfCount(leftKeys, rightKeys, order, h, i);
    }
    ConcatenatedCount(blocks, order, leftKeys[i], Some(i), Max1(|Positions(rightKeys, leftKeys[i])|), |order|);
  }


  // ---------------------------------------------------------------------
  // Pairs: each probe row is output once beside each of its matches

  /** Two equally long index lists, position by position. */
  function Zip(a: seq<Option<nat>>, b: seq<Option<nat>>): (r: seq<(Option<nat>, Option<nat>)>)
    requires |a| == |b|
    ensures |r| == |a| && forall j :: 0 <= j < |a| ==> r[j] == (a[j], b[j])
  {
    seq(|a|, j requires 0 <= j < |a| => (a[j], b[j]))
  }

  /** The number of positions `j` with `a[j] == x` and `b[j] == y`. */
  function PairCount(a: seq<Option<nat>>, b: seq<Option<nat>>, x: Option<nat>, y: Option<nat>): nat
    requires |a| == |b|
  {
    multiset(Zip(a, b))[(x, y)]
  }

  lemma ZipAppend(a: seq<Option<nat>>, b: seq<Option<nat>>, c: seq<Option<nat>>, d: seq<Option<nat>>)
    requires |a| == |b| && |c| == |d|
    ensures Zip(a + c, b + d) == Zip(a, b) + Zip(c, d)
  {
  }

  /** Pairs are counted block by block. */
  lemma PairCountAppend(a: seq<Option<nat>>, b: seq<Option<nat>>, c: seq<Option<nat>>, d: seq<Option<nat>>,
                        x: Option<nat>, y: Option<nat>)
    requires |a| == |b| && |c| == |d|
    ensures PairCount(a + c, b + d, x, y) == PairCount(a, b, x, y) + PairCount(c, d, x, y)
  {
    ZipAppend(a, b, c, d);
  }

  /** A pair no position holds is counted zero times. */
  lemma PairAbsent(a: seq<Option<nat>>, b: seq<Option<nat>>, x: Option<nat>, y: Option<nat>)
    requires |a| == |b| && forall j :: 0 <= j < |a| ==> a[j] != x || b[j] != y
    ensures PairCount(a, b, x, y) == 0
  {
    var z := Zip(a, b);
    forall j | 0 <= j < |z| ensures z[j] != (x, y) {
    }
  }

  /** `x` beside each of `rows`: the pair (`x`, row `r`) occurs as often as `r` does in `rows`. */
  lemma {:induction false} WrapPairCount(x: Option<nat>, rows: seq<nat>, y: Option<nat>, r: nat)
    ensures PairCount(Repeat(x, |rows|), Wrap(rows), y, Some(r)) == if x == y then multiset(rows)[r] else 0
    decreases |rows|
  {
    if |rows| > 0 {
      var front, last := rows[..|rows| - 1], rows[|rows| - 1];
      WrapPairCount(x, front, y, r);
      assert rows == front + [last];
      assert Repeat(x, |rows|) == Repeat(x, |front|) + [x];
      assert Wrap(rows) == Wrap(front) + [Some(last)];
      PairCountAppend(Repeat(x, |front|), Wrap(front), [x], [Some(last)], y, Some(r));
      assert Zip([x], [Some(last)]) == [(x, Some(last))];
    }
  }

  /** The block of probe row `x`: the pair (`i`, `r`) occurs as often as `x == i` and `rows` lists `r`. */
  lemma BlockPairCount(x: nat, rows: seq<nat>, i: nat, r: nat)
    ensures PairCount(Repeat(Some(x), Max1(|rows|)), MatchesOrNone(rows), Some(i), Some(r)) ==
      if i == x then multiset(rows)[r] else 0
  {
    if |rows| > 0 {
      WrapPairCount(Some(x), rows, Some(i), r);
    } else {
      PairAbsent(Repeat(Some(x), Max1(|rows|)), MatchesOrNone(rows), Some(i), Some(r));
      assert multiset(rows)[r] == 0;
    }
  }

  /** One more probe row adds the pairs of its own block, and no pair of an earlier row. */
  lemma ProbeStepPairs(m: seq<seq<nat>>, n: nat, i: nat, r: nat)
    requires 0 < n <= |m|
    requires |ProbeSide(m, n - 1)| == |BuildSide(m, n - 1)|
    requires PairCount(ProbeSide(m, n - 1), BuildSide(m, n - 1), Some(i), Some(r)) ==
      if i < n - 1 then multiset(m[i])[r] else 0
    ensures |ProbeSide(m, n)| == |BuildSide(m, n)|
    ensures PairCount(ProbeSide(m, n), BuildSide(m, n), Some(i), Some(r)) == if i < n then multiset(m[i])[r] else 0
  {
    var x: nat := n - 1;
    var block: seq<Option<nat>> := Repeat(Some(x), Max1(|m[x]|));
    var matches := MatchesOrNone(m[x]);
    BlockPairCount(x, m[x], i, r);
    assert ProbeSide(m, n) == ProbeSide(m, x) + block;
    assert BuildSide(m, n) == BuildSide(m, x) + matches;
    PairCountAppend(ProbeSide(m, x), BuildSide(m, x), block, matches, Some(i), Some(r));
  }

  /** The first `n` probe rows are output beside build row `r` as often as `m` lists `r` for them. */
  lemma {:induction false} ProbePairCount(m: seq<seq<nat>>, n: nat, i: nat, r: nat)
    requires n <= |m|
    ensures |ProbeSide(m, n)| == |BuildSide(m, n)|
    ensures PairCount(ProbeSide(m, n), BuildSide(m, n), Some(i), Some(r)) == if i < n then multiset(m[i])[r] else 0
    decreases n
  {
    if n > 0 {
      ProbePairCount(m, n - 1, i, r);
      ProbeStepPairs(m, n, i, r);
    }
  }

  /**
   * Probing pairs probe row `i` with each build row holding its key exactly
   * once, and with no other build row.
   */
  lemma ProbePairs<K>(probe: seq<K>, build: seq<K>, i: nat, r: nat)
    requires i < |probe|
    ensures |ProbeSide(MatchLists(probe, build), |probe|)| == |BuildSide(MatchLists(probe, build), |probe|)|
    ensures PairCount(ProbeSide(MatchLists(probe, build), |probe|), BuildSide(MatchLists(probe, build), |probe|),
                      Some(i), Some(r)) == if r < |build| && build[r] == probe[i] then 1 else 0
  {
    ProbePairCount(MatchLists(probe, build), |probe|, i, r);
    PositionsSpec(build, probe[i]);
  }

  /**
   * The full join pairs left row `i` with each right row holding its key
   * exactly once, and with no other right row.
   */
  lemma FullJoinPairs<K>(leftKeys: seq<K>, rightKeys: seq<K>, rightRows: nat, i: nat, r: nat)
    requires i < |leftKeys|
    ensures |FullJoinLeft(leftKeys, rightKeys, rightRows)| == |FullJoinRight(leftKeys, rightKeys, rightRows)|
    ensures PairCount(FullJoinLeft(leftKeys, rightKeys, rightRows), FullJoinRight(leftKeys, rightKeys, rightRows),
                      Some(i), Some(r)) == if r < |rightKeys| && rightKeys[r] == leftKeys[i] then 1 else 0
  {
    var m := MatchLists(leftKeys, rightKeys);
    var u := FullJoinUnmatched(leftKeys, rightKeys, rightRows);
    ProbePairs(leftKeys, rightKeys, i, r);
    PairCountAppend(ProbeSide(m, |leftKeys|), BuildSide(m, |leftKeys|), Repeat(None, |u|), Wrap(u), Some(i), Some(r));
    WrapPairCount(None, u, Some(i), r);
  }

  /**
   * The full join pairs `None` with right row `r` exactly once when `r` is
   * one of the `rightRows` rows and no left row matched it, and never
   * otherwise; a right row with a key is matched exactly when a left row
   * holds that key.
   */
  lemma FullJoinUnmatchedOnce<K>(leftKeys: seq<K>, rightKeys: seq<K>, rightRows: nat, r: nat)
    ensures |FullJoinLeft(leftKeys, rightKeys, rightRows)| == |FullJoinRight(leftKeys, rightKeys, rightRows)|
    ensures PairCount(FullJoinLeft(leftKeys, rightKeys, rightRows), FullJoinRight(leftKeys, rightKeys, rightRows),
                      None, Some(r)) ==
      if r < rightRows && Some(r) !in BuildSide(MatchLists(leftKeys, rightKeys), |leftKeys|) then 1 else 0
    ensures r < |rightKeys| ==>
      (Some(r) in BuildSide(MatchLists(leftKeys, rightKeys), |leftKeys|) <==> rightKeys[r] in leftKeys)
  {
    var m := MatchLists(leftKeys, rightKeys);
    var p, b := ProbeSide(m, |leftKeys|), BuildSide(m, |leftKeys|);
    var u := FullJoinUnmatched(leftKeys, rightKeys, rightRows);
    ProbeIsAligned(leftKeys, rightKeys);
    forall j | 0 <= j < |p| ensures p[j] != None {
      assert PairedAt(leftKeys, rightKeys, p, b, j);
    }
    PairAbsent(p, b, None, Some(r));
    PairCountAppend(p, b, Repeat(None, |u|), Wrap(u), None, Some(r));
    WrapPairCount(None, u, None, r);
    UnmatchedSpec(b, rightRows);
    IncreasingCount(u, r);
    if r < |rightKeys| {
      MatchListsMatchKeys(leftKeys, rightKeys);
      BuildSideCoverage(leftKeys, rightKeys, m, |leftKeys|, r);
      assert leftKeys[..|leftKeys|] == leftKeys;
    }
  }

  /** Each of `ls` once per right row: the pair (`i`, `r`) occurs once for each time `i` and `r` occur. */
  lemma {:induction false} CrossPairCount(ls: seq<nat>, rs: seq<nat>, i: nat, r: nat)
    ensures |CrossLeft(ls, |rs|)| == |CrossRight(ls, rs)|
    ensures PairCount(CrossLeft(ls, |rs|), CrossRight(ls, rs), Some(i), Some(r)) == multiset(ls)[i] * multiset(rs)[r]
    decreases |ls|
  {
    CrossLengths(ls, rs);
    if |ls| > 0 {
      var front, last := ls[..|ls| - 1], ls[|ls| - 1];
      CrossPairCount(front, rs, i, r);
      CrossStepPairs(ls, rs, i, r);
      SnocCount(ls, i);
      var mf: multiset<nat>, mr: multiset<nat> := multiset(front), multiset(rs);
      SuccProduct(mf[i], mr[r], last == i);
    }
  }

  /** One more left row adds its pairs with each of `rs`. */
  lemma CrossStepPairs(ls: seq<nat>, rs: seq<nat>, i: nat, r: nat)
    requires |ls| > 0
    ensures |CrossLeft(ls[..|ls| - 1], |rs|)| == |CrossRight(ls[..|ls| - 1], rs)| && |CrossLeft(ls, |rs|)| == |CrossRight(ls, rs)|
    ensures PairCount(CrossLeft(ls, |rs|), CrossRight(ls, rs), Some(i), Some(r)) ==
      PairCount(CrossLeft(ls[..|ls| - 1], |rs|), CrossRight(ls[..|ls| - 1], rs), Some(i), Some(r)) +
      (if ls[|ls| - 1] == i then multiset(rs)[r] else 0)
  {
    var front, last := ls[..|ls| - 1], ls[|ls| - 1];
    CrossLengths(front, rs);
    CrossLengths(ls, rs);
    var block: seq<Option<nat>> := Repeat(Some(last), |rs|);
    assert CrossLeft(ls, |rs|) == CrossLeft(front, |rs|) + block;
    assert CrossRight(ls, rs) == CrossRight(front, rs) + Wrap(rs);
    PairCountAppend(CrossLeft(front, |rs|), CrossRight(front, rs), block, Wrap(rs), Some(i), Some(r));
    WrapPairCount(Some(last), rs, Some(i), r);
  }

  lemma SnocCount(s: seq<nat>, x: nat)
    requires |s| > 0
    ensures multiset(s)[x] == multiset(s[..|s| - 1])[x] + (if s[|s| - 1] == x then 1 else 0)
  {
    assert s == s[..|s| - 1] + [s[|s| - 1]];
  }

  lemma SuccProduct(c: nat, d: nat, b: bool)
    ensures (c + (if b then 1 else 0)) * d == c * d + (if b then d else 0)
    ensures d * (c + (if b then 1 else 0)) == d * c + (if b then d else 0)
  {
  }

  /** Within one group the pair (`i`, `r`) occurs once for each time `i` and `r` occur in it. */
  lemma GroupPairCount(ls: seq<nat>, rs: seq<nat>, i: nat, r: nat)
    ensures |GroupLeft(ls, rs)| == |GroupRight(ls, rs)|
    ensures PairCount(GroupLeft(ls, rs), GroupRight(ls, rs), Some(i), Some(r)) == multiset(ls)[i] * multiset(rs)[r]
  {
    GroupLengths(ls, rs);
    if |rs| > 0 {
      CrossPairCount(ls, rs, i, r);
    } else {
      PairAbsent(GroupLeft(ls, rs), GroupRight(ls, rs), Some(i), Some(r));
      assert multiset(rs)[r] == 0;
    }
  }

  /** The group of `order[g]` pairs left row `i` with right row `r` once when both hold that key, else never. */
  lemma GroupsOfPairs<K>(leftKeys: seq<K>, rightKeys: seq<K>, order: seq<K>, g: nat, i: nat, r: nat)
    requires g < |order|
    ensures var gs := GroupsOf(leftKeys, rightKeys, order);
      |GroupLeft(gs[g].left, gs[g].right)| == |GroupRight(gs[g].left, gs[g].right)| &&
      PairCount(GroupLeft(gs[g].left, gs[g].right), GroupRight(gs[g].left, gs[g].right), Some(i), Some(r)) ==
        if i < |leftKeys| && leftKeys[i] == order[g] && r < |rightKeys| && rightKeys[r] == order[g] then 1 else 0
  {
    var k := order[g];
    GroupPairCount(Positions(leftKeys, k), Positions(rightKeys, k), i, r);
    PositionsSpec(leftKeys, k);
    PositionsSpec(rightKeys, k);
    var a, b := multiset(Positions(leftKeys, k))[i], multiset(Positions(rightKeys, k))[r];
    assert a * b == if a == 1 && b == 1 then 1 else 0;
  }

  /** The zipped blocks of two block lists whose blocks pairwise have equal length. */
  function ZipBlocks(a: seq<seq<Option<nat>>>, b: seq<seq<Option<nat>>>): (z: seq<seq<(Option<nat>, Option<nat>)>>)
    requires |a| == |b| && forall h :: 0 <= h < |a| ==> |a[h]| == |b[h]|
    ensures |z| == |a| && forall h :: 0 <= h < |a| ==> z[h] == Zip(a[h], b[h])
  {
    seq(|a|, h requires 0 <= h < |a| => Zip(a[h], b[h]))
  }

  /** Zipping two concatenations is concatenating the zipped blocks. */
  lemma {:induction false} ZipConcatenated(a: seq<seq<Option<nat>>>, b: seq<seq<Option<nat>>>, g: nat)
    requires g <= |a| == |b| && forall h :: 0 <= h < |a| ==> |a[h]| == |b[h]|
    ensures |Concatenated(a, g)| == |Concatenated(b, g)|
    ensures Zip(Concatenated(a, g), Concatenated(b, g)) == Concatenated(ZipBlocks(a, b), g)
    decreases g
  {
    if g > 0 {
      ZipConcatenated(a, b, g - 1);
      ZipAppend(Concatenated(a, g - 1), Concatenated(b, g - 1), a[g - 1], b[g - 1]);
    }
  }

  /**
   * The left join pairs left row `i` with each right row holding its key
   * exactly once, and with no other right row.
   */
  lemma LeftJoinPairs<K>(leftKeys: seq<K>, rightKeys: seq<K>, i: nat, r: nat)
    requires i < |leftKeys|
    ensures |LeftJoinLeft(leftKeys, rightKeys)| == |LeftJoinRight(leftKeys, rightKeys)|
    ensures PairCount(LeftJoinLeft(leftKeys, rightKeys), LeftJoinRight(leftKeys, rightKeys), Some(i), Some(r)) ==
      if r < |rightKeys| && rightKeys[r] == leftKeys[i] then 1 else 0
  {
    var order := LeftJoinOrder(leftKeys);
    var gs := GroupsOf(leftKeys, rightKeys, order);
    var ls, rs := LeftBlocks(gs), RightBlocks(gs);
    forall h | 0 <= h < |gs| ensures |ls[h]| == |rs[h]| {
      GroupLengths(gs[h].left, gs[h].right);
    }
    ZipConcatenated(ls, rs, |order|);
    var blocks := ZipBlocks(ls, rs);
    var c := if r < |rightKeys| && rightKeys[r] == leftKeys[i] then 1 else 0;
    forall h | 0 <= h < |blocks|
      ensures multiset(blocks[h])[(Some(i), Some(r))] == if order[h] == leftKeys[i] then c else 0
    {
      GroupsOfPairs(leftKeys, rightKeys, order, h, i, r);
    }
    DistinctSpec(leftKeys, |leftKeys|);
    assert leftKeys[..|leftKeys|] == leftKeys;
    assert order[..|order|] == order;
    assert leftKeys[i] in leftKeys;
    ConcatenatedCount(blocks, order, leftKeys[i], (Some(i), Some(r)), c, |order|);
  }

}

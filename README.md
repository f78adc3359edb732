# A verified model of parts of the Opteryx query engine

Opteryx is a SQL query engine written in Python. It exposes a DB-API cursor, plans each query, and runs the plan over Arrow tables. This project models the following parts of it in Dafny and proves properties of them:

- **Outer joins.** The plan node that buffers both sides of a join, then runs a left outer, full outer, right outer, left semi or left anti join. A join is modelled by the row-index lists it builds: two aligned lists of optional row numbers, later used to produce the output table.
- **Top-k sort.** The heap-sort plan node for ORDER BY with LIMIT. It keeps at most `limit` rows across a stream of morsels, which are blocks of rows.
- **Cursor.** Its INITIALIZED / EXECUTED / CLOSED lifecycle, and the checks made on the SQL text before its statements run.
- **Valkey cache.** The remote cache's counters and its circuit breaker.
- **Limit pushdown.** The optimizer rule that moves LIMIT nodes down to the first node they must not pass.
- **Small plan nodes.** The projection, SHOW value and SET variable nodes.
- **HadroDB connector.** How it rewrites collection names.

Each source file that changes state step by step is modelled with classes, `modifies` clauses and loops. Each such method is proved against functions in the same module or in `JoinSpec`, and the properties are proved as lemmas about those functions.

Files:

| file | what it holds |
|---|---|
| `common.dfy` | `Option`, `Result`, `Take`, `Flatten` |
| `join_spec.dfy` | reference definitions for every join, and their properties |
| `outer_join.dfy` | the join loops and the `OuterJoinNode` class |
| `heap_sort.dfy` | the single-key sort and the `HeapSortNode` class |
| `multi_sort.dfy` | the multi-column branch of the heap-sort node |
| `cursor.dfy` | the cursor |
| `valkey.dfy` | the Valkey cache |
| `limit_pushdown.dfy` | the limit-pushdown rule |
| `projection.dfy` | the projection node |
| `show_value.dfy` | the SHOW value node |
| `set_variable.dfy` | the SET variable node |
| `hadro.dfy` | the HadroDB connector |

Several things are parameters rather than computations:

- The Valkey server's replies.
- The query planner. It is an oracle that gives the result of each plan.
- The clock's reading when each statement starts.
- Whether a server call raises.

## Model

| member | source | states |
|---|---|---|
| OuterJoin.IndexOf | opteryx/operatorsv2/outer_join_node.py:99 | finds the first column of that name; None exactly when the name is absent |
| OuterJoin.ColumnIndexes | opteryx/operatorsv2/outer_join_node.py:99 | resolves every wanted column, or fails naming a column that is missing |
| OuterJoin.Select | opteryx/operatorsv2/outer_join_node.py:99-100 | `select(columns)` then zipping the columns gives one key tuple per row, built from the named columns; a missing column is an error |
| OuterJoin.Append | opteryx/operatorsv2/outer_join_node.py:291 | the rows of two tables with the same columns, one after the other |
| OuterJoin.Concat | opteryx/operatorsv2/outer_join_node.py:291 | `concat_tables` with no schema promotion: an empty list or mismatched columns is an error; otherwise the row count is the sum |
| OuterJoin.BuildHashTable | opteryx/operatorsv2/outer_join_node.py:98-101 | the loop that fills the hash table maps each key to exactly the row positions holding that key, in increasing order |
| OuterJoin.HashJoinMap | opteryx/operatorsv2/outer_join_node.py:65-66 | groups rows by key, with the keys in first-occurrence order, and gives each group's row positions |
| OuterJoin.ProbeRow | opteryx/operatorsv2/outer_join_node.py:108-114 | one probe: the matches, or a single None, paired with the probing row repeated once per match |
| OuterJoin.Probe | opteryx/operatorsv2/outer_join_node.py:106-114 | the probe loop equals the reference probe of every row against the build side |
| OuterJoin.FullJoinIndexes | opteryx/operatorsv2/outer_join_node.py:95-119 | the full join's two index lists equal the reference full join: the key probe, then every one of the right relation's `num_rows` rows still unmatched |
| OuterJoin.AppendUnmatched | opteryx/operatorsv2/outer_join_node.py:116-119 | appends every right row absent from the probed list, in order, each paired with None |
| OuterJoin.UnmatchedStep | opteryx/operatorsv2/outer_join_node.py:116-119 | one step of that loop appends row `i` exactly when it was not yet present |
| OuterJoin.Chunked | opteryx/operatorsv2/outer_join_node.py:121-126 | slicing into chunks of `chunk_size` keeps the lists' contents and order; every chunk but the last is full |
| OuterJoin.RightJoinChunks | opteryx/operatorsv2/outer_join_node.py:146-172 | one chunk per 1000-row batch of the right relation's `num_rows` rows, each equal to the reference probe of that batch's keys |
| OuterJoin.ProbeChunk | opteryx/operatorsv2/outer_join_node.py:156-172 | probing one right batch against the left hash table gives the reference chunk |
| OuterJoin.RightChunkCount | opteryx/operatorsv2/outer_join_node.py:160-167 | each right row of a batch appears once per left match, or once if there is none |
| OuterJoin.RightChunkPaired | opteryx/operatorsv2/outer_join_node.py:160-172 | every output pair has equal keys, or a None left index for a right row with no match |
| OuterJoin.RightChunkPairs | opteryx/operatorsv2/outer_join_node.py:160-172 | a batch pairs its right row `i` with each left row holding the same key exactly once, and with no other left row |
| OuterJoin.RightSlice | opteryx/operatorsv2/outer_join_node.py:155-160 | the keys of a `to_batches(chunk_size)` batch: at most `chunk_size` keys, those of the rows from the batch offset; none when no key column was selected, and at least one when the batch starts at a keyed row |
| OuterJoin.ChunkCount | opteryx/operatorsv2/outer_join_node.py:155 | batch `c` exists exactly when `c` is below the batch count |
| OuterJoin.AppendMatches | opteryx/operatorsv2/outer_join_node.py:71-74 | the inner loop pairs one left row with every right row of its group |
| OuterJoin.AppendGroup | opteryx/operatorsv2/outer_join_node.py:69-78 | one key group: every left×right pair if the right group is non-empty, else each left row paired with None |
| OuterJoin.CollectGroup | opteryx/operatorsv2/outer_join_node.py:69-78 | appending one group extends what has been emitted and buffered by exactly that group's pairs |
| OuterJoin.CollectGroups | opteryx/operatorsv2/outer_join_node.py:68-86 | the loop over the left groups emits and buffers exactly the pairs of every group, in order; each emitted chunk exceeds the flush size |
| OuterJoin.CollectStep | opteryx/operatorsv2/outer_join_node.py:68-87 | one iteration of that loop preserves the invariant |
| OuterJoin.EmitAbove | opteryx/operatorsv2/outer_join_node.py:80-86 | above 50 000 buffered pairs a chunk is emitted and the buffers cleared; nothing is lost or reordered |
| OuterJoin.LastChunk | opteryx/operatorsv2/outer_join_node.py:88-92 | the remaining pairs form a last, non-empty chunk, or none at all |
| OuterJoin.GroupFromTables | opteryx/operatorsv2/outer_join_node.py:65-69 | the group of hash entry `g` is the reference group of key `g` |
| OuterJoin.LeftJoinChunks | opteryx/operatorsv2/outer_join_node.py:38-92 | the left join's flattened chunks equal the reference left join, and every chunk but the last exceeds the flush size |
| OuterJoin.SemiJoinRows | opteryx/operatorsv2/outer_join_node.py:231-248 | the semi join keeps exactly the reference semi-join rows |
| OuterJoin.AntiJoinRows | opteryx/operatorsv2/outer_join_node.py:193-209 | the anti join keeps exactly the reference anti-join rows |
| OuterJoin.Provider | opteryx/operatorsv2/outer_join_node.py:318-324 | the five join-type names and no other map to their joins |
| OuterJoin.OrientColumns | opteryx/operatorsv2/outer_join_node.py:62-63 | the join columns are swapped exactly when a left join column names a column of the right relation |
| OuterJoin.SelectPair | opteryx/operatorsv2/outer_join_node.py:99-106 | of two selections made in order, the first one's error wins, then the second's; otherwise both key lists |
| OuterJoin.SelectLeft | opteryx/operatorsv2/outer_join_node.py:106 | selecting from a missing left relation fails with `NoLeftRelation`; otherwise it is the selection from the left relation |
| OuterJoin.JoinKeys | opteryx/operatorsv2/outer_join_node.py:62-237 | with a left relation, choosing the key lists fails only for a missing column; without one every join fails: the right join at once with `NoLeftRelation`, the other joins first with the right relation's missing-column error, if any, and otherwise with `NoLeftRelation` |
| OuterJoin.Batches | opteryx/operatorsv2/outer_join_node.py:304-311 | one output batch per chunk, in order |
| OuterJoin.JoinOn | opteryx/operatorsv2/outer_join_node.py:302-311 | the chosen join yields the reference outputs for its type, the full and right joins counting the right relation's rows |
| OuterJoin.Join | opteryx/operatorsv2/outer_join_node.py:302-311 | with its column checks, the join yields the reference outcome |
| OuterJoin.Emit | opteryx/operatorsv2/outer_join_node.py:304-311 | `list(join) + [EOS]`: the join's outputs followed by one end-of-stream marker, or the join's error |
| OuterJoin.OuterJoinNode.constructor | opteryx/operatorsv2/outer_join_node.py:252-267 | a new node reads the left stream and has empty buffers |
| OuterJoin.OuterJoinNode.Execute | opteryx/operatorsv2/outer_join_node.py:287-315 | left morsels are buffered until EOS, which switches to the right stream and then builds the left relation; right morsels are buffered until EOS, which runs the join, with or without a left relation |
| JoinSpec.PositionsSpec | opteryx/operatorsv2/outer_join_node.py:98-101 | a key's positions are exactly the rows holding it, each once, in increasing order; none exactly when the key is absent |
| JoinSpec.MatchListsMatchKeys | opteryx/operatorsv2/outer_join_node.py:106-108 | each probe row's match list holds exactly the build rows with its key |
| JoinSpec.ProbeIsAligned | opteryx/operatorsv2/outer_join_node.py:106-114 | the probe's two lists have equal length, and every pair has equal keys or a None for an unmatched probe row |
| JoinSpec.ProbeMatchedAt | opteryx/operatorsv2/outer_join_node.py:106-114 | each output position comes from one probe row and one of its matches |
| JoinSpec.ProbeSideCount | opteryx/operatorsv2/outer_join_node.py:106-114 | probe row `i` appears max(1, number of its matches) times |
| JoinSpec.BuildSideCoverage | opteryx/operatorsv2/outer_join_node.py:106-114 | a build row is on the output exactly when some probe row has its key |
| JoinSpec.FullJoinLeftCount | opteryx/operatorsv2/outer_join_node.py:106-114 | in the full join, left row `i` appears max(1, number of its matches) times |
| JoinSpec.FullJoinPaired | opteryx/operatorsv2/outer_join_node.py:106-114 | every pair from the probe part of the full join has equal keys or a None |
| JoinSpec.UnmatchedSpec | opteryx/operatorsv2/outer_join_node.py:116-119 | the appended rows are exactly the right rows not yet matched, in increasing order |
| JoinSpec.FullJoinCoversRight | opteryx/operatorsv2/outer_join_node.py:116-119 | every one of the right relation's `num_rows` rows appears in the full join, whether or not it has a key |
| JoinSpec.FullJoinTail | opteryx/operatorsv2/outer_join_node.py:116-119 | after the probe part, each pair is None beside a right row below `num_rows` that no left row matched, and whose key, when it has one, no left row has |
| JoinSpec.FullJoinLengths | opteryx/operatorsv2/outer_join_node.py:106-119 | the full join's two lists have equal length |
| JoinSpec.SemiSpec | opteryx/operatorsv2/outer_join_node.py:236-242 | the semi join keeps exactly the left rows whose key occurs on the right, in order |
| JoinSpec.AntiSpec | opteryx/operatorsv2/outer_join_node.py:198-203 | the anti join keeps exactly the left rows whose key does not occur on the right, in order |
| JoinSpec.SemiAntiPartition | opteryx/operatorsv2/outer_join_node.py:198-242 | the semi join and the anti join split the left rows between them |
| JoinSpec.DistinctSpec | opteryx/operatorsv2/outer_join_node.py:68 | the left join visits each distinct key once, and every key of the left side |
| JoinSpec.GroupMatched | opteryx/operatorsv2/outer_join_node.py:70-78 | in one group, each pair is a left row of the group with a right row of the group, or with None only when the right group is empty |
| JoinSpec.CrossPaired | opteryx/operatorsv2/outer_join_node.py:71-74 | the nested loop yields \|left\|×\|right\| pairs, each drawn from the two groups |
| JoinSpec.CrossLeftCount | opteryx/operatorsv2/outer_join_node.py:71-74 | each left row of a group appears once per right row |
| JoinSpec.GroupCount | opteryx/operatorsv2/outer_join_node.py:68-78 | a key's group holds left row `i` max(1, number of its matches) times if `i` has that key, else not at all |
| JoinSpec.GroupsOfCount | opteryx/operatorsv2/outer_join_node.py:68-78 | likewise for group `g` of the left join |
| JoinSpec.SideInGroup | opteryx/operatorsv2/outer_join_node.py:68-78 | the two lists built from the first `g` groups have equal length, and each of their positions lies inside one of those groups |
| JoinSpec.InGroupIsPaired | opteryx/operatorsv2/outer_join_node.py:68-78 | a position inside a group pairs equal keys, or a left row with None |
| JoinSpec.LeftJoinSpec | opteryx/operatorsv2/outer_join_node.py:38-92 | the left join's lists are aligned and paired, and left row `i` appears max(1, number of its matches) times |
| JoinSpec.LeftJoinCount | opteryx/operatorsv2/outer_join_node.py:38-92 | left row `i` appears max(1, number of its matches) times in the left join |
| JoinSpec.ProbePairs | opteryx/operatorsv2/outer_join_node.py:106-114 | the probe pairs probe row `i` with each build row holding its key exactly once, and with no other build row |
| JoinSpec.FullJoinPairs | opteryx/operatorsv2/outer_join_node.py:106-119 | the full join pairs left row `i` with each right row holding its key exactly once, and with no other right row |
| JoinSpec.FullJoinUnmatchedOnce | opteryx/operatorsv2/outer_join_node.py:106-119 | the full join pairs None with right row `r` exactly once when `r` is below `num_rows` and no left row matched it, and never otherwise; a right row with a key is matched exactly when a left row holds that key |
| JoinSpec.CrossPairCount | opteryx/operatorsv2/outer_join_node.py:71-74 | the nested loop pairs left row `i` with right row `r` once for each time `i` occurs among the left rows and `r` among the right rows |
| JoinSpec.GroupsOfPairs | opteryx/operatorsv2/outer_join_node.py:68-78 | a key's group pairs left row `i` with right row `r` once when both hold that key, and never otherwise |
| JoinSpec.LeftJoinPairs | opteryx/operatorsv2/outer_join_node.py:38-92 | the left join pairs left row `i` with each right row holding its key exactly once, and with no other right row |
| HeapSort.DirectionOf | opteryx/operators/heap_sort_node.py:95-98 | only "ascending" sorts upwards; any other direction string sorts downwards |
| HeapSort.InsertKeepsSorted | opteryx/operators/heap_sort_node.py:96-98 | insertion adds exactly one row and keeps the order |
| HeapSort.SortByIsSortingPermutation | opteryx/operators/heap_sort_node.py:96-98 | the reference sort is sorted and a permutation of its input |
| HeapSort.SortedIsUnique | opteryx/operators/heap_sort_node.py:96-98 | any two sorting permutations of the same keys agree, so the library sort is pinned down by "a sorting permutation" |
| HeapSort.ReverseAscendingIsDescending | opteryx/operators/heap_sort_node.py:95-98 | reversing the ascending order (`[::-1]`) gives the descending order |
| HeapSort.Retain | opteryx/operators/heap_sort_node.py:99 | the retained rows number at most `limit` and at most the input's size |
| HeapSort.RetainIsTopK | opteryx/operators/heap_sort_node.py:92-99 | the retained rows are sorted, a sub-multiset of the input, min(limit, size) in number, and no dropped row sorts before a retained one |
| HeapSort.RetainIncrementally | opteryx/operators/heap_sort_node.py:78-99 | retaining from the rows kept so far plus a new morsel equals retaining from all rows seen |
| HeapSort.StreamEqualsSortThenLimit | opteryx/operators/heap_sort_node.py:68-99 | feeding morsels one by one equals sorting all of them and truncating once |
| HeapSort.StreamFromFreshNode | opteryx/operators/heap_sort_node.py:68-99 | from a fresh node, the rows kept are the top `limit` rows of the whole stream |
| HeapSort.MapOrder | opteryx/operators/heap_sort_node.py:41-52 | the (identity, direction) pairs in ORDER BY order, or an error at the first column that did not resolve |
| HeapSort.HeapSortNode.constructor | opteryx/operators/heap_sort_node.py:33-39 | a new node over an already mapped ORDER BY has no table retained |
| HeapSort.NewHeapSortNode | opteryx/operators/heap_sort_node.py:33-52 | `__init__` as a whole: a fresh node over `MapOrder`'s pairs, with no table, exactly when every ORDER BY column resolved; otherwise the error at the first unresolved column, and no node |
| HeapSort.HeapSortNode.Execute | opteryx/operators/heap_sort_node.py:68-99 | EOS yields the table then EOS; an empty morsel yields None and changes nothing; any other morsel replaces the table by the top `limit` rows of table plus morsel |
| MultiColumnSort.RowCompareLevel | opteryx/operators/heap_sort_node.py:115-128 | two rows compare level exactly when every key is level |
| MultiColumnSort.RowCompareFirst | opteryx/operators/heap_sort_node.py:115-128 | a row sorts first exactly when the first key on which the rows differ puts it first |
| MultiColumnSort.RowBeforeTotal | opteryx/operators/heap_sort_node.py:115-128 | any two rows can be ordered |
| MultiColumnSort.RowBeforeTransitive | opteryx/operators/heap_sort_node.py:115-128 | the row order is transitive |
| MultiColumnSort.SortRows | opteryx/operators/heap_sort_node.py:115-128 | the stable sort of the rows holds each row exactly once and is sorted on the keys |
| MultiColumnSort.LexsortIntended | opteryx/operators/heap_sort_node.py:115-128 | the corrected branch orders rows on the first key first, each key in its own direction, with ties in input order |
| MultiColumnSort.Lexsort | opteryx/operators/heap_sort_node.py:124-126 | `numpy.lexsort` holds each row once and is sorted on its columns taken last to first, all ascending |
| MultiColumnSort.LexsortAsWritten | opteryx/operators/heap_sort_node.py:115-128 | the branch as written, passing each key column to `lexsort` in ORDER BY order and reversed for a descending key; holds each row once |
| MultiColumnSort.LexsortFirstKeyIgnored | opteryx/operators/heap_sort_node.py:124-126 | a counterexample: the first ORDER BY key does not decide first |
| MultiColumnSort.LexsortDescendingMisaligned | opteryx/operators/heap_sort_node.py:125 | a counterexample: a descending key comes out in neither order |
| Cursor.Guarded | opteryx/cursor.py:68-101 | the wrapped call fails in the wrong state; otherwise the state moves to the target only if the body returns |
| Cursor.NoExecuteAfterExecuted | opteryx/cursor.py:221-242 | from EXECUTED or CLOSED no execute completes, and a closed cursor stays closed |
| Cursor.ExecutesAtMostOnce | opteryx/cursor.py:221-242 | over any sequence of calls a cursor completes at most one execute, and it has left INITIALIZED exactly when it did |
| Cursor.MarkLastSucceeded | opteryx/cursor.py:181-186 | only the last history entry changes, and only its success flag, which becomes true |
| Cursor.InnerExecuteAsWritten | opteryx/cursor.py:157-187 | `_inner_execute` as written: an empty statement is rejected before logging; any other adds one entry, already marked successful before the statement runs |
| Cursor.FailureLoggedAsSuccess | opteryx/cursor.py:160-170 | a counterexample: a statement with no executable part fails, yet is logged as successful |
| Cursor.AsWrittenLogsSuccess | opteryx/cursor.py:157-187 | as written, every non-empty statement is logged as successful, whatever its outcome |
| Cursor.InnerExecute | opteryx/cursor.py:157-187 | `_inner_execute` as intended: an empty statement is rejected before logging; any other adds one entry for it, successful exactly when results are returned; no plan is a missing executable part, otherwise the result is the last plan's |
| Cursor.RunFrom | opteryx/cursor.py:212-219 | the statement loop only appends to the history, at most one entry per statement; when it succeeds every statement was logged in order at its own time (the `utcnow()` of line 160), each but the last as successful |
| Cursor.ExecuteStatements | opteryx/cursor.py:189-219 | no statements, or several statements with parameters, are rejected before anything runs; when the statements succeed each was logged once, in order, at its own time |
| Cursor.SingleStatement | opteryx/cursor.py:212-219 | one statement's result is `_inner_execute`'s |
| Cursor.History.constructor | opteryx/cursor.py:124 | the connection context's history holds the given entries |
| Cursor.Cursor.constructor | opteryx/cursor.py:115-131 | a new cursor is INITIALIZED with no rows, and holds a reference to its connection's history, not a copy |
| Cursor.Cursor.Id | opteryx/cursor.py:133-140 | the id is the query id fixed at construction |
| Cursor.Cursor.RunStatements | opteryx/cursor.py:189-219 | the loop's result and the shared history's new entries are those of the statement semantics |
| Cursor.Cursor.Execute | opteryx/cursor.py:221-238 | outside INITIALIZED the call fails and changes nothing; otherwise the statements run, and only success moves the cursor to EXECUTED and stores the rows |
| Cursor.Cursor.ExecuteToArrow | opteryx/cursor.py:240-263 | as `execute`; no result set is an error, and a limit keeps the first `limit` records |
| Cursor.Cursor.Close | opteryx/cursor.py:287-293 | only an EXECUTED cursor closes; any other call fails and changes nothing |
| Cursor.SharedHistoryClient | opteryx/cursor.py:160 | two cursors over one connection history: a statement executed through the first is seen, with its success flag, through the second |
| ValkeyCache.InitialCounters | opteryx/managers/cache/valkey.py:49-61 | all counters start at zero; without a server the cache starts disabled |
| ValkeyCache.GetStep | opteryx/managers/cache/valkey.py:63-85 | a disabled cache skips; otherwise a non-empty reply is a hit, an empty or missing one a miss, and a raise an error; a reply resets the failure count and a raise increments it |
| ValkeyCache.SetStep | opteryx/managers/cache/valkey.py:87-102 | a disabled cache skips; a successful set counts a set; a failing set counts an error and disables the cache |
| ValkeyCache.StepCountsOneEvent | opteryx/managers/cache/valkey.py:63-102 | every call increments exactly one of the five counters |
| ValkeyCache.DisabledIsPermanent | opteryx/managers/cache/valkey.py:64-66 | a disabled cache stays disabled and does not consult the server |
| ValkeyCache.RunCountsCalls | opteryx/managers/cache/valkey.py:63-102 | over any run the counted events equal the calls made, and a disabled cache only skips |
| ValkeyCache.RepeatedGetFailuresDisable | opteryx/managers/cache/valkey.py:73-82 | enough consecutive failed gets disable the cache |
| ValkeyCache.Cache.constructor | opteryx/managers/cache/valkey.py:42-61 | the object's counters are the initial counters |
| ValkeyCache.Cache.Get | opteryx/managers/cache/valkey.py:63-85 | the object's `get` updates its counters and returns the value as one `get` does |
| ValkeyCache.Cache.Set | opteryx/managers/cache/valkey.py:87-102 | the object's `set` updates its counters as one `set` does |
| LimitPushdown.MoveEdits | opteryx/planner/cost_based_optimizer/strategies/limit_pushdown.py:50-55 | each limit in order is removed with healing and reinserted after the barrier node |
| LimitPushdown.Account | opteryx/planner/cost_based_optimizer/strategies/limit_pushdown.py:35-57 | a limit is collected; a barrier pushes every collected limit; any other node changes nothing |
| LimitPushdown.LimitsAreConserved | opteryx/planner/cost_based_optimizer/strategies/limit_pushdown.py:31-59 | over any walk, waiting plus pushed limits equal those visited, and the pushed count never falls |
| LimitPushdown.BarrierFlushes | opteryx/planner/cost_based_optimizer/strategies/limit_pushdown.py:40-57 | a walk ending at a barrier leaves no limit waiting |
| LimitPushdown.LimitPushdownStrategy.Visit | opteryx/planner/cost_based_optimizer/strategies/limit_pushdown.py:31-59 | afterwards the optimized plan exists; a limit is stamped with the node id and collected, and the limits collected before it keep their node ids and columns; a barrier moves, counts and clears every collected limit; other nodes change nothing, the collected limits' node ids and columns included |
| LimitPushdown.TwoLimitsKeepTheirIds | opteryx/planner/cost_based_optimizer/strategies/limit_pushdown.py:35-38 | after visiting two limits under node ids "A" and "B", each still holds the id it was stamped with |
| LimitPushdown.LimitPushdownStrategy.MoveLimit | opteryx/planner/cost_based_optimizer/strategies/limit_pushdown.py:50-56 | one limit moved: one more counted, its two edits appended, its columns cleared |
| LimitPushdown.LimitPushdownStrategy.FlushLimits | opteryx/planner/cost_based_optimizer/strategies/limit_pushdown.py:50-57 | every collected limit is counted, moved in order and has its columns cleared |
| LimitPushdown.MoveEditsStep | opteryx/planner/cost_based_optimizer/strategies/limit_pushdown.py:50-55 | moving the next limit extends the edits of those already moved |
| LimitPushdown.LimitPushdownStrategy.Complete | opteryx/planner/cost_based_optimizer/strategies/limit_pushdown.py:61-63 | the plan is returned unchanged |
| Projection.Identities | opteryx/operatorsv2/projection_node.py:41-43 | one identity per projected column, in order |
| Projection.Evaluations | opteryx/operatorsv2/projection_node.py:45-47 | exactly the non-identifier columns, a sub-multiset of the projection |
| Projection.EvaluationsOfConcat | opteryx/operatorsv2/projection_node.py:45-47 | the filter keeps the projection's order |
| Projection.AppendEvaluated | opteryx/operatorsv2/projection_node.py:70 | the morsel keeps its columns and gains each evaluated column's identity, and nothing else |
| Projection.Select | opteryx/operatorsv2/projection_node.py:71 | the named columns in the order named, or an error naming a missing one |
| Projection.ProjectionNode.constructor | opteryx/operatorsv2/projection_node.py:33-49 | the projection is the identities of the projected columns followed by the ORDER BY columns, and the evaluations are their non-identifiers |
| Projection.ProjectionNode.Execute | opteryx/operatorsv2/projection_node.py:65-71 | EOS passes through; otherwise the output has exactly the projection's columns, and succeeds exactly when each is present after evaluation |
| Projection.ProjectionSucceeds | opteryx/operatorsv2/projection_node.py:39-71 | when the input has every identifier column, every projected column is present |
| ShowValue.Resolve | opteryx/operatorsv2/show_value_node.py:34-42 | other kinds keep key and value; a parameter starting with '@' is an SQL error, an empty one an index error, an unknown one a key error; otherwise the key is the name and the value the variable's |
| ShowValue.ShowValueNode.constructor | opteryx/operatorsv2/show_value_node.py:34-36 | key, kind and value as given |
| ShowValue.ShowValueNode.ResolveParameter | opteryx/operatorsv2/show_value_node.py:38-42 | the node's key and value after resolution, or the resolution's error |
| ShowValue.ShowValueNode.Execute | opteryx/operatorsv2/show_value_node.py:56-59 | exactly one table with exactly one row, holding the key and the value's text |
| SetVariable.Assign | opteryx/operators/set_variable_node.py:42 | the variable holds the value, every other binding is kept, and only that key can be added |
| SetVariable.Variables.constructor | opteryx/operators/set_variable_node.py:31 | the shared map as given |
| SetVariable.SetVariableNode.constructor | opteryx/operators/set_variable_node.py:25-31 | the node keeps a reference to the shared map |
| SetVariable.SetVariableNode.Execute | opteryx/operators/set_variable_node.py:41-43 | the shared map is updated in place by the assignment, and a single None is yielded |
| SetVariable.SharedMapClient | opteryx/operators/set_variable_node.py:31-43 | nodes built over one shared map see each other's writes: the first and the last node read the same map, holding the later value of a variable set twice |
| HadroConnector.ReplaceDots | opteryx/connectors/hadro_connector.py:43 | every '.' becomes '/', and every other character stays in place |
| HadroConnector.QueriedCollection | opteryx/connectors/hadro_connector.py:39-43 | no dots remain; the prefix and its dot are dropped exactly when removal is on and the name starts with them |
| HadroConnector.WithoutRemovePrefix | opteryx/connectors/hadro_connector.py:39-43 | without prefix removal the prefix plays no part |
| HadroConnector.StrippedPrefixAlignment | opteryx/connectors/hadro_connector.py:40-43 | with the prefix stripped, character `i` comes from character `i + len(prefix) + 1` |
| HadroConnector.GetDocumentCount | opteryx/connectors/hadro_connector.py:25-31 | the count is always -1 |

## Findings

| source | as written | input that shows it | evidently intended | confidence | as-written member | corrected member |
|---|---|---|---|---|---|---|
| opteryx/cursor.py:160 | the history entry is appended with its success flag already true, so the update at lines 181-186 changes nothing | a non-empty statement with no executable part: `MissingSqlStatement` is raised, yet the history holds `(statement, True, time)` | log the entry as not successful, and mark it successful only when results are returned | medium; not executed | Cursor.InnerExecuteAsWritten, Cursor.FailureLoggedAsSuccess, Cursor.AsWrittenLogsSuccess | Cursor.InnerExecute |
| opteryx/operators/heap_sort_node.py:124-126 | the key columns go to `numpy.lexsort` in ORDER BY order, but `lexsort` lets its last key decide first | ORDER BY a, b (numeric) with a = [1, 0], b = [0, 1]: the rows come out as [0, 1], so a is not ascending | the first ORDER BY column decides first | high; not executed | MultiColumnSort.LexsortAsWritten, MultiColumnSort.LexsortFirstKeyIgnored | MultiColumnSort.SortRows, MultiColumnSort.LexsortIntended |
| opteryx/operators/heap_sort_node.py:125 | `col[::-1]` reverses the column's rows instead of their order, so row `i` is sorted by the value of row `n - 1 - i` | ORDER BY b, a DESC with b = [0, 0, 0], a = [2, 1, 3]: the rows come out as [1, 2, 0], so a reads 1, 3, 2 | a descending key sorts from high to low: rows [2, 0, 1] | high; not executed | MultiColumnSort.LexsortAsWritten, MultiColumnSort.LexsortDescendingMisaligned | MultiColumnSort.SortRows, MultiColumnSort.LexsortIntended |

The statement loop and the cursor methods use the corrected `Cursor.InnerExecute` (see "## Left out"). The heap-sort node is modelled for a single ORDER BY key, so the corrected multi-column sort is not wired into it.

## Left out

- HeapSort.HeapSortNode.Execute: the node is modelled for a single ORDER BY key (`requires |mappedOrder| == 1`); the pyarrow `sort_by` path for several string keys (heap_sort_node.py:102) is not modelled, and the numpy `lexsort` path is modelled separately in `MultiColumnSort`.
- HeapSort: a row is modelled by the value of its single sort key. Sort stability, nulls and the difference between string and numeric keys are not modelled, because that key order is total.
- HeapSort.HeapSortNode: `limit` is a natural number; the default `-1` is a slicing artefact (it drops the last row) and is not modelled.
- MultiColumnSort: key columns hold integers, and a branch with no keys at all (`numpy.lexsort` of an empty list) is not modelled.
- OuterJoin: `align_tables` is not part of this model. Every join yields index lists, and the output columns and their order are not modelled.
- OuterJoin.HashJoinMap: `hash_join_map` is compiled code outside this model. It is modelled as grouping every row by key, with the groups in first-occurrence order of the keys; with no key columns there are no keys, so it is modelled as having no groups.
- OuterJoin: Python's `hash` of a key tuple is modelled by key equality, so hash collisions are not modelled; null key values equal each other, as their hashes do.
- OuterJoin.Concat: only column names are compared, not column types.
- OuterJoin.IndexOf, OuterJoin.Select: where a name occurs twice, the first column of that name is used; pyarrow's `select` raises on such an ambiguous name instead.
- OuterJoin.RightSlice: `to_batches` is modelled as exact slices of 1000 rows; pyarrow may cut batches at chunk boundaries too.
- OuterJoin.OuterJoinNode.Execute: a join run without a left relation fails with `NoLeftRelation` where the source fails on using `None` as a table; which Python exception that is is not modelled.
- LimitPushdown: the plan's `remove_node`/`insert_node_after` graph surgery is not modelled; the optimized plan records the edits requested of it, in order. `if not context.optimized_plan` is modelled as the plan being absent.
- ValkeyCache: the network client, the environment lookup of the server, the printed messages with their timestamps and the `bytes()` conversion are not modelled; the server is modelled by its reply to each call.
- Cursor.Cursor.RunStatements, Cursor.Cursor.Execute, Cursor.Cursor.ExecuteToArrow: these run the corrected `_inner_execute`, so their history describes the intended logging; as written (cursor.py:160) every non-empty statement is logged as successful. The results and cursor states are the same either way (`Cursor.AsWrittenLogsSuccess`).
- Cursor: SQL comment removal, cleaning and splitting, query planning and plan execution, `operation.decode`, `converters.from_arrow`, `connection.close` and the rolling log are not modelled; the split statements are inputs, the planner is an oracle, and the clock's reading for each statement is a parameter (`times`, one per statement).
- Projection.AppendEvaluated: `evaluate_and_append` is modelled only by the column names it adds; evaluation itself is outside this model.
- ShowValue: values are modelled as their text, so `str(value)` is the identity.
- HadroConnector: reading documents from HadroDB and `chunk_dictset` are I/O and are not modelled.
- JoinSpec.SemiSpec, JoinSpec.AntiSpec: the reference semi and anti joins are stated through membership of the key on the other side.

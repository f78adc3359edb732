/**
 * The limit-pushdown optimisation rule's visitor: LIMIT nodes met while
 * walking the plan are collected, and at the first node a limit must not
 * pass (a join, scan, aggregate, subquery, union or filter) each collected
 * limit is moved to just after that node and counted.
 *
 * The plan's graph surgery (`remove_node`, `insert_node_after`) is not
 * modelled: the optimized plan records the edits requested of it, in order.
 */
module LimitPushdown {
  import opened Common

  datatype StepType =
    | Limit | Join | Scan | AggregateAndGroup | Aggregate | Subquery | Union | Filter
    | OtherStep(name: string)

  /** The node types a limit is not pushed past. */
  predicate IsBarrier(t: StepType)
  {
    t in {Join, Scan, AggregateAndGroup, Aggregate, Subquery, Union, Filter}
  }

  datatype Edit = RemoveNode(nid: string, heal: bool) | InsertNodeAfter(nid: string, after: string)

  /** A logical plan: the tree it was copied from and the edits requested of it since. */
  datatype Plan = Plan(tree: nat, edits: seq<Edit>)

  /** The edits requested to move the limits `nids`, in order, to just after node `after`. */
  function MoveEdits(nids: seq<string>, after: string): (r: seq<Edit>)
    ensures |r| == 2 * |nids|
    ensures forall k :: 0 <= k < |nids| ==>
      r[2 * k] == RemoveNode(nids[k], true) && r[2 * k + 1] == InsertNodeAfter(nids[k], after)
  {
    if nids == [] then []
    else [RemoveNode(nids[0], true), InsertNodeAfter(nids[0], after)] + MoveEdits(nids[1..], after)
  }

  // ---------------------------------------------------------------------
  // The bookkeeping alone: limits waiting and limits pushed

  /** One visit's effect on (limits collected and waiting, limits pushed so far). */
  function Account(pending: nat, pushed: nat, t: StepType): (r: (nat, nat))
    ensures t == Limit ==> r == (pending + 1, pushed)
    ensures IsBarrier(t) ==> r == (0, pushed + pending)
    ensures t != Limit && !IsBarrier(t) ==> r == (pending, pushed)
  {
    if t == Limit then (pending + 1, pushed)
    else if IsBarrier(t) then (0, pushed + pending)
    else (pending, pushed)
  }

  function AccountAll(pending: nat, pushed: nat, types: seq<StepType>): (nat, nat)
    decreases |types|
  {
    if types == [] then (pending, pushed)
    else
      var (p, q) := Account(pending, pushed, types[0]);
      AccountAll(p, q, types[1..])
  }

  function CountLimits(types: seq<StepType>): nat
  {
    if types == [] then 0 else (if types[0] == Limit then 1 else 0) + CountLimits(types[1..])
  }

  /**
   * No limit is lost or counted twice: over any walk, the limits still
   * waiting plus the limits pushed equal the limits visited, and the pushed
   * count never decreases.
   */
  lemma {:induction false} LimitsAreConserved(pending: nat, pushed: nat, types: seq<StepType>)
    ensures var (p, q) := AccountAll(pending, pushed, types);
      p + q == pending + pushed + CountLimits(types) && q >= pushed
    decreases |types|
  {
    if types != [] {
      var (p, q) := Account(pending, pushed, types[0]);
      LimitsAreConserved(p, q, types[1..]);
    }
  }

  /** A walk that ends at a barrier leaves nothing waiting. */
  lemma {:induction false} BarrierFlushes(pending: nat, pushed: nat, types: seq<StepType>)
    requires |types| > 0 && IsBarrier(types[|types| - 1])
    ensures AccountAll(pending, pushed, types).0 == 0
    decreases |types|
  {
    if |types| > 1 {
      var (p, q) := Account(pending, pushed, types[0]);
      assert types[1..][|types[1..]| - 1] == types[|types| - 1];
      BarrierFlushes(p, q, types[1..]);
    }
  }

  // ---------------------------------------------------------------------
  // The visitor over plan node objects

  class PlanNode {
    const nodeType: StepType
    var nid: string
    var columns: seq<string>

    constructor (nodeType: StepType, nid: string, columns: seq<string>)
      ensures this.nodeType == nodeType && this.nid == nid && this.columns == columns
    {
      this.nodeType := nodeType;
      this.nid := nid;
      this.columns := columns;
    }
  }

  function Nids(nodes: seq<PlanNode>): (r: seq<string>)
    reads set n | n in nodes
    ensures |r| == |nodes| && forall k :: 0 <= k < |nodes| ==> r[k] == nodes[k].nid
  {
    seq(|nodes|, k reads set n | n in nodes requires 0 <= k < |nodes| => nodes[k].nid)
  }

  class Statistics {
    var optimizationLimitPushdown: nat

    constructor ()
      ensures optimizationLimitPushdown == 0
    {
      optimizationLimitPushdown := 0;
    }
  }

  class OptimizerContext {
    const preOptimizedTree: Plan
    var optimizedPlan: Option<Plan>
    var nodeId: string
    var collectedLimits: seq<PlanNode>

    constructor (preOptimizedTree: Plan)
      ensures this.preOptimizedTree == preOptimizedTree
      ensures optimizedPlan == None && collectedLimits == []
    {
      this.preOptimizedTree := preOptimizedTree;
      optimizedPlan := None;
      nodeId := "";
      collectedLimits := [];
    }

    /** The plan being optimized: a copy of the pre-optimized tree until one exists. */
    function CurrentPlan(): Plan
      reads this
    {
      if optimizedPlan.Some? then optimizedPlan.value else preOptimizedTree
    }
  }

  class LimitPushdownStrategy {
    const statistics: Statistics

    constructor (statistics: Statistics)
      ensures this.statistics == statistics
    {
      this.statistics := statistics;
    }

    method Visit(node: PlanNode, context: OptimizerContext) returns (r: OptimizerContext)
      modifies context, node`nid, statistics, set n | n in context.collectedLimits
      ensures r == context
      ensures context.nodeId == old(context.nodeId)
      // the optimized plan starts as a copy of the pre-optimized tree
      ensures context.optimizedPlan.Some?
      // a limit: stamped with the current node id and collected; nothing else changes
      ensures node.nodeType == Limit ==>
        node.nid == old(context.nodeId) &&
        context.collectedLimits == old(context.collectedLimits) + [node] &&
        context.optimizedPlan.value == old(context.CurrentPlan()) &&
        statistics.optimizationLimitPushdown == old(statistics.optimizationLimitPushdown) &&
        (forall n :: n in old(context.collectedLimits) ==> n.columns == old(n.columns)) &&
        forall n :: n in old(context.collectedLimits) && n != node ==> n.nid == old(n.nid)
      // a barrier: every collected limit is moved after it, counted and cleared
      ensures IsBarrier(node.nodeType) ==>
        node.nid == old(node.nid) &&
        statistics.optimizationLimitPushdown ==
          old(statistics.optimizationLimitPushdown) + |old(context.collectedLimits)| &&
        (forall n :: n in old(context.collectedLimits) ==> n.columns == [] && n.nid == old(n.nid)) &&
        context.optimizedPlan.value ==
          old(context.CurrentPlan()).(edits := old(context.CurrentPlan()).edits +
                                       MoveEdits(old(Nids(context.collectedLimits)), old(context.nodeId))) &&
        context.collectedLimits == []
      // anything else: the collected limits and the statistic are untouched
      ensures node.nodeType != Limit && !IsBarrier(node.nodeType) ==>
        node.nid == old(node.nid) &&
        context.collectedLimits == old(context.collectedLimits) &&
        context.optimizedPlan.value == old(context.CurrentPlan()) &&
        statistics.optimizationLimitPushdown == old(statistics.optimizationLimitPushdown) &&
        forall n :: n in old(context.collectedLimits) ==> n.columns == old(n.columns) && n.nid == old(n.nid)
      ensures Account(|old(context.collectedLimits)|, old(statistics.optimizationLimitPushdown), node.nodeType)
           == (|context.collectedLimits|, statistics.optimizationLimitPushdown)
    {
      if context.optimizedPlan.None? {
        context.optimizedPlan := Some(context.preOptimizedTree);
      }
      if node.nodeType == Limit {
        node.nid := context.nodeId;
        context.collectedLimits := context.collectedLimits + [node];
        return context;
      }
      if IsBarrier(node.nodeType) {
        ghost var nids := Nids(context.collectedLimits);
        assert nids == old(Nids(context.collectedLimits));
        assert context.optimizedPlan.value == old(context.CurrentPlan());
        FlushLimits(context, context.collectedLimits);
        context.collectedLimits := [];
      }
      return context;
    }

    /** One iteration of the barrier loop: count the limit, request its move, clear its columns. */
    method MoveLimit(context: OptimizerContext, limitNode: PlanNode)
      requires context.optimizedPlan.Some?
      modifies context`optimizedPlan, statistics, limitNode`columns
      ensures statistics.optimizationLimitPushdown == old(statistics.optimizationLimitPushdown) + 1
      ensures context.optimizedPlan == Some(Plan(old(context.optimizedPlan.value.tree),
        old(context.optimizedPlan.value.edits) +
        [RemoveNode(limitNode.nid, true), InsertNodeAfter(limitNode.nid, context.nodeId)]))
      ensures limitNode.columns == []
    {
      statistics.optimizationLimitPushdown := statistics.optimizationLimitPushdown + 1;
      var plan := context.optimizedPlan.value;
      context.optimizedPlan := Some(Plan(plan.tree, plan.edits +
        [RemoveNode(limitNode.nid, true), InsertNodeAfter(limitNode.nid, context.nodeId)]));
      limitNode.columns := [];
    }

    /** The barrier case of `visit`: move and count every collected limit and clear its columns. */
    method FlushLimits(context: OptimizerContext, limits: seq<PlanNode>)
      requires context.optimizedPlan.Some?
      modifies context`optimizedPlan, statistics, set n | n in limits
      ensures statistics.optimizationLimitPushdown == old(statistics.optimizationLimitPushdown) + |limits|
      ensures forall k :: 0 <= k < |limits| ==> limits[k].columns == [] && limits[k].nid == old(limits[k].nid)
      ensures context.optimizedPlan == Some(old(context.optimizedPlan.value).(edits :=
        old(context.optimizedPlan.value).edits + MoveEdits(old(Nids(limits)), context.nodeId)))
    {
      var after := context.nodeId;
      ghost var plan0 := context.optimizedPlan.value;
      ghost var nids := Nids(limits);
      var i := 0;
      assert nids[..0] == [];
      while i < |limits|
        invariant 0 <= i <= |limits|
        invariant statistics.optimizationLimitPushdown == old(statistics.optimizationLimitPushdown) + i
        invariant forall k :: 0 <= k < |limits| ==> limits[k].nid == nids[k]
        invariant forall k :: 0 <= k < i ==> limits[k].columns == []
        invariant context.optimizedPlan.Some?
        invariant context.optimizedPlan.value.tree == plan0.tree
        invariant context.optimizedPlan.value.edits == plan0.edits + MoveEdits(nids[..i], after)
      {
        var limitNode := limits[i];
        label before:
        MoveLimit(context, limitNode);
        forall k | 0 <= k <= i ensures limits[k].columns == [] {
          if limits[k] != limitNode {
            assert limits[k].columns == old@before(limits[k].columns);
          }
        }
        MoveEditsStep(plan0.edits, nids, i, after);
        i := i + 1;
      }
      assert nids[..|limits|] == nids;
    }

    /** `complete`: this rule needs no finalisation; the plan is returned as it is. */
    function Complete(plan: Plan, context: OptimizerContext): (r: Plan)
      ensures r == plan
    {
      plan
    }
  }

  /**
   * Collecting a second limit leaves the node id stamped on the first one
   * when it was collected.
   */
  method TwoLimitsKeepTheirIds() returns (first: string, second: string)
    ensures first == "A" && second == "B"
  {
    var statistics := new Statistics();
    var strategy := new LimitPushdownStrategy(statistics);
    var context := new OptimizerContext(Plan(0, []));
    var a := new PlanNode(Limit, "", ["x"]);
    var b := new PlanNode(Limit, "", ["y"]);
    context.nodeId := "A";
    context := strategy.Visit(a, context);
    context.nodeId := "B";
    context := strategy.Visit(b, context);
    first, second := a.nid, b.nid;
  }

  /** The edits for the first `i + 1` limits: those for the first `i`, then the moves of limit `i`. */
  lemma MoveEditsPrefix(nids: seq<string>, i: nat, after: string)
    requires i < |nids|
    ensures MoveEdits(nids[..i + 1], after) ==
      MoveEdits(nids[..i], after) + [RemoveNode(nids[i], true), InsertNodeAfter(nids[i], after)]
  {
    assert nids[..i + 1] == nids[..i] + [nids[i]];
    MoveEditsSnoc(nids[..i], nids[i], after);
  }

  /** The plan's edits after moving limit `i` are those for the first `i + 1` limits. */
  lemma MoveEditsStep(edits: seq<Edit>, nids: seq<string>, i: nat, after: string)
    requires i < |nids|
    ensures (edits + MoveEdits(nids[..i], after)) + [RemoveNode(nids[i], true), InsertNodeAfter(nids[i], after)] ==
      edits + MoveEdits(nids[..i + 1], after)
  {
    MoveEditsPrefix(nids, i, after);
  }

  lemma {:induction false} MoveEditsSnoc(nids: seq<string>, nid: string, after: string)
    ensures MoveEdits(nids + [nid], after) == MoveEdits(nids, after) + [RemoveNode(nid, true), InsertNodeAfter(nid, after)]
    decreases |nids|
  {
    if nids == [] {
      assert nids + [nid] == [nid];
    } else {
      assert (nids + [nid])[1..] == nids[1..] + [nid];
      MoveEditsSnoc(nids[1..], nid, after);
    }
  }
}

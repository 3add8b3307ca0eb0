/**
 * The policy the trapping-division conversion hands to the generic trap-rewrite framework. It is
 * bound to the replacement map the matching loop built (zero-check condition -> floating div/rem)
 * and answers the framework's questions: which deoptimization reasons qualify, which conditions
 * may be folded, what fixed node replaces the branch, and how the floating node is retired.
 */
module TrappingDivPolicy {
  import opened Wrappers
  import opened IrGraph
  import opened TrappingDivPhase

  /** UseTrappingDivVersion: the policy, bound to the replacement map. */
  datatype UseTrappingDivVersion = UseTrappingDivVersion(targets: map<NodeId, NodeId>)

  /** canUseTrappingVersion: the conversion has no precondition beyond the matching. */
  function CanUseTrappingVersion(v: UseTrappingDivVersion): (r: bool)
    ensures r
  {
    true
  }

  /** isSupportedReason: only an arithmetic-exception deoptimization may be folded. */
  function IsSupportedReason(v: UseTrappingDivVersion, reason: DeoptReason): (r: bool)
    ensures r <==> reason == ArithmeticException
  {
    match reason
    case ArithmeticException => true
    case _ => false
  }

  /** canReplaceCondition: the condition is an integer equality that is a key of the map. */
  function CanReplaceCondition(v: UseTrappingDivVersion, g: Graph, condition: NodeId, ifNode: NodeId): (r: bool)
    requires condition < |g|
    ensures r <==> g[condition].IntegerEquals? && condition in v.targets
  {
    match g[condition]
    case IntegerEquals(_, _) => condition in v.targets
    case _ => false
  }

  /** useAddressOptimization: never, for divisions. */
  function UseAddressOptimization(v: UseTrappingDivVersion, address: NodeId): (r: bool)
    ensures !r
  {
    false
  }

  /** tryReplaceExisting: always declines, so a fresh fixed node is always built. */
  function TryReplaceExisting(v: UseTrappingDivVersion, g: Graph, condition: NodeId, ifNode: NodeId, deopt: NodeId): (r: Option<NodeId>)
    ensures r.None?
  {
    None
  }

  /** trueSuccessorIsDeopt: the If's true successor is the path into the deoptimization. */
  function TrueSuccessorIsDeopt(v: UseTrappingDivVersion): (r: bool)
    ensures r
  {
    true
  }

  /** The div/rem the map records for a replaceable condition exists and is floating. */
  ghost predicate TargetsFloating(v: UseTrappingDivVersion, g: Graph) {
    forall c: NodeId :: c in v.targets ==> v.targets[c] < |g| && g[v.targets[c]].FloatingDivRem?
  }

  /** createImplicitNode: appends a fixed signed div (for a floating div) or rem (for a floating
      rem) over the floating node's dividend and divisor, carrying the deoptimization's
      reason-and-action and speculation as implicit-deoptimization metadata. */
  function CreateImplicitNode(v: UseTrappingDivVersion, g: Graph, condition: NodeId, reasonAndAction: int, speculation: int): (r: (Graph, NodeId))
    requires condition in v.targets && TargetsFloating(v, g)
    ensures var d := g[v.targets[condition]];
            && r.1 == |g| && |r.0| == |g| + 1 && r.0[..|g|] == g
            && r.0[r.1].SignedDivRem?
            && r.0[r.1].op == d.op && r.0[r.1].x == d.x && r.0[r.1].y == d.y
            && r.0[r.1].implicitDeopt == Some(ImplicitDeopt(reasonAndAction, speculation))
  {
    var t := v.targets[condition];
    assert t < |g| && g[t].FloatingDivRem?;
    var d := g[t];
    var n := SignedDivRem(d.op, d.x, d.y, Some(ImplicitDeopt(reasonAndAction, speculation)));
    AppendFixedDivRem(g, n);
    (g + [n], |g|)
  }

  /** The created node becomes a usage of the floating node's dividend and divisor; no other
      usage count changes. */
  lemma CreateImplicitNodeUsages(v: UseTrappingDivVersion, g: Graph, condition: NodeId, reasonAndAction: int, speculation: int, k: NodeId)
    requires condition in v.targets && TargetsFloating(v, g)
    ensures var d := g[v.targets[condition]];
            UsageCount(CreateImplicitNode(v, g, condition, reasonAndAction, speculation).0, k) == UsageCount(g, k) + Hit(d.x, k) + Hit(d.y, k)
  {
    var (g1, t) := CreateImplicitNode(v, g, condition, reasonAndAction, speculation);
    assert g1 == g + [g1[t]];
    UsageCountAppend(g, g1[t], k);
  }

  /** On a well-formed graph the created node's operands are inside the arena, so the graph
      stays well formed. */
  lemma CreateImplicitNodeKeepsWellFormed(v: UseTrappingDivVersion, g: Graph, condition: NodeId, reasonAndAction: int, speculation: int)
    requires condition in v.targets && TargetsFloating(v, g) && WellFormed(g)
    ensures WellFormed(CreateImplicitNode(v, g, condition, reasonAndAction, speculation).0)
  {
    var (g1, t) := CreateImplicitNode(v, g, condition, reasonAndAction, speculation);
    TargetOperandsBelow(v, g, condition);
    assert g1 == g + [g1[t]];
    AppendKeepsWellFormed(g, g1[t]);
  }

  lemma TargetOperandsBelow(v: UseTrappingDivVersion, g: Graph, condition: NodeId)
    requires condition in v.targets && TargetsFloating(v, g)
    ensures WellFormed(g) ==> g[v.targets[condition]].x < |g| && g[v.targets[condition]].y < |g|
  {
    if WellFormed(g) {
      assert RefsBelow(g[v.targets[condition]], |g|);
    }
  }

  /** Appending a fixed div/rem keeps the graph in front of it; over operands inside the arena
      it keeps the graph well formed. */
  lemma AppendFixedDivRem(g: Graph, n: Node)
    requires n.SignedDivRem?
    ensures (g + [n])[..|g|] == g
    ensures WellFormed(g) && n.x < |g| && n.y < |g| ==> WellFormed(g + [n])
  {
    assert (g + [n])[..|g|] == g;
    if WellFormed(g) && n.x < |g| && n.y < |g| {
      AppendKeepsWellFormed(g, n);
    }
  }

  /** finalAction: every usage of the floating node recorded for the condition now uses the
      fixed node instead; the floating node is left without usages. */
  function FinalAction(v: UseTrappingDivVersion, g: Graph, trappingNode: NodeId, condition: NodeId): (r: Graph)
    requires condition in v.targets && TargetsFloating(v, g)
    requires trappingNode < |g| && g[trappingNode].SignedDivRem?
    ensures |r| == |g|
    ensures WellFormed(g) ==> WellFormed(r)
  {
    var d := v.targets[condition];
    ReplaceKeepsWellFormed(g, d, trappingNode);
    ReplaceAtUsages(g, d, trappingNode)
  }

  /** After finalAction the floating node has no usages, the fixed node has gained all of them,
      and every other node keeps its usage count. */
  lemma FinalActionUsages(v: UseTrappingDivVersion, g: Graph, trappingNode: NodeId, condition: NodeId, k: NodeId)
    requires condition in v.targets && TargetsFloating(v, g)
    requires trappingNode < |g| && g[trappingNode].SignedDivRem?
    ensures var d := v.targets[condition];
            UsageCount(FinalAction(v, g, trappingNode, condition), k)
            == if k == d then 0
               else if k == trappingNode then UsageCount(g, trappingNode) + UsageCount(g, d)
               else UsageCount(g, k)
  {
    var d := v.targets[condition];
    assert g[d].FloatingDivRem?;
    ReplaceAtUsagesCount(g, d, trappingNode, k);
  }

  /** Which nodes finalAction touches: each node's inputs are its old inputs with the floating
      node replaced by the fixed one, and a node that did not use the floating node is left
      as it was. */
  lemma FinalActionInputs(v: UseTrappingDivVersion, g: Graph, trappingNode: NodeId, condition: NodeId, i: nat)
    requires condition in v.targets && TargetsFloating(v, g)
    requires trappingNode < |g| && g[trappingNode].SignedDivRem?
    requires i < |g|
    ensures var d := v.targets[condition];
            && Inputs(FinalAction(v, g, trappingNode, condition)[i]) == RedirectAll(Inputs(g[i]), d, trappingNode)
            && (EdgesTo(g[i], d) == 0 ==> FinalAction(v, g, trappingNode, condition)[i] == g[i])
  {
    ReplaceAtUsagesInputs(g, v.targets[condition], trappingNode, i);
  }

  /** Redirecting usages to a node inside the arena keeps the graph well formed. */
  lemma ReplaceKeepsWellFormed(g: Graph, from: NodeId, to: NodeId)
    requires to < |g|
    ensures WellFormed(g) ==> WellFormed(ReplaceAtUsages(g, from, to))
  {
    if WellFormed(g) {
      var r := ReplaceAtUsages(g, from, to);
      forall i | 0 <= i < |r| ensures RefsBelow(r[i], |r|) {
        ReplaceAtUsagesAt(g, from, to, i);
        RedirectKeepsRefsBelow(g[i], from, to, |g|);
      }
    }
  }

  /** actionBeforeGuardRewrite: nothing to prepare for divisions. */
  function ActionBeforeGuardRewrite(v: UseTrappingDivVersion, g: Graph, trappingNode: NodeId): (r: Graph)
    ensures r == g
  {
    g
  }

  /** Redirecting inputs to a node inside the arena keeps every reference inside the arena. */
  lemma RedirectKeepsRefsBelow(n: Node, from: NodeId, to: NodeId, size: nat)
    requires RefsBelow(n, size) && to < size
    ensures RefsBelow(RedirectInputs(n, from, to), size)
  {
    match n
    case Phi(m, vs) => RedirectAllBelow(vs, from, to, size);
    case OtherLogic(ins) => RedirectAllBelow(ins, from, to, size);
    case MultiGuard(gs) => RedirectAllBelow(gs, from, to, size);
    case Other(ins) => RedirectAllBelow(ins, from, to, size);
    case _ =>
  }

  lemma RedirectAllBelow(s: seq<NodeId>, from: NodeId, to: NodeId, size: nat)
    requires forall k :: k in s ==> k < size
    requires to < size
    ensures forall k :: k in RedirectAll(s, from, to) ==> k < size
  {
    var r := RedirectAll(s, from, to);
    forall i | 0 <= i < |r| ensures r[i] < size {
      RedirectAllAt(s, from, to, i);
      assert s[i] in s;
    }
  }

  /** The policy the phase constructs answers canReplaceCondition exactly for the conditions under
      which some div/rem is recordable, and every such condition leads to a floating div/rem, so
      createImplicitNode and finalAction can always be applied to it. */
  lemma CanReplaceExactlyRecordedConditions(g: Graph, sched: Schedule, c: NodeId, ifNode: NodeId)
    requires WellFormed(g) && c < |g|
    requires Run(g, sched).Success? && Run(g, sched).value.targets.Some?
    ensures var v := UseTrappingDivVersion(Run(g, sched).value.targets.value);
            && TargetsFloating(v, g)
            && (CanReplaceCondition(v, g, c, ifNode) <==> exists d: NodeId :: Recordable(g, sched, c, d))
  {
    var m := Run(g, sched).value.targets.value;
    var v := UseTrappingDivVersion(m);
    ScanRecordsOnlyRecordable(g, sched, |g|);
    ScanRecordsEveryRecordable(g, sched, |g|);
    assert OnlyRecordable(g, sched, m, |g|);
    assert EveryRecordable(g, sched, Some(m), |g|);
    if CanReplaceCondition(v, g, c, ifNode) {
      assert Recordable(g, sched, c, m[c]);
    }
    if d: NodeId :| Recordable(g, sched, c, d) {
      RecordableIsZeroCheck(g, sched, c, d);
      assert c in m;
    }
  }

  /** A condition a div/rem is recordable under is an integer equality. */
  lemma RecordableIsZeroCheck(g: Graph, sched: Schedule, c: NodeId, d: NodeId)
    requires WellFormed(g) && Recordable(g, sched, c, d)
    ensures d < |g| && c < |g| && g[c].IntegerEquals?
  {
    var p := ZeroCheckBranch(g, d).value;
    assert ZeroCheckShape(g, d, p);
  }

  /** createImplicitNode followed by finalAction: the fixed node computes the same operation on
      the same dividend and divisor, carries the deoptimization's metadata, takes over every
      usage of the floating node, and leaves the floating node without usages. The operands
      are distinct from the floating node itself, as they are in any graph without a cycle
      through a non-phi node. */
  lemma ConversionReplacesDivRem(v: UseTrappingDivVersion, g: Graph, c: NodeId, reasonAndAction: int, speculation: int)
    requires WellFormed(g) && c in v.targets && TargetsFloating(v, g)
    requires g[v.targets[c]].x != v.targets[c] && g[v.targets[c]].y != v.targets[c]
    ensures var d := v.targets[c];
            var (g1, t) := CreateImplicitNode(v, g, c, reasonAndAction, speculation);
            && TargetsFloating(v, g1)
            && var g2 := FinalAction(v, g1, t, c);
            && WellFormed(g2)
            && |g2| == |g| + 1
            && g2[t] == SignedDivRem(g[d].op, g[d].x, g[d].y, Some(ImplicitDeopt(reasonAndAction, speculation)))
            && UsageCount(g2, d) == 0
            && UsageCount(g2, t) == UsageCount(g, d)
  {
    var d := v.targets[c];
    var (g1, t) := CreateImplicitNode(v, g, c, reasonAndAction, speculation);
    CreatedNodeKeepsTargets(v, g, g1);
    CreateImplicitNodeKeepsWellFormed(v, g, c, reasonAndAction, speculation);
    var g2 := FinalAction(v, g1, t, c);
    FixedNodeOperandsKept(g1, t, d);
    CreatedNodeUsages(g, g1, d);
    FinalActionUsages(v, g1, t, c, d);
    FinalActionUsages(v, g1, t, c, t);
  }

  /** Appending a node keeps every recorded floating div/rem where it was. */
  lemma CreatedNodeKeepsTargets(v: UseTrappingDivVersion, g: Graph, g1: Graph)
    requires TargetsFloating(v, g) && |g1| == |g| + 1 && g1[..|g|] == g
    ensures TargetsFloating(v, g1)
  {
    forall k: NodeId | k in v.targets ensures v.targets[k] < |g1| && g1[v.targets[k]].FloatingDivRem? {
      assert g1[..|g|][v.targets[k]] == g[v.targets[k]];
    }
  }

  /** Redirecting the usages of d does not touch a fixed node's operands that differ from d. */
  lemma FixedNodeOperandsKept(g1: Graph, t: NodeId, d: NodeId)
    requires t < |g1| && g1[t].SignedDivRem? && g1[t].x != d && g1[t].y != d
    ensures ReplaceAtUsages(g1, d, t)[t] == g1[t]
  {
    ReplaceAtUsagesAt(g1, d, t, t);
  }

  /** The fixed node is new, so it has no usages before finalAction, and its operands are not
      the floating node, so the floating node keeps its usage count. */
  lemma CreatedNodeUsages(g: Graph, g1: Graph, d: NodeId)
    requires WellFormed(g) && |g1| == |g| + 1 && g1[..|g|] == g && g1[|g|].SignedDivRem?
    requires g1[|g|].x < |g| && g1[|g|].y < |g| && g1[|g|].x != d && g1[|g|].y != d
    ensures UsageCount(g1, |g|) == 0
    ensures UsageCount(g1, d) == UsageCount(g, d)
  {
    assert g1 == g + [g1[|g|]];
    UsageCountAppend(g, g1[|g|], |g|);
    UsageCountAppend(g, g1[|g|], d);
    NoEdgeAbove(g, |g|, |g|);
  }

  /** No input edge of a graph whose references are below `size` points at `size`. */
  lemma {:induction false} NoEdgeAbove(g: Graph, size: nat, m: nat)
    requires m <= |g|
    requires WellFormed(g) && |g| <= size
    ensures UsageCountBelow(g, m, size) == 0
    decreases m
  {
    if m > 0 {
      NoEdgeAbove(g, size, m - 1);
      assert RefsBelow(g[m - 1], |g|);
      EdgesAbove(g[m - 1], |g|, size);
    }
  }
}

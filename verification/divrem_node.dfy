/**
 * The floating, non-trapping signed division/remainder node: a div/rem that is not pinned to a
 * control-flow position and carries an optional guard certifying that it cannot trap. Its
 * verification refuses a node whose stamps admit both a zero divisor and an overflow while the
 * graph has not yet passed the FIXED_READS stage.
 */
module NonTrappingDivRem {
  import opened Wrappers
  import opened IrGraph

  /** The stamp (value-range) queries the node consumes, as an oracle over node ids:
      whether the integer stamp of a node contains 0, and SignedDivNode.divCanOverflow. */
  datatype StampOracle = StampOracle(containsZero: NodeId -> bool, divCanOverflow: (NodeId, NodeId) -> bool)

  /** The fatal verification failure "Floating irem must never trap". */
  datatype VerificationError = FloatingDivRemMayTrap

  predicate IsNonTrappingDivRem(g: Graph, id: NodeId) {
    id < |g| && g[id].FloatingDivRem?
  }

  /** The constructor followed by adding the node to the graph: the new node is appended, it
      stores exactly the supplied guard (possibly none), and its inputs become usages. */
  function AddNonTrappingDivRem(g: Graph, op: DivRemOp, x: NodeId, y: NodeId, guard: Option<NodeId>): (r: (Graph, NodeId))
    ensures r.1 == |g| && |r.0| == |g| + 1 && r.0[..|g|] == g
    ensures IsNonTrappingDivRem(r.0, r.1)
    ensures GetGuard(r.0, r.1) == guard
    ensures r.0[r.1].op == op && r.0[r.1].x == x && r.0[r.1].y == y
  {
    var n := FloatingDivRem(op, x, y, guard);
    assert (g + [n])[..|g|] == g;
    (g + [n], |g|)
  }

  /** Adding the node makes it a usage of its dividend, of its divisor and of its guard, once
      for each of these edges; no other usage count changes. */
  lemma AddNonTrappingDivRemUsages(g: Graph, op: DivRemOp, x: NodeId, y: NodeId, guard: Option<NodeId>, k: NodeId)
    ensures UsageCount(AddNonTrappingDivRem(g, op, x, y, guard).0, k)
            == UsageCount(g, k) + Hit(x, k) + Hit(y, k) + HitOpt(guard, k)
  {
    UsageCountAppend(g, FloatingDivRem(op, x, y, guard), k);
  }

  function GetGuard(g: Graph, id: NodeId): Option<NodeId>
    requires IsNonTrappingDivRem(g, id)
  {
    g[id].guard
  }

  /** setGuard: the node's guard becomes `guard`; the node leaves the old guard's usages and
      joins the new guard's usages; no other node and no other usage changes. */
  function SetGuard(g: Graph, id: NodeId, guard: Option<NodeId>): (r: Graph)
    requires IsNonTrappingDivRem(g, id)
    ensures |r| == |g| && IsNonTrappingDivRem(r, id)
    ensures GetGuard(r, id) == guard
    ensures r[id].op == g[id].op && r[id].x == g[id].x && r[id].y == g[id].y
    ensures forall j :: 0 <= j < |g| && j != id ==> r[j] == g[j]
  {
    g[id := g[id].(guard := guard)]
  }

  /** Setting the guard removes the node from the old guard's usages and adds it to the new
      guard's usages; no other usage count changes. */
  lemma SetGuardUsages(g: Graph, id: NodeId, guard: Option<NodeId>, k: NodeId)
    requires IsNonTrappingDivRem(g, id)
    ensures HitOpt(g[id].guard, k) <= UsageCount(g, k)
    ensures UsageCount(SetGuard(g, id, guard), k) == UsageCount(g, k) - HitOpt(g[id].guard, k) + HitOpt(guard, k)
  {
    UsageCountUpdate(g, id, g[id].(guard := guard), k);
  }

  /** canTrap: the divisor's integer stamp contains 0. */
  predicate CanTrap(stamps: StampOracle, g: Graph, id: NodeId)
    requires IsNonTrappingDivRem(g, id)
  {
    stamps.containsZero(g[id].y)
  }

  /** canOverflow: exactly SignedDivNode.divCanOverflow(x, y). */
  predicate CanOverflow(stamps: StampOracle, g: Graph, id: NodeId)
    requires IsNonTrappingDivRem(g, id)
  {
    stamps.divCanOverflow(g[id].x, g[id].y)
  }

  /** verify: fails exactly when the node can both trap and overflow and the graph is not yet
      after FIXED_READS; otherwise it answers what the superclass verification answers. */
  function Verify(stamps: StampOracle, g: Graph, id: NodeId, afterFixedReads: bool, superVerify: bool): (r: Result<bool, VerificationError>)
    requires IsNonTrappingDivRem(g, id)
    ensures r.Failure? <==> stamps.containsZero(g[id].y) && stamps.divCanOverflow(g[id].x, g[id].y) && !afterFixedReads
    ensures r.Success? ==> r.value == superVerify
  {
    if !(CanTrap(stamps, g, id) && CanOverflow(stamps, g, id)) || afterFixedReads then
      Success(superVerify)
    else
      Failure(FloatingDivRemMayTrap)
  }

  /** getGuard returns the most recently set guard, whatever was set before, and setting the
      guard of another node does not change it. */
  lemma GetGuardReturnsLastSet(g: Graph, id: NodeId, other: NodeId, first: Option<NodeId>, second: Option<NodeId>, foreign: Option<NodeId>)
    requires IsNonTrappingDivRem(g, id) && IsNonTrappingDivRem(g, other) && other != id
    ensures GetGuard(SetGuard(SetGuard(g, id, first), id, second), id) == second
    ensures GetGuard(SetGuard(SetGuard(g, id, first), other, foreign), id) == first
  {
  }

  /** A node whose divisor stamp excludes 0 is provably safe: it passes verification at every
      stage, with or without a guard. */
  lemma ProvablySafeNodeVerifies(stamps: StampOracle, g: Graph, id: NodeId, afterFixedReads: bool, guard: Option<NodeId>)
    requires IsNonTrappingDivRem(g, id)
    requires !stamps.containsZero(g[id].y)
    ensures Verify(stamps, SetGuard(g, id, guard), id, afterFixedReads, true) == Success(true)
  {
  }

  /** Verification ignores the guard: attaching, replacing or dropping it never changes the
      verdict. */
  lemma VerifyIgnoresGuard(stamps: StampOracle, g: Graph, id: NodeId, afterFixedReads: bool, superVerify: bool, guard: Option<NodeId>)
    requires IsNonTrappingDivRem(g, id)
    ensures Verify(stamps, SetGuard(g, id, guard), id, afterFixedReads, superVerify) == Verify(stamps, g, id, afterFixedReads, superVerify)
  {
  }
}

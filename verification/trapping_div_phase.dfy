/**
 * The matching half of the trapping-division conversion. For every floating div/rem in node
 * order the phase looks for an explicit `divisor == 0` branch guarding it: the guard is a Begin
 * that is the false successor of an If whose condition compares the divisor with the constant 0
 * and has no other usage. The first such candidate creates the replacement map and computes the
 * schedule; a candidate is recorded (condition -> div/rem) when the dividend's block dominates
 * the If's block. If the map was created, the generic trap-rewrite framework is then invoked on
 * every Deoptimize node and every DynamicDeoptimize node.
 */
module TrappingDivPhase {
  import opened Wrappers
  import opened IrGraph

  /** The schedule oracle: the node-to-block map of the EARLIEST schedule and block dominance. */
  datatype Schedule = Schedule(blockOf: map<NodeId, BlockId>, dominates: (BlockId, BlockId) -> bool)

  /** Exceptions the matching loop can raise on a schedule that lacks a block it needs. */
  datatype PhaseError =
    | DividendNotPhi(dividend: NodeId)  // the dividend has no block and the cast to PhiNode fails
    | MissingBlock                      // the dominance test is handed a null block

  /** The state the matching loop carries: the lazily created map and how often the schedule
      has been computed. */
  datatype ScanState = ScanState(targets: Option<map<NodeId, NodeId>>, schedulesComputed: nat)

  /** One invocation of the trap-rewrite framework. */
  datatype FrameworkCall = OnDeoptimize(deopt: NodeId) | OnDynamicDeoptimize(deopt: NodeId)

  datatype PhaseResult = PhaseResult(targets: Option<map<NodeId, NodeId>>, schedulesComputed: nat, frameworkCalls: seq<FrameworkCall>)

  /** conditionIsZeroCheck: an IntegerEquals whose X is the divisor node itself and whose Y is a
      constant equal to 0. */
  predicate ConditionIsZeroCheck(g: Graph, condition: NodeId, divisor: NodeId)
    requires condition < |g|
  {
    match g[condition]
    case IntegerEquals(x, y) => x == divisor && y < |g| && g[y].Constant? && g[y].value == 0
    case _ => false
  }

  /** The structural pattern, written out: the guard of div/rem d is a Begin whose predecessor is
      the If p, the Begin is p's false successor, p's condition is a zero check of d's divisor,
      and that condition has exactly one usage. */
  ghost predicate ZeroCheckShape(g: Graph, d: NodeId, p: NodeId)
    requires d < |g| && g[d].FloatingDivRem?
  {
    && g[d].guard.Some?
    && var b := g[d].guard.value;
    && b < |g| && g[b].Begin?
    && g[b].predecessor == Some(p)
    && p < |g| && g[p].If?
    && g[p].falseSuccessor == b
    && var c := g[p].condition;
    && c < |g| && g[c].IntegerEquals?
    && g[c].x == g[d].y
    && g[c].y < |g| && g[g[c].y].Constant?
    && g[g[c].y].value == 0
    && UsageCount(g, c) == 1
  }

  /** The If whose zero check guards div/rem d, if the pattern matches. A MultiGuard guard is
      skipped outright (both operands carried a speculation). */
  function ZeroCheckBranch(g: Graph, d: NodeId): (r: Option<NodeId>)
    requires d < |g| && g[d].FloatingDivRem?
    ensures forall p: NodeId :: r == Some(p) <==> ZeroCheckShape(g, d, p)
    ensures g[d].guard.Some? && g[d].guard.value < |g| && g[g[d].guard.value].MultiGuard? ==> r.None?
  {
    match g[d].guard
    case None => None
    case Some(b) =>
      if b >= |g| || g[b].MultiGuard? then
        None
      else if g[b].Begin? && g[b].predecessor.Some? && g[b].predecessor.value < |g| && g[g[b].predecessor.value].If? then
        var p := g[b].predecessor.value;
        var c := g[p].condition;
        if g[p].falseSuccessor == b && c < |g| && ConditionIsZeroCheck(g, c, g[d].y) && UsageCount(g, c) == 1 then
          Some(p)
        else
          None
      else
        None
  }

  /** A floating div/rem that passes the zero-check and single-usage tests. */
  ghost predicate IsCandidate(g: Graph, d: NodeId) {
    d < |g| && g[d].FloatingDivRem? && ZeroCheckBranch(g, d).Some?
  }

  /** The block of the dividend, or of its merge when the dividend has none (it must be a phi). */
  function DividendBlock(g: Graph, sched: Schedule, dividend: NodeId): Result<BlockId, PhaseError> {
    if dividend in sched.blockOf then Success(sched.blockOf[dividend])
    else if dividend >= |g| || !g[dividend].Phi? then Failure(DividendNotPhi(dividend))
    else if g[dividend].merge in sched.blockOf then Success(sched.blockOf[g[dividend].merge])
    else Failure(MissingBlock)
  }

  /** The two blocks the dominance test compares: the dividend's and the If's. */
  function DominanceBlocks(g: Graph, sched: Schedule, ifNode: NodeId, dividend: NodeId): Result<(BlockId, BlockId), PhaseError> {
    match DividendBlock(g, sched, dividend)
    case Failure(e) => Failure(e)
    case Success(db) => if ifNode in sched.blockOf then Success((db, sched.blockOf[ifNode])) else Failure(MissingBlock)
  }

  /** The dividend's block dominates the If's block. */
  ghost predicate DividendDominates(g: Graph, sched: Schedule, ifNode: NodeId, dividend: NodeId) {
    var blocks := DominanceBlocks(g, sched, ifNode, dividend);
    blocks.Success? && sched.dominates(blocks.value.0, blocks.value.1)
  }

  /** Div/rem d may be recorded under condition c: it passes the zero-check and single-usage
      tests through the If whose condition is c, and the dividend's block dominates that If's. */
  ghost predicate Recordable(g: Graph, sched: Schedule, c: NodeId, d: NodeId) {
    && IsCandidate(g, d)
    && var p := ZeroCheckBranch(g, d).value;
    && g[p].condition == c
    && DividendDominates(g, sched, p, g[d].x)
  }

  /** One iteration of the matching loop, on node d. */
  function Visit(g: Graph, sched: Schedule, st: ScanState, d: NodeId): Result<ScanState, PhaseError>
    requires d < |g|
  {
    if !g[d].FloatingDivRem? then Success(st)
    else match ZeroCheckBranch(g, d)
      case None => Success(st)
      case Some(p) =>
        var targets := st.targets.GetOr(map[]);
        var computed := if st.targets.None? then st.schedulesComputed + 1 else st.schedulesComputed;
        match DominanceBlocks(g, sched, p, g[d].x)
        case Failure(e) => Failure(e)
        case Success(blocks) =>
          var targets' := if sched.dominates(blocks.0, blocks.1) then targets[g[p].condition := d] else targets;
          Success(ScanState(Some(targets'), computed))
  }

  /** The matching loop over the nodes 0 .. n-1, in node order. */
  function ScanUpTo(g: Graph, sched: Schedule, n: nat): Result<ScanState, PhaseError>
    requires n <= |g|
    decreases n
  {
    if n == 0 then Success(ScanState(None, 0))
    else
      match ScanUpTo(g, sched, n - 1)
      case Failure(e) => Failure(e)
      case Success(st) => Visit(g, sched, st, n - 1)
  }

  /** The framework invocations for the Deoptimize nodes among 0 .. n-1, in node order. */
  function DeoptimizeCalls(g: Graph, n: nat): (r: seq<FrameworkCall>)
    requires n <= |g|
    ensures forall i: NodeId :: OnDeoptimize(i) in r <==> i < n && g[i].Deoptimize?
    ensures forall call :: call in r ==> call.OnDeoptimize? && call.deopt < n
    decreases n
  {
    if n == 0 then [] else DeoptimizeCalls(g, n - 1) + (if g[n - 1].Deoptimize? then [OnDeoptimize(n - 1)] else [])
  }

  /** The framework invocations for the DynamicDeoptimize nodes among 0 .. n-1, in node order. */
  function DynamicDeoptimizeCalls(g: Graph, n: nat): (r: seq<FrameworkCall>)
    requires n <= |g|
    ensures forall i: NodeId :: OnDynamicDeoptimize(i) in r <==> i < n && g[i].DynamicDeoptimize?
    ensures forall call :: call in r ==> call.OnDynamicDeoptimize? && call.deopt < n
    decreases n
  {
    if n == 0 then [] else DynamicDeoptimizeCalls(g, n - 1) + (if g[n - 1].DynamicDeoptimize? then [OnDynamicDeoptimize(n - 1)] else [])
  }

  /** run: the matching loop, then one framework invocation per Deoptimize and per
      DynamicDeoptimize node exactly when the map was created (even if it stayed empty). */
  function Run(g: Graph, sched: Schedule): (r: Result<PhaseResult, PhaseError>)
    ensures r.Success? <==> ScanUpTo(g, sched, |g|).Success?
    ensures r.Success? ==> r.value.targets == ScanUpTo(g, sched, |g|).value.targets
    ensures r.Success? ==> forall i: NodeId :: i < |g| ==>
              (OnDeoptimize(i) in r.value.frameworkCalls <==> g[i].Deoptimize? && r.value.targets.Some?)
    ensures r.Success? ==> forall i: NodeId :: i < |g| ==>
              (OnDynamicDeoptimize(i) in r.value.frameworkCalls <==> g[i].DynamicDeoptimize? && r.value.targets.Some?)
    ensures r.Success? ==> forall call :: call in r.value.frameworkCalls ==> call.deopt < |g|
    ensures r.Success? && r.value.targets.None? ==> r.value.frameworkCalls == []
  {
    match ScanUpTo(g, sched, |g|)
    case Failure(e) => Failure(e)
    case Success(st) =>
      var calls := if st.targets.Some? then DeoptimizeCalls(g, |g|) + DynamicDeoptimizeCalls(g, |g|) else [];
      Success(PhaseResult(st.targets, st.schedulesComputed, calls))
  }

  /** What one iteration does to the loop state. */
  lemma VisitEffect(g: Graph, sched: Schedule, st: ScanState, d: NodeId)
    requires d < |g|
    requires Visit(g, sched, st, d).Success?
    ensures var st' := Visit(g, sched, st, d).value;
            && (!IsCandidate(g, d) ==> st' == st)
            && (IsCandidate(g, d) ==>
                  && st'.targets.Some?
                  && st'.schedulesComputed == (if st.targets.None? then st.schedulesComputed + 1 else st.schedulesComputed)
                  && var m := st.targets.GetOr(map[]);
                  && var p := ZeroCheckBranch(g, d).value;
                  && st'.targets.value == (if DividendDominates(g, sched, p, g[d].x) then m[g[p].condition := d] else m))
  {
  }

  /** Every entry of m pairs a condition with a div/rem below n that is recordable under it. */
  ghost predicate OnlyRecordable(g: Graph, sched: Schedule, m: map<NodeId, NodeId>, n: nat)
  {
    forall c: NodeId :: c in m ==> m[c] < n && Recordable(g, sched, c, m[c])
  }

  /** Soundness: every entry of the map pairs a zero-check condition with a div/rem that is
      recordable under it; in particular no div/rem guarded by a MultiGuard ever appears. */
  lemma {:induction false} ScanRecordsOnlyRecordable(g: Graph, sched: Schedule, n: nat)
    requires n <= |g|
    ensures ScanUpTo(g, sched, n).Success? && ScanUpTo(g, sched, n).value.targets.Some? ==>
              OnlyRecordable(g, sched, ScanUpTo(g, sched, n).value.targets.value, n)
    decreases n
  {
    if n > 0 && ScanUpTo(g, sched, n).Success? {
      ScanRecordsOnlyRecordable(g, sched, n - 1);
      var st := ScanUpTo(g, sched, n - 1).value;
      assert ScanUpTo(g, sched, n) == Visit(g, sched, st, n - 1);
      VisitKeepsOnlyRecordable(g, sched, st, n - 1);
    }
  }

  /** One iteration extends soundness from the nodes below d to the nodes up to d. */
  lemma VisitKeepsOnlyRecordable(g: Graph, sched: Schedule, st: ScanState, d: NodeId)
    requires d < |g|
    requires Visit(g, sched, st, d).Success?
    requires st.targets.Some? ==> OnlyRecordable(g, sched, st.targets.value, d)
    ensures Visit(g, sched, st, d).value.targets.Some? ==> OnlyRecordable(g, sched, Visit(g, sched, st, d).value.targets.value, d + 1)
  {
    VisitEffect(g, sched, st, d);
    var st' := Visit(g, sched, st, d).value;
    if st'.targets.Some? {
      var m := st.targets.GetOr(map[]);
      var m' := st'.targets.value;
      forall c: NodeId | c in m' ensures m'[c] < d + 1 && Recordable(g, sched, c, m'[c]) {
        if IsCandidate(g, d) {
          var p := ZeroCheckBranch(g, d).value;
          if DividendDominates(g, sched, p, g[d].x) && c == g[p].condition {
            assert m'[c] == d;
          } else {
            assert c in m && m'[c] == m[c];
          }
        } else {
          assert c in m && m'[c] == m[c];
        }
      }
    }
  }

  /** Every div/rem below n recordable under some condition has that condition in the map,
      mapped to it or to a later div/rem. */
  ghost predicate EveryRecordable(g: Graph, sched: Schedule, targets: Option<map<NodeId, NodeId>>, n: nat)
  {
    forall c: NodeId, d: NodeId :: d < n && Recordable(g, sched, c, d) ==>
      targets.Some? && c in targets.value && d <= targets.value[c]
  }

  /** Completeness, last one wins: every recordable div/rem among the scanned nodes has its
      condition in the map, mapped to it or to a later recordable div/rem. */
  lemma {:induction false} ScanRecordsEveryRecordable(g: Graph, sched: Schedule, n: nat)
    requires n <= |g|
    ensures ScanUpTo(g, sched, n).Success? ==> EveryRecordable(g, sched, ScanUpTo(g, sched, n).value.targets, n)
    decreases n
  {
    if n > 0 && ScanUpTo(g, sched, n).Success? {
      ScanRecordsEveryRecordable(g, sched, n - 1);
      ScanRecordsOnlyRecordable(g, sched, n - 1);
      var st := ScanUpTo(g, sched, n - 1).value;
      assert ScanUpTo(g, sched, n) == Visit(g, sched, st, n - 1);
      VisitKeepsEveryRecordable(g, sched, st, n - 1);
    }
  }

  /** One iteration extends completeness from the nodes below d to the nodes up to d. */
  lemma VisitKeepsEveryRecordable(g: Graph, sched: Schedule, st: ScanState, d: NodeId)
    requires d < |g|
    requires Visit(g, sched, st, d).Success?
    requires EveryRecordable(g, sched, st.targets, d)
    requires st.targets.Some? ==> OnlyRecordable(g, sched, st.targets.value, d)
    ensures EveryRecordable(g, sched, Visit(g, sched, st, d).value.targets, d + 1)
  {
    var st' := Visit(g, sched, st, d).value;
    VisitEffect(g, sched, st, d);
    forall c: NodeId, e: NodeId | e < d + 1 && Recordable(g, sched, c, e)
      ensures st'.targets.Some? && c in st'.targets.value && e <= st'.targets.value[c]
    {
      if e < d {
        assert st.targets.Some? && c in st.targets.value && e <= st.targets.value[c];
        assert st.targets.value[c] < d;
      }
    }
  }

  /** Whether some div/rem among 0 .. n-1 passes the zero-check and single-usage tests. */
  ghost predicate SomeCandidateBelow(g: Graph, n: nat)
  {
    exists d: NodeId :: d < n && IsCandidate(g, d)
  }

  lemma CandidateBelowStep(g: Graph, n: nat)
    requires 0 < n <= |g|
    ensures SomeCandidateBelow(g, n) <==> SomeCandidateBelow(g, n - 1) || IsCandidate(g, n - 1)
  {
    if SomeCandidateBelow(g, n) && !IsCandidate(g, n - 1) {
      var d: NodeId :| d < n && IsCandidate(g, d);
      assert d < n - 1;
    }
  }

  /** Laziness: the map is created and the schedule computed at most once, and that happens
      exactly when some scanned div/rem passes the zero-check and single-usage tests. */
  lemma {:induction false} ScanComputesScheduleLazily(g: Graph, sched: Schedule, n: nat)
    requires n <= |g|
    ensures ScanUpTo(g, sched, n).Success? ==>
              var st := ScanUpTo(g, sched, n).value;
              && st.schedulesComputed <= 1
              && (st.schedulesComputed == 1 <==> st.targets.Some?)
              && (st.targets.Some? <==> SomeCandidateBelow(g, n))
    decreases n
  {
    if n > 0 && ScanUpTo(g, sched, n).Success? {
      ScanComputesScheduleLazily(g, sched, n - 1);
      var st := ScanUpTo(g, sched, n - 1).value;
      VisitEffect(g, sched, st, n - 1);
      assert ScanUpTo(g, sched, n).value == Visit(g, sched, st, n - 1).value;
      CandidateBelowStep(g, n);
    }
  }

  /** The matching loop raises an exception exactly when some candidate's dividend or If has no
      usable block in the schedule. */
  lemma {:induction false} ScanFailsOnlyOnScheduleGap(g: Graph, sched: Schedule, n: nat)
    requires n <= |g|
    ensures ScanUpTo(g, sched, n).Failure? <==>
              exists d: NodeId :: d < n && IsCandidate(g, d) && DominanceBlocks(g, sched, ZeroCheckBranch(g, d).value, g[d].x).Failure?
    decreases n
  {
    if n > 0 {
      ScanFailsOnlyOnScheduleGap(g, sched, n - 1);
    }
  }
}

/**
 * The compiler's intermediate representation as an arena: a graph is a sequence of nodes and a
 * node refers to other nodes by their index. Input edges are the node fields a node consumes;
 * the usages of a node are the input edges that point at it, counted with multiplicity (a node
 * that consumes the same value twice is listed twice among that value's usages).
 */
module IrGraph {
  import opened Wrappers

  type NodeId = nat
  type BlockId = nat

  /** Which of the two signed integer operations a div/rem node performs. */
  datatype DivRemOp = Div | Rem

  /** The reason recorded on a deoptimization exit. */
  datatype DeoptReason =
    | ArithmeticException
    | NullCheckException
    | BoundsCheckException
    | ClassCastException
    | UnreachedCode
    | TransferToInterpreter
    | OtherReason(code: nat)

  /** Implicit-deoptimization metadata of a fixed div/rem: the encoded reason-and-action
      constant and the speculation constant of the deoptimization it replaces. */
  datatype ImplicitDeopt = ImplicitDeopt(reasonAndAction: int, speculation: int)

  /** The node kinds the trapping-division conversion distinguishes; every other node is Other. */
  datatype Node =
    | Constant(value: int)
    | Parameter(index: nat)
    | Phi(merge: NodeId, values: seq<NodeId>)
    | Merge
    | IntegerEquals(x: NodeId, y: NodeId)
    | OtherLogic(inputs: seq<NodeId>)
    | If(condition: NodeId, trueSuccessor: NodeId, falseSuccessor: NodeId)
    | Begin(predecessor: Option<NodeId>)
    | MultiGuard(guards: seq<NodeId>)
      /** A floating, non-trapping signed division or remainder with an optional guard. */
    | FloatingDivRem(op: DivRemOp, x: NodeId, y: NodeId, guard: Option<NodeId>)
      /** A fixed signed division or remainder that may trap. */
    | SignedDivRem(op: DivRemOp, x: NodeId, y: NodeId, implicitDeopt: Option<ImplicitDeopt>)
    | Deoptimize(reason: DeoptReason, speculation: int)
    | DynamicDeoptimize(actionAndReasonInput: NodeId, speculationInput: NodeId)
    | Return(result: Option<NodeId>)
    | Other(inputs: seq<NodeId>)

  type Graph = seq<Node>

  function OptionToSeq(o: Option<NodeId>): seq<NodeId> {
    match o
    case None => []
    case Some(k) => [k]
  }

  /** The input edges of a node, in field order. */
  function Inputs(n: Node): seq<NodeId> {
    match n
    case Constant(_) => []
    case Parameter(_) => []
    case Phi(m, vs) => [m] + vs
    case Merge => []
    case IntegerEquals(x, y) => [x, y]
    case OtherLogic(ins) => ins
    case If(c, _, _) => [c]
    case Begin(_) => []
    case MultiGuard(gs) => gs
    case FloatingDivRem(_, x, y, g) => [x, y] + OptionToSeq(g)
    case SignedDivRem(_, x, y, _) => [x, y]
    case Deoptimize(_, _) => []
    case DynamicDeoptimize(a, s) => [a, s]
    case Return(r) => OptionToSeq(r)
    case Other(ins) => ins
  }

  /** Every node a node refers to (inputs, successors, recorded predecessor) is below `size`. */
  predicate RefsBelow(n: Node, size: nat) {
    match n
    case Phi(m, vs) => m < size && forall v :: v in vs ==> v < size
    case IntegerEquals(x, y) => x < size && y < size
    case OtherLogic(ins) => forall k :: k in ins ==> k < size
    case If(c, t, f) => c < size && t < size && f < size
    case Begin(p) => p.Some? ==> p.value < size
    case MultiGuard(gs) => forall k :: k in gs ==> k < size
    case FloatingDivRem(_, x, y, g) => x < size && y < size && (g.Some? ==> g.value < size)
    case SignedDivRem(_, x, y, _) => x < size && y < size
    case DynamicDeoptimize(a, s) => a < size && s < size
    case Return(r) => r.Some? ==> r.value < size
    case Other(ins) => forall k :: k in ins ==> k < size
    case _ => true
  }

  /** Every reference of every node stays inside the arena. */
  ghost predicate WellFormed(g: Graph) {
    forall i :: 0 <= i < |g| ==> RefsBelow(g[i], |g|)
  }

  /** References below some size stay below any larger size. */
  lemma RefsBelowGrow(n: Node, size: nat, size': nat)
    requires RefsBelow(n, size) && size <= size'
    ensures RefsBelow(n, size')
  {
  }

  /** Appending a node whose references stay inside the arena keeps the graph well formed. */
  lemma AppendKeepsWellFormed(g: Graph, n: Node)
    requires WellFormed(g) && RefsBelow(n, |g|)
    ensures WellFormed(g + [n])
  {
    forall i | 0 <= i < |g| + 1 ensures RefsBelow((g + [n])[i], |g| + 1) {
      if i < |g| {
        RefsBelowGrow(g[i], |g|, |g| + 1);
      } else {
        RefsBelowGrow(n, |g|, |g| + 1);
      }
    }
  }

  /** 1 when the edge j points at node k. */
  function Hit(j: NodeId, k: NodeId): nat {
    if j == k then 1 else 0
  }

  /** 1 when the optional edge o is present and points at node k. */
  function HitOpt(o: Option<NodeId>, k: NodeId): nat {
    if o == Some(k) then 1 else 0
  }

  /** How many edges of the list s point at node k. */
  function CountIn(s: seq<NodeId>, k: NodeId): nat
    decreases |s|
  {
    if |s| == 0 then 0 else Hit(s[0], k) + CountIn(s[1..], k)
  }

  /** How many of a node's input edges point at node k, field by field. */
  function EdgesTo(n: Node, k: NodeId): nat {
    match n
    case Phi(m, vs) => Hit(m, k) + CountIn(vs, k)
    case IntegerEquals(x, y) => Hit(x, k) + Hit(y, k)
    case OtherLogic(ins) => CountIn(ins, k)
    case If(c, _, _) => Hit(c, k)
    case MultiGuard(gs) => CountIn(gs, k)
    case FloatingDivRem(_, x, y, g) => Hit(x, k) + Hit(y, k) + HitOpt(g, k)
    case SignedDivRem(_, x, y, _) => Hit(x, k) + Hit(y, k)
    case DynamicDeoptimize(a, s) => Hit(a, k) + Hit(s, k)
    case Return(r) => HitOpt(r, k)
    case Other(ins) => CountIn(ins, k)
    case _ => 0
  }

  /** CountIn is the multiplicity of k in the list. */
  lemma {:induction false} CountInIsMultiplicity(s: seq<NodeId>, k: NodeId)
    ensures CountIn(s, k) == multiset(s)[k]
    decreases |s|
  {
    if |s| != 0 {
      assert s == [s[0]] + s[1..];
      CountInIsMultiplicity(s[1..], k);
    }
  }

  lemma {:induction false} CountInConcat(a: seq<NodeId>, b: seq<NodeId>, k: NodeId)
    ensures CountIn(a + b, k) == CountIn(a, k) + CountIn(b, k)
    decreases |a|
  {
    if |a| == 0 {
      assert a + b == b;
    } else {
      assert (a + b)[0] == a[0];
      assert (a + b)[1..] == a[1..] + b;
      CountInConcat(a[1..], b, k);
    }
  }

  lemma CountInPair(x: NodeId, y: NodeId, k: NodeId)
    ensures CountIn([x, y], k) == Hit(x, k) + Hit(y, k)
  {
    assert [x, y][1..] == [y];
    assert [y][1..] == [];
    assert CountIn([y], k) == Hit(y, k) + CountIn([], k);
    assert CountIn([x, y], k) == Hit(x, k) + CountIn([y], k);
  }

  lemma CountInOption(o: Option<NodeId>, k: NodeId)
    ensures CountIn(OptionToSeq(o), k) == HitOpt(o, k)
  {
    if o.Some? {
      assert OptionToSeq(o)[1..] == [];
    }
  }

  /** EdgesTo counts the edges to k in the node's input list. */
  lemma EdgesToCountsInputList(n: Node, k: NodeId)
    ensures EdgesTo(n, k) == CountIn(Inputs(n), k)
  {
    match n
    case Phi(m, vs) =>
      CountInConcat([m], vs, k);
      assert [m][1..] == [];
    case IntegerEquals(x, y) => CountInPair(x, y, k);
    case If(c, _, _) => assert [c][1..] == [];
    case FloatingDivRem(_, x, y, g) =>
      CountInConcat([x, y], OptionToSeq(g), k);
      CountInPair(x, y, k);
      CountInOption(g, k);
    case SignedDivRem(_, x, y, _) => CountInPair(x, y, k);
    case DynamicDeoptimize(a, s) => CountInPair(a, s, k);
    case Return(r) => CountInOption(r, k);
    case _ =>
  }

  /** EdgesTo counts exactly the occurrences of k among the node's input edges. */
  lemma EdgesToCountsInputs(n: Node, k: NodeId)
    ensures EdgesTo(n, k) == multiset(Inputs(n))[k]
  {
    EdgesToCountsInputList(n, k);
    CountInIsMultiplicity(Inputs(n), k);
  }

  /** A list whose entries are all below `size` holds no edge to a node at or above it. */
  lemma {:induction false} CountInAbove(s: seq<NodeId>, size: nat, k: NodeId)
    requires forall j :: j in s ==> j < size
    requires size <= k
    ensures CountIn(s, k) == 0
    decreases |s|
  {
    if |s| != 0 {
      assert s[0] in s;
      forall j | j in s[1..] ensures j < size {
        assert j in s;
      }
      CountInAbove(s[1..], size, k);
    }
  }

  /** A node whose references are below `size` has no edge to a node at or above it. */
  lemma EdgesAbove(n: Node, size: nat, k: NodeId)
    requires RefsBelow(n, size) && size <= k
    ensures EdgesTo(n, k) == 0
  {
    match n
    case Phi(m, vs) => CountInAbove(vs, size, k);
    case OtherLogic(ins) => CountInAbove(ins, size, k);
    case MultiGuard(gs) => CountInAbove(gs, size, k);
    case Other(ins) => CountInAbove(ins, size, k);
    case _ =>
  }

  /** How many input edges of the nodes 0 .. m-1 point at node k. */
  function UsageCountBelow(g: Graph, m: nat, k: NodeId): nat
    requires m <= |g|
    decreases m
  {
    if m == 0 then 0 else UsageCountBelow(g, m - 1, k) + EdgesTo(g[m - 1], k)
  }

  /** Graal's usage count of node k: how many input edges of the graph point at it, counted with
      multiplicity. */
  function UsageCount(g: Graph, k: NodeId): nat {
    UsageCountBelow(g, |g|, k)
  }

  /** The count over a prefix depends only on the nodes in it. */
  lemma {:induction false} UsageCountBelowSame(g: Graph, h: Graph, m: nat, k: NodeId)
    requires m <= |g| && m <= |h|
    requires forall j :: 0 <= j < m ==> g[j] == h[j]
    ensures UsageCountBelow(g, m, k) == UsageCountBelow(h, m, k)
    decreases m
  {
    if m > 0 {
      UsageCountBelowSame(g, h, m - 1, k);
      assert g[m - 1] == h[m - 1];
    }
  }

  /** Appending a node adds exactly its own input edges to every usage count. */
  lemma UsageCountAppend(g: Graph, n: Node, k: NodeId)
    ensures UsageCount(g + [n], k) == UsageCount(g, k) + EdgesTo(n, k)
  {
    UsageCountBelowSame(g + [n], g, |g|, k);
  }

  /** Replacing node i changes a usage count by exactly the difference between the edges of the
      old and of the new node; the old node's edges are part of the old count. */
  lemma UsageCountUpdate(g: Graph, i: nat, n: Node, k: NodeId)
    requires i < |g|
    ensures EdgesTo(g[i], k) <= UsageCount(g, k)
    ensures UsageCount(g[i := n], k) == UsageCount(g, k) - EdgesTo(g[i], k) + EdgesTo(n, k)
  {
    UsageCountBelowUpdate(g, i, n, |g|, k);
    UsageCountBelowContain(g, i, |g|, k);
  }

  /** The count over a prefix includes the edges of every node in it. */
  lemma {:induction false} UsageCountBelowContain(g: Graph, i: nat, m: nat, k: NodeId)
    requires i < m <= |g|
    ensures EdgesTo(g[i], k) <= UsageCountBelow(g, m, k)
    decreases m
  {
    var before := UsageCountBelow(g, m - 1, k);
    var last := EdgesTo(g[m - 1], k);
    assert UsageCountBelow(g, m, k) == before + last;
    if i < m - 1 {
      UsageCountBelowContain(g, i, m - 1, k);
      assert EdgesTo(g[i], k) <= before;
    } else {
      assert EdgesTo(g[i], k) == last;
    }
  }

  /** Replacing node i changes the count over a prefix only once the prefix contains i. */
  lemma {:induction false} UsageCountBelowUpdate(g: Graph, i: nat, n: Node, m: nat, k: NodeId)
    requires i < |g| && m <= |g|
    ensures m <= i ==> UsageCountBelow(g[i := n], m, k) == UsageCountBelow(g, m, k)
    ensures i < m ==> UsageCountBelow(g[i := n], m, k) + EdgesTo(g[i], k) == UsageCountBelow(g, m, k) + EdgesTo(n, k)
    decreases m
  {
    if m > 0 {
      UsageCountBelowUpdate(g, i, n, m - 1, k);
      if m - 1 != i {
        assert g[i := n][m - 1] == g[m - 1];
      }
    }
  }

  /** The input id k with every occurrence of `from` redirected to `to`. */
  function Redirect(k: NodeId, from: NodeId, to: NodeId): NodeId {
    if k == from then to else k
  }

  function RedirectOption(o: Option<NodeId>, from: NodeId, to: NodeId): Option<NodeId> {
    match o
    case None => None
    case Some(k) => Some(Redirect(k, from, to))
  }

  function RedirectAll(s: seq<NodeId>, from: NodeId, to: NodeId): (r: seq<NodeId>)
    ensures |r| == |s|
    decreases |s|
  {
    if |s| == 0 then [] else [Redirect(s[0], from, to)] + RedirectAll(s[1..], from, to)
  }

  lemma {:induction false} RedirectAllAt(s: seq<NodeId>, from: NodeId, to: NodeId, i: nat)
    requires i < |s|
    ensures RedirectAll(s, from, to)[i] == Redirect(s[i], from, to)
    decreases i
  {
    if i > 0 {
      RedirectAllAt(s[1..], from, to, i - 1);
    }
  }

  lemma {:induction false} RedirectAllConcat(a: seq<NodeId>, b: seq<NodeId>, from: NodeId, to: NodeId)
    ensures RedirectAll(a + b, from, to) == RedirectAll(a, from, to) + RedirectAll(b, from, to)
    decreases |a|
  {
    if |a| == 0 {
      assert a + b == b;
    } else {
      assert (a + b)[0] == a[0];
      assert (a + b)[1..] == a[1..] + b;
      RedirectAllConcat(a[1..], b, from, to);
    }
  }

  /** The count of `k` after redirecting `from` to `to`, given the counts of `k`, `to` and
      `from` before: `from` vanishes and its count moves onto `to`; every other count stays. */
  function MovedCount(k: NodeId, from: NodeId, to: NodeId, atK: nat, atTo: nat, atFrom: nat): nat {
    if k == from then 0 else if k == to then atTo + atFrom else atK
  }

  /** Moving counts commutes with adding them up. */
  lemma MovedCountAdd(k: NodeId, from: NodeId, to: NodeId, atK: nat, atTo: nat, atFrom: nat, atK': nat, atTo': nat, atFrom': nat)
    requires k == to ==> atK == atTo
    requires k == to ==> atK' == atTo'
    ensures MovedCount(k, from, to, atK, atTo, atFrom) + MovedCount(k, from, to, atK', atTo', atFrom')
            == MovedCount(k, from, to, atK + atK', atTo + atTo', atFrom + atFrom')
  {
  }

  lemma {:induction false} RedirectAllCount(s: seq<NodeId>, from: NodeId, to: NodeId, k: NodeId)
    requires from != to
    ensures CountIn(RedirectAll(s, from, to), k) == MovedCount(k, from, to, CountIn(s, k), CountIn(s, to), CountIn(s, from))
    decreases |s|
  {
    if |s| != 0 {
      RedirectAllCount(s[1..], from, to, k);
      if k == to {
        RedirectAllCount(s[1..], from, to, from);
      }
      MovedCountAdd(k, from, to, Hit(s[0], k), Hit(s[0], to), Hit(s[0], from),
                    CountIn(s[1..], k), CountIn(s[1..], to), CountIn(s[1..], from));
    }
  }

  /** The node with every input edge that pointed at `from` pointing at `to`; successors,
      predecessor and attributes are unchanged. */
  function RedirectInputs(n: Node, from: NodeId, to: NodeId): Node {
    match n
    case Phi(m, vs) => Phi(Redirect(m, from, to), RedirectAll(vs, from, to))
    case IntegerEquals(x, y) => IntegerEquals(Redirect(x, from, to), Redirect(y, from, to))
    case OtherLogic(ins) => OtherLogic(RedirectAll(ins, from, to))
    case If(c, t, f) => If(Redirect(c, from, to), t, f)
    case MultiGuard(gs) => MultiGuard(RedirectAll(gs, from, to))
    case FloatingDivRem(op, x, y, g) =>
      FloatingDivRem(op, Redirect(x, from, to), Redirect(y, from, to), RedirectOption(g, from, to))
    case SignedDivRem(op, x, y, d) => SignedDivRem(op, Redirect(x, from, to), Redirect(y, from, to), d)
    case DynamicDeoptimize(a, s) => DynamicDeoptimize(Redirect(a, from, to), Redirect(s, from, to))
    case Return(r) => Return(RedirectOption(r, from, to))
    case Other(ins) => Other(RedirectAll(ins, from, to))
    case _ => n
  }

  lemma RedirectInputsEdges(n: Node, from: NodeId, to: NodeId)
    ensures Inputs(RedirectInputs(n, from, to)) == RedirectAll(Inputs(n), from, to)
  {
    match n
    case Phi(m, vs) =>
      RedirectAllConcat([m], vs, from, to);
    case FloatingDivRem(op, x, y, g) =>
      RedirectAllConcat([x, y], OptionToSeq(g), from, to);
      assert RedirectAll([x, y], from, to) == [Redirect(x, from, to), Redirect(y, from, to)] by {
        assert [x, y][1..] == [y];
      }
    case IntegerEquals(x, y) =>
      assert [x, y][1..] == [y];
    case SignedDivRem(_, x, y, _) =>
      assert [x, y][1..] == [y];
    case DynamicDeoptimize(a, s) =>
      assert [a, s][1..] == [s];
    case _ =>
  }

  /** Redirecting one edge moves it from `from` to `to`. */
  lemma RedirectHit(j: NodeId, from: NodeId, to: NodeId, k: NodeId)
    requires from != to
    ensures Hit(Redirect(j, from, to), k) == MovedCount(k, from, to, Hit(j, k), Hit(j, to), Hit(j, from))
  {
  }

  /** Redirecting an optional edge moves it from `from` to `to`. */
  lemma RedirectHitOpt(o: Option<NodeId>, from: NodeId, to: NodeId, k: NodeId)
    requires from != to
    ensures HitOpt(RedirectOption(o, from, to), k) == MovedCount(k, from, to, HitOpt(o, k), HitOpt(o, to), HitOpt(o, from))
  {
  }

  /** Redirecting two edges moves both from `from` to `to`. */
  lemma RedirectPair(x: NodeId, y: NodeId, from: NodeId, to: NodeId, k: NodeId)
    requires from != to
    ensures Hit(Redirect(x, from, to), k) + Hit(Redirect(y, from, to), k)
            == MovedCount(k, from, to, Hit(x, k) + Hit(y, k), Hit(x, to) + Hit(y, to), Hit(x, from) + Hit(y, from))
  {
    RedirectHit(x, from, to, k);
    RedirectHit(y, from, to, k);
    MovedCountAdd(k, from, to, Hit(x, k), Hit(x, to), Hit(x, from), Hit(y, k), Hit(y, to), Hit(y, from));
  }

  /** Redirecting node n's inputs moves its edges to k from `from` to `to`. */
  predicate RedirectMovesEdges(n: Node, from: NodeId, to: NodeId, k: NodeId) {
    EdgesTo(RedirectInputs(n, from, to), k) == MovedCount(k, from, to, EdgesTo(n, k), EdgesTo(n, to), EdgesTo(n, from))
  }

  /** Redirecting one node's inputs moves its edges from `from` to `to`. */
  lemma RedirectNodeCount(n: Node, from: NodeId, to: NodeId, k: NodeId)
    requires from != to
    ensures RedirectMovesEdges(n, from, to, k)
  {
    if n.Phi? {
      RedirectPhiCount(n, from, to, k);
    } else if n.FloatingDivRem? {
      RedirectFloatingCount(n, from, to, k);
    } else if n.IntegerEquals? || n.SignedDivRem? || n.DynamicDeoptimize? {
      RedirectPairCount(n, from, to, k);
    } else if n.OtherLogic? || n.MultiGuard? || n.Other? {
      RedirectListCount(n, from, to, k);
    } else if n.If? || n.Return? {
      RedirectSingleCount(n, from, to, k);
    }
  }

  lemma RedirectPhiCount(n: Node, from: NodeId, to: NodeId, k: NodeId)
    requires from != to && n.Phi?
    ensures RedirectMovesEdges(n, from, to, k)
  {
    var Phi(m, vs) := n;
    RedirectHit(m, from, to, k);
    RedirectAllCount(vs, from, to, k);
    MovedCountAdd(k, from, to, Hit(m, k), Hit(m, to), Hit(m, from), CountIn(vs, k), CountIn(vs, to), CountIn(vs, from));
  }

  lemma RedirectFloatingCount(n: Node, from: NodeId, to: NodeId, k: NodeId)
    requires from != to && n.FloatingDivRem?
    ensures RedirectMovesEdges(n, from, to, k)
  {
    var FloatingDivRem(_, x, y, g) := n;
    RedirectPair(x, y, from, to, k);
    RedirectHitOpt(g, from, to, k);
    MovedCountAdd(k, from, to, Hit(x, k) + Hit(y, k), Hit(x, to) + Hit(y, to), Hit(x, from) + Hit(y, from),
                  HitOpt(g, k), HitOpt(g, to), HitOpt(g, from));
  }

  lemma RedirectPairCount(n: Node, from: NodeId, to: NodeId, k: NodeId)
    requires from != to && (n.IntegerEquals? || n.SignedDivRem? || n.DynamicDeoptimize?)
    ensures RedirectMovesEdges(n, from, to, k)
  {
    match n
    case IntegerEquals(x, y) => RedirectPair(x, y, from, to, k);
    case SignedDivRem(_, x, y, _) => RedirectPair(x, y, from, to, k);
    case DynamicDeoptimize(a, s) => RedirectPair(a, s, from, to, k);
  }

  lemma RedirectListCount(n: Node, from: NodeId, to: NodeId, k: NodeId)
    requires from != to && (n.OtherLogic? || n.MultiGuard? || n.Other?)
    ensures RedirectMovesEdges(n, from, to, k)
  {
    match n
    case OtherLogic(ins) => RedirectAllCount(ins, from, to, k);
    case MultiGuard(gs) => RedirectAllCount(gs, from, to, k);
    case Other(ins) => RedirectAllCount(ins, from, to, k);
  }

  lemma RedirectSingleCount(n: Node, from: NodeId, to: NodeId, k: NodeId)
    requires from != to && (n.If? || n.Return?)
    ensures RedirectMovesEdges(n, from, to, k)
  {
    match n
    case If(c, _, _) => RedirectHit(c, from, to, k);
    case Return(r) => RedirectHitOpt(r, from, to, k);
  }

  /** Graal's replaceAtUsages: every input edge that pointed at `from` now points at `to`. */
  function ReplaceAtUsages(g: Graph, from: NodeId, to: NodeId): (r: Graph)
    ensures |r| == |g|
  {
    seq(|g|, i requires 0 <= i < |g| => RedirectInputs(g[i], from, to))
  }

  /** Node i after replaceAtUsages is node i with its inputs redirected. */
  lemma ReplaceAtUsagesAt(g: Graph, from: NodeId, to: NodeId, i: nat)
    requires i < |g|
    ensures ReplaceAtUsages(g, from, to)[i] == RedirectInputs(g[i], from, to)
  {
  }

  /** A list without an edge to `from` is left as it is. */
  lemma {:induction false} RedirectAllUnchanged(s: seq<NodeId>, from: NodeId, to: NodeId)
    requires CountIn(s, from) == 0
    ensures RedirectAll(s, from, to) == s
    decreases |s|
  {
    if |s| > 0 {
      RedirectAllUnchanged(s[1..], from, to);
    }
  }

  /** A node without an input edge to `from` is left as it is. */
  lemma RedirectInputsUnchanged(n: Node, from: NodeId, to: NodeId)
    requires EdgesTo(n, from) == 0
    ensures RedirectInputs(n, from, to) == n
  {
    match n
    case Phi(m, vs) => RedirectAllUnchanged(vs, from, to);
    case OtherLogic(ins) => RedirectAllUnchanged(ins, from, to);
    case MultiGuard(gs) => RedirectAllUnchanged(gs, from, to);
    case Other(ins) => RedirectAllUnchanged(ins, from, to);
    case _ =>
  }

  /** Graph by graph: after replaceAtUsages every node's input list is its old list with
      `from` redirected to `to`, and a node that had no edge to `from` is unchanged. */
  lemma ReplaceAtUsagesInputs(g: Graph, from: NodeId, to: NodeId, i: nat)
    requires i < |g|
    ensures Inputs(ReplaceAtUsages(g, from, to)[i]) == RedirectAll(Inputs(g[i]), from, to)
    ensures EdgesTo(g[i], from) == 0 ==> ReplaceAtUsages(g, from, to)[i] == g[i]
  {
    RedirectInputsEdges(g[i], from, to);
    if EdgesTo(g[i], from) == 0 {
      RedirectInputsUnchanged(g[i], from, to);
    }
  }

  /** After replaceAtUsages no edge points at `from`, and `to` has gained exactly the usages
      `from` had; no other node's usage count changes. */
  lemma ReplaceAtUsagesCount(g: Graph, from: NodeId, to: NodeId, k: NodeId)
    requires from != to
    ensures UsageCount(ReplaceAtUsages(g, from, to), k) == MovedCount(k, from, to, UsageCount(g, k), UsageCount(g, to), UsageCount(g, from))
  {
    ReplaceBelowCount(g, from, to, |g|, k);
  }

  lemma {:induction false} ReplaceBelowCount(g: Graph, from: NodeId, to: NodeId, m: nat, k: NodeId)
    requires from != to && m <= |g|
    ensures UsageCountBelow(ReplaceAtUsages(g, from, to), m, k) == MovedCount(k, from, to, UsageCountBelow(g, m, k), UsageCountBelow(g, m, to), UsageCountBelow(g, m, from))
    decreases m
  {
    if m > 0 {
      var r := ReplaceAtUsages(g, from, to);
      ReplaceBelowCount(g, from, to, m - 1, k);
      ReplaceAtUsagesAt(g, from, to, m - 1);
      RedirectNodeCount(g[m - 1], from, to, k);
      assert RedirectMovesEdges(g[m - 1], from, to, k);
      assert UsageCountBelow(r, m, k) == UsageCountBelow(r, m - 1, k) + EdgesTo(RedirectInputs(g[m - 1], from, to), k);
      MovedCountAdd(k, from, to, UsageCountBelow(g, m - 1, k), UsageCountBelow(g, m - 1, to), UsageCountBelow(g, m - 1, from),
                    EdgesTo(g[m - 1], k), EdgesTo(g[m - 1], to), EdgesTo(g[m - 1], from));
    }
  }
}
